/**
 The SHA-1 of FIPS 180-4: the functions and constants of sections 4.1.1 and 4.2.1, the
 message schedule and round loop of section 6.1.2, and the padding of section 5.1.1.
 This is the reference the streaming implementation is compared with.
 */
module Fips180 {
  import opened Bytes

  datatype Regs = Regs(a: word, b: word, c: word, d: word, e: word)

  const IV := Regs(0x67452301, 0xefcdab89, 0x98badcfe, 0x10325476, 0xc3d2e1f0)

  /** The left rotations of section 3.2 that SHA-1 uses. */
  function Rotl1(x: word): word { x.RotateLeft(1) }
  function Rotl5(x: word): word { x.RotateLeft(5) }
  function Rotl30(x: word): word { x.RotateLeft(30) }

  function Ch(x: word, y: word, z: word): word { (x & y) ^ (!x & z) }

  function Parity(x: word, y: word, z: word): word { x ^ y ^ z }

  function Maj(x: word, y: word, z: word): word { (x & y) ^ (x & z) ^ (y & z) }

  function F(t: nat, x: word, y: word, z: word): word {
    if t < 20 then Ch(x, y, z)
    else if t < 40 then Parity(x, y, z)
    else if t < 60 then Maj(x, y, z)
    else Parity(x, y, z)
  }

  function K(t: nat): word {
    if t < 20 then 0x5a827999
    else if t < 40 then 0x6ed9eba1
    else if t < 60 then 0x8f1bbcdc
    else 0xca62c1d6
  }

  function NextWord(w3: word, w8: word, w14: word, w16: word): word { Rotl1(w3 ^ w8 ^ w14 ^ w16) }

  /** The message schedule, as the recurrence that defines it. */
  function W(block: seq<byte>, t: nat): word
    requires |block| == 64
  {
    if t < 16 then BeWord(block[4 * t], block[4 * t + 1], block[4 * t + 2], block[4 * t + 3])
    else NextWord(W(block, t - 3), W(block, t - 8), W(block, t - 14), W(block, t - 16))
  }

  /** The temporary word of a step. */
  function T(a: word, f: word, e: word, k: word, w: word): word { Sum5(Rotl5(a), f, e, k, w) }

  function Sum5(x: word, f: word, e: word, k: word, w: word): word { x + f + e + k + w }

  function Step(r: Regs, t: nat, w: word): Regs {
    Regs(T(r.a, F(t, r.b, r.c, r.d), r.e, K(t), w), r.a, Rotl30(r.b), r.c, r.d)
  }

  /** The working variables after the first `t` steps on `block`. */
  function Rounds(r: Regs, block: seq<byte>, t: nat): Regs
    requires |block| == 64
  {
    if t == 0 then r else Step(Rounds(r, block, t - 1), t - 1, W(block, t - 1))
  }

  /** Addition modulo 2^32. */
  function Plus(x: word, y: word): word { x + y }

  function Sum(h: Regs, r: Regs): Regs {
    Regs(Plus(h.a, r.a), Plus(h.b, r.b), Plus(h.c, r.c), Plus(h.d, r.d), Plus(h.e, r.e))
  }

  function Compress(h: Regs, block: seq<byte>): Regs
    requires |block| == 64
  {
    Sum(h, Rounds(h, block, 80))
  }

  /** The chaining value after all the 64-byte blocks of `msg`. */
  function Fold(h: Regs, msg: seq<byte>): Regs
    requires |msg| % 64 == 0
    decreases |msg|
  {
    if |msg| == 0 then h
    else Compress(Fold(h, msg[..|msg| - 64]), msg[|msg| - 64..])
  }

  function WordBytes(w: word): (s: seq<byte>)
    ensures |s| == 4
  {
    [(w >> 24) as byte, ((w >> 16) & 0xff) as byte, ((w >> 8) & 0xff) as byte, (w & 0xff) as byte]
  }

  function RegsBytes(r: Regs): (s: seq<byte>)
    ensures |s| == 20
  {
    WordBytes(r.a) + WordBytes(r.b) + WordBytes(r.c) + WordBytes(r.d) + WordBytes(r.e)
  }

  /** The zero bytes between the 0x80 byte and the length field: the fewest that fill a block. */
  function PadZeros(len: nat): (k: nat)
    ensures k < 64
    ensures (len + 1 + k + 8) % 64 == 0
  {
    (119 - len % 64) % 64
  }

  /** The 64-bit big-endian length field, in bits. */
  function LengthField(len: nat): (s: seq<byte>)
    ensures |s| == 8
  {
    Be32(8 * len / 0x1_0000_0000) + Be32(8 * len % 0x1_0000_0000)
  }

  function Pad(m: seq<byte>): (p: seq<byte>)
    ensures |p| % 64 == 0
  {
    m + [0x80] + Zeros(PadZeros(|m|)) + LengthField(|m|)
  }

  function Digest(m: seq<byte>): (s: seq<byte>)
    ensures |s| == 20
  {
    RegsBytes(Fold(IV, Pad(m)))
  }
}
