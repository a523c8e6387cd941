/**
 The streaming SHA-1 object: `reset`, `process`, `transform` and `hash`.

 The chaining variables are 64-bit accumulators of which only the low halves matter, the
 compression is unrolled with rotating register names over a 16-word schedule that is
 overwritten as it goes, and messages arrive in pieces of any size.
 */
module Sha1 {
  import opened Bytes
  import opened Words
  import Fips = Fips180

  // ----- Word operations, as the macros spell them -----

  function F1(x: word, y: word, z: word): word { z ^ (x & (y ^ z)) }
  function F2(x: word, y: word, z: word): word { x ^ y ^ z }
  function F3(x: word, y: word, z: word): word { (x & y) | (z & (x | y)) }
  function F4(x: word, y: word, z: word): word { x ^ y ^ z }

  /** The macro argument `f` of step `t`. */
  function FAt(t: nat, x: word, y: word, z: word): word {
    if t < 20 then F1(x, y, z)
    else if t < 40 then F2(x, y, z)
    else if t < 60 then F3(x, y, z)
    else F4(x, y, z)
  }

  /** The macro argument `k` of step `t`, a 64-bit `long`. */
  function KAt(t: nat): bv64 {
    if t < 20 then 0x5a827999
    else if t < 40 then 0x6ed9eba1
    else if t < 60 then 0x8f1bbcdc
    else 0xca62c1d6
  }

  /** The conversion from `long` to `unsigned int`. */
  function Low(h: bv64): word { (h & 0xffff_ffff) as word }

  /** `e += rol(a, 5) + f + k + m`: summed as `long`, stored as `unsigned int`. */
  function AddLong(a: word, f: word, e: word, k: bv64, m: word): word {
    LongSum(Rol5(a), f, e, k, m)
  }

  function LongSum(x: word, f: word, e: word, k: bv64, m: word): word {
    Low((e as bv64) + (((x + f) as bv64) + k + (m as bv64)))
  }

  // The macros agree with the standard's functions.

  /** The macro `rol` is the rotation of section 3.2, for the three distances that are used. */
  lemma RolIsRotl(x: word)
    ensures Rol1(x) == Fips.Rotl1(x) && Rol5(x) == Fips.Rotl5(x) && Rol30(x) == Fips.Rotl30(x)
  {
  }

  /** In numbers: what is shifted out at the top comes in at the bottom. */
  lemma RotlIs(x: word)
    ensures Num(Fips.Rotl1(x)) == Num(x) * 2 % M32 + Num(x) / 0x8000_0000
    ensures Num(Fips.Rotl5(x)) == Num(x) * 32 % M32 + Num(x) / 0x800_0000
    ensures Num(Fips.Rotl30(x)) == Num(x) * 0x4000_0000 % M32 + Num(x) / 4
  {
    RolIsRotl(x);
    RolIs(x);
  }

  lemma ChooseBits(x: word, y: word, z: word)
    ensures z ^ (x & (y ^ z)) == Fips.Ch(x, y, z)
  {
  }

  lemma ChooseIsCh(x: word, y: word, z: word)
    ensures F1(x, y, z) == Fips.Ch(x, y, z)
  {
    ChooseBits(x, y, z);
  }

  lemma MajorityBits(x: word, y: word, z: word)
    ensures (x & y) | (z & (x | y)) == Fips.Maj(x, y, z)
  {
  }

  lemma MajorityIsMaj(x: word, y: word, z: word)
    ensures F3(x, y, z) == Fips.Maj(x, y, z)
  {
    MajorityBits(x, y, z);
  }

  lemma FAtIsF(t: nat, x: word, y: word, z: word)
    ensures FAt(t, x, y, z) == Fips.F(t, x, y, z)
  {
    hide F1, F3, Fips.Ch, Fips.Maj;
    ChooseIsCh(x, y, z);
    MajorityIsMaj(x, y, z);
  }

  lemma LongSumBits(x: word, f: word, e: word, k: word, m: word)
    ensures (((e as bv64) + (((x + f) as bv64) + (k as bv64) + (m as bv64))) & 0xffff_ffff) as word == x + f + e + k + m
  {
  }

  lemma LongSumIs(x: word, f: word, e: word, k: word, m: word)
    ensures LongSum(x, f, e, k as bv64, m) == Fips.Sum5(x, f, e, k, m)
  {
    LongSumBits(x, f, e, k, m);
  }

  /** Sums taken in 64 bits and then truncated are sums modulo 2^32. */
  lemma AddLongWraps(a: word, f: word, e: word, k: word, m: word)
    ensures AddLong(a, f, e, k as bv64, m) == Fips.T(a, f, e, k, m)
  {
    hide Rol1, Rol5, Rol30, Fips.Rotl1, Fips.Rotl5, Fips.Rotl30, LongSum, Fips.Sum5;
    RolIsRotl(a);
    LongSumIs(Fips.Rotl5(a), f, e, k, m);
  }

  lemma LowHalfOfSum(h: bv64, a: word)
    ensures ((h + (a as bv64)) & 0xffff_ffff) as word == Fips.Plus((h & 0xffff_ffff) as word, a)
  {
  }

  lemma LowOfSum(h: bv64, a: word)
    ensures Low(h + (a as bv64)) == Fips.Plus(Low(h), a)
  {
    LowHalfOfSum(h, a);
  }

  /** `h += a` on a `long`; the low half wraps like a 32-bit word. */
  function Accumulated(h: bv64, a: word): (r: bv64)
    ensures Low(r) == Fips.Plus(Low(h), a)
  {
    LowOfSum(h, a);
    h + a as bv64
  }

  lemma KAtIsK(t: nat)
    ensures KAt(t) == Fips.K(t) as bv64
  {
  }

  /**
   One use of the `R` macro. Two of the five registers change; read in the standard's order
   the outcome is one step of the round loop.
   */
  method R(a: word, b: word, c: word, d: word, e: word, t: nat, m: word) returns (e': word, b': word)
    ensures Fips.Regs(e', a, b', c, d) == Fips.Step(Fips.Regs(a, b, c, d, e), t, m)
  {
    e' := AddLong(a, FAt(t, b, c, d), e, KAt(t), m);
    b' := Rol30(b);
    RolIsRotl(b);
    FAtIsF(t, b, c, d);
    KAtIsK(t);
    AddLongWraps(a, Fips.F(t, b, c, d), e, Fips.K(t), m);
  }

  /** The sixteen words last written to `x` are the schedule words before number `i`. */
  ghost predicate Window(x: seq<word>, block: seq<byte>, i: nat)
    requires |block| == 64
  {
    && |x| == 16
    && forall s :: 0 <= s < i && i - 16 <= s ==> x[s % 16] == Fips.W(block, s)
  }

  /** The macro `M` on the four words it reads. */
  function MWord(a: word, b: word, c: word, d: word): word { Rol1(a ^ b ^ c ^ d) }

  lemma XorOrder(a: word, b: word, c: word, d: word)
    ensures Rol1(a ^ b ^ c ^ d) == Fips.NextWord(d, c, b, a)
  {
  }

  lemma MWordIsNextWord(a: word, b: word, c: word, d: word)
    ensures MWord(a, b, c, d) == Fips.NextWord(d, c, b, a)
  {
    XorOrder(a, b, c, d);
  }

  /** The circular schedule computes the recurrence of section 6.1.2 (the alternate method of 6.1.3). */
  lemma NextWord(x: seq<word>, block: seq<byte>, i: nat)
    requires |block| == 64 && i >= 16
    requires Window(x, block, i)
    ensures MWord(x[i % 16], x[(i - 14) % 16], x[(i - 8) % 16], x[(i - 3) % 16]) == Fips.W(block, i)
  {
    hide MWord, Fips.NextWord;
    assert (i - 16) % 16 == i % 16;
    MWordIsNextWord(Fips.W(block, i - 16), Fips.W(block, i - 14), Fips.W(block, i - 8), Fips.W(block, i - 3));
  }

  lemma WindowSlides(x: seq<word>, block: seq<byte>, i: nat)
    requires |block| == 64
    requires Window(x, block, i)
    ensures Window(x[i % 16 := Fips.W(block, i)], block, i + 1)
  {
  }

  /** The message word of step `i`: `x[i]` while it lasts, then the macro `M(i)`. */
  method Word(x: array<word>, i: nat, ghost block: seq<byte>) returns (m: word)
    requires |block| == 64
    requires Window(x[..], block, if i < 16 then 16 else i)
    modifies x
    ensures Window(x[..], block, if i < 15 then 16 else i + 1)
    ensures m == Fips.W(block, i)
  {
    hide MWord;
    if i < 16 {
      m := x[i];
      assert x[..][i % 16] == Fips.W(block, i);
    } else {
      NextWord(x[..], block, i);
      WindowSlides(x[..], block, i);
      m := MWord(x[i % 16], x[(i - 14) % 16], x[(i - 8) % 16], x[(i - 3) % 16]);
      ghost var before := x[..];
      x[i % 16] := m;
      assert x[..] == before[i % 16 := m];
    }
  }

  /** The message block as sixteen big-endian words. */
  method LoadWords(data: seq<byte>) returns (x: array<word>)
    requires |data| == 64
    ensures fresh(x) && Window(x[..], data, 16)
  {
    x := new word[16];
    for i := 0 to 16
      invariant forall s :: 0 <= s < i ==> x[s] == Fips.W(data, s)
    {
      x[i] := BeWord(data[4 * i], data[4 * i + 1], data[4 * i + 2], data[4 * i + 3]);
    }
  }

  /** Five steps, after which every register is back under its own name. */
  method FiveSteps(a0: word, b0: word, c0: word, d0: word, e0: word, t: nat, x: array<word>,
                   ghost h: Fips.Regs, ghost data: seq<byte>)
    returns (a: word, b: word, c: word, d: word, e: word)
    requires |data| == 64
    requires Window(x[..], data, if t < 16 then 16 else t)
    requires Fips.Regs(a0, b0, c0, d0, e0) == Fips.Rounds(h, data, t)
    modifies x
    ensures Window(x[..], data, if t + 5 < 16 then 16 else t + 5)
    ensures Fips.Regs(a, b, c, d, e) == Fips.Rounds(h, data, t + 5)
  {
    a, b, c, d, e := a0, b0, c0, d0, e0;
    var m := Word(x, t, data);
    e, b := R(a, b, c, d, e, t, m);
    assert Fips.Regs(e, a, b, c, d) == Fips.Rounds(h, data, t + 1);
    m := Word(x, t + 1, data);
    d, a := R(e, a, b, c, d, t + 1, m);
    assert Fips.Regs(d, e, a, b, c) == Fips.Rounds(h, data, t + 2);
    m := Word(x, t + 2, data);
    c, e := R(d, e, a, b, c, t + 2, m);
    assert Fips.Regs(c, d, e, a, b) == Fips.Rounds(h, data, t + 3);
    m := Word(x, t + 3, data);
    b, d := R(c, d, e, a, b, t + 3, m);
    assert Fips.Regs(b, c, d, e, a) == Fips.Rounds(h, data, t + 4);
    m := Word(x, t + 4, data);
    a, c := R(b, c, d, e, a, t + 4, m);
  }

  lemma FoldAppend(msg: seq<byte>, block: seq<byte>)
    requires |msg| % 64 == 0 && |block| == 64
    ensures Fips.Fold(Fips.IV, msg + block) == Fips.Compress(Fips.Fold(Fips.IV, msg), block)
  {
    assert (msg + block)[..|msg|] == msg;
    assert (msg + block)[|msg|..] == block;
  }

  // ----- Padding -----

  /** The bit count as two unsigned words: what `hash` computes from `_nblocks` and `_count`. */
  function BitCount(nblocks: nat, count: nat): (words: (nat, nat))
    ensures words.0 < M32 && words.1 < M32
  {
    var t := nblocks % M32;
    var bytesLow := t * 64 % M32;
    var carry0 := if bytesLow < t then 1 else 0;
    var bytes := (bytesLow + count) % M32;
    var carry1 := if bytes < bytesLow then 1 else 0;
    var lsb := bytes * 8 % M32;
    var carry2 := if lsb < bytes then 1 else 0;
    ((carry0 + t / 0x400_0000 + carry1 + carry2 + bytes / 0x2000_0000) % M32, lsb)
  }

  function LengthField(len: nat): (s: seq<byte>)
    ensures |s| == 8
  {
    var words := BitCount(len / 64, len % 64);
    Be32(words.0) + Be32(words.1)
  }

  /** Zero bytes between 0x80 and the length field: a buffer of 55 bytes already spills over. */
  function PadZeros(len: nat): (k: nat)
    ensures (len + 1 + k + 8) % 64 == 0
  {
    if len % 64 < 55 then 55 - len % 64 else 119 - len % 64
  }

  function Pad(m: seq<byte>): (p: seq<byte>)
    ensures |p| % 64 == 0
  {
    m + [0x80] + Zeros(PadZeros(|m|)) + LengthField(|m|)
  }

  /** The digest this class computes. */
  function Digest(m: seq<byte>): (s: seq<byte>)
    ensures |s| == 20
  {
    Fips.RegsBytes(Fips.Fold(Fips.IV, Pad(m)))
  }

  /** When the computed bit count is the true one: the wrap test on the last shift must not fire. */
  predicate CountsExactly(len: nat) {
    len < M32 && 8 * len % M32 >= len
  }

  lemma ShortBitCount(len: nat)
    requires len < M32
    ensures BitCount(len / 64, len % 64)
         == (len / 0x2000_0000 + (if 8 * len % M32 < len then 1 else 0), 8 * len % M32)
  {
    var t := len / 64;
    DivMod(t, M32, 0, t);
    DivMod(t * 64, M32, 0, t * 64);
    DivMod(len, M32, 0, len);
    DivMod(t, 0x400_0000, 0, t);
    assert t * 64 + len % 64 == len;
    var hi := len / 0x2000_0000 + (if 8 * len % M32 < len then 1 else 0);
    DivMod(hi, M32, 0, hi);
  }

  /** `_nblocks` cut to 32 bits keeps only part of the multiples of 2^32 in the byte count. */
  lemma BlockCountCut(len: nat, q: nat, r: nat)
    requires len == q * M32 + r && r < M32
    ensures len / 64 % M32 / 0x400_0000 == q % 64
    ensures len / 64 % M32 * 64 % M32 == r / 64 * 64
    ensures len % 64 == r % 64
  {
    var s := q / 64;
    var p := q % 64;
    assert len == (q * 0x400_0000 + r / 64) * 64 + r % 64;
    DivMod(len, 64, q * 0x400_0000 + r / 64, r % 64);
    assert q * 0x400_0000 + r / 64 == s * M32 + (p * 0x400_0000 + r / 64);
    DivMod(len / 64, M32, s, p * 0x400_0000 + r / 64);
    DivMod(p * 0x400_0000 + r / 64, 0x400_0000, p, r / 64);
    DivMod((p * 0x400_0000 + r / 64) * 64, M32, p, r / 64 * 64);
  }

  /**
   The two words for a length of any size. The low word is right. The high word has six bits of
   the multiples of 2^32, and may get two carries that are not due.
   */
  lemma AnyBitCount(len: nat)
    ensures BitCount(len / 64, len % 64) == (HighWord(len / 64 % M32, len / M32 % 64, len % M32), 8 * len % M32)
  {
    var q, r := len / M32, len % M32;
    BlockCountCut(len, q, r);
    DivMod(8 * len, M32, 8 * q + r / 0x2000_0000, 8 * r % M32);
    CountOf(len / 64, len % 64, q % 64, r);
  }

  function HighWord(t: nat, p: nat, r: nat): nat {
    (if r / 64 * 64 < t then 1 else 0) + p + (if 8 * r % M32 < r then 1 else 0) + r / 0x2000_0000
  }

  lemma CountOf(nblocks: nat, count: nat, p: nat, r: nat)
    requires p < 64 && r < M32 && count == r % 64
    requires nblocks % M32 / 0x400_0000 == p && nblocks % M32 * 64 % M32 == r / 64 * 64
    ensures BitCount(nblocks, count) == (HighWord(nblocks % M32, p, r), 8 * r % M32)
  {
    assert r / 64 * 64 + r % 64 == r;
    DivMod(r, M32, 0, r);
    DivMod(HighWord(nblocks % M32, p, r), M32, 0, HighWord(nblocks % M32, p, r));
  }

  /** From 2^32 bytes on, the computed high word is too small. */
  lemma LongBitCount(len: nat)
    requires M32 <= len < 0x2000_0000_0000_0000
    ensures BitCount(len / 64, len % 64).0 < 8 * len / M32 < M32
  {
    hide BitCount, HighWord;
    var q, r := len / M32, len % M32;
    DivMod(8 * len, M32, 8 * q + r / 0x2000_0000, 8 * r % M32);
    AnyBitCount(len);
    HighWordBound(len / 64 % M32, q % 64, r);
  }

  lemma HighWordBound(t: nat, p: nat, r: nat)
    ensures HighWord(t, p, r) <= 2 + p + r / 0x2000_0000
  {
  }

  /**
   The length field agrees with section 5.1.1 of FIPS 180-4 exactly when the carry test after
   `<< 3` stays quiet, among all the lengths the standard admits.
   */
  lemma LengthFieldExact(len: nat)
    requires len < 0x2000_0000_0000_0000
    ensures LengthField(len) == Fips.LengthField(len) <==> CountsExactly(len)
  {
    hide Be32, BitCount;
    var w := BitCount(len / 64, len % 64);
    var hi, lo := 8 * len / M32, 8 * len % M32;
    if len < M32 {
      ShortBitCount(len);
      DivMod(8 * len, M32, len / 0x2000_0000, lo);
      TwoWordsEqual(w.0, lo, hi, lo);
    } else {
      LongBitCount(len);
      TwoWordsEqual(w.0, w.1, hi, lo);
    }
  }

  lemma TwoWordsEqual(a: nat, b: nat, c: nat, d: nat)
    requires a < M32 && b < M32 && c < M32 && d < M32
    ensures Be32(a) + Be32(b) == Be32(c) + Be32(d) <==> a == c && b == d
  {
    hide Be32;
    if Be32(a) + Be32(b) == Be32(c) + Be32(d) {
      assert Be32(a) == (Be32(a) + Be32(b))[..4];
      assert Be32(b) == (Be32(a) + Be32(b))[4..];
      Be32Injective(a, c);
      Be32Injective(b, d);
    }
  }

  /** The bytes between the message and the length field decide whether the paddings have one length. */
  lemma PadZerosAgree(len: nat)
    ensures PadZeros(len) == Fips.PadZeros(len) + (if len % 64 == 55 then 64 else 0)
  {
  }

  /**
   The padding is that of section 5.1.1 of FIPS 180-4 exactly when the bit count is exact and
   the message does not end 55 bytes into a block.
   */
  lemma PadMatchesStandard(m: seq<byte>)
    requires |m| < 0x2000_0000_0000_0000
    ensures Pad(m) == Fips.Pad(m) <==> CountsExactly(|m|) && |m| % 64 != 55
  {
    hide PadZeros, Fips.PadZeros, LengthField, Fips.LengthField;
    var p, f := Pad(m), Fips.Pad(m);
    PadZerosAgree(|m|);
    if |m| % 64 != 55 {
      LengthFieldExact(|m|);
      assert p[|p| - 8..] == LengthField(|m|);
      assert f[|f| - 8..] == Fips.LengthField(|m|);
    }
  }

  /** Below 2^29 bytes only the length modulo 64 matters. */
  lemma ShortMessages(m: seq<byte>)
    requires |m| < 0x2000_0000
    ensures |m| % 64 != 55 ==> Digest(m) == Fips.Digest(m)
    ensures |m| % 64 == 55 ==> Pad(m) == m + [0x80] + Zeros(Fips.PadZeros(|m|) + 64) + Fips.LengthField(|m|)
  {
    PadMatchesStandard(m);
    LengthFieldExact(|m|);
    PadZerosAgree(|m|);
    DivMod(8 * |m|, M32, 0, 8 * |m|);
  }

  /** The bound is tight: at 2^29 bytes the high word is 2 where the standard has 1. */
  lemma FirstWrongCount()
    ensures BitCount(0x2000_0000 / 64, 0) == (2, 0)
    ensures 8 * 0x2000_0000 / M32 == 1
    ensures !CountsExactly(0x2000_0000)
  {
    hide BitCount;
    ShortBitCount(0x2000_0000);
  }

  lemma PadIs(m: seq<byte>, done: seq<byte>, last: seq<byte>)
    requires |last| == 64
    requires done + last[..56] == m + [0x80] + Zeros(PadZeros(|m|))
    requires last[56..] == LengthField(|m|)
    ensures done + last == Pad(m)
  {
    assert last == last[..56] + last[56..];
  }

  lemma ConcatAssociative(a: seq<byte>, b: seq<byte>, c: seq<byte>)
    ensures a + b + c == a + (b + c)
  {
  }

  lemma SpilledZeros(len: nat)
    requires len % 64 >= 55
    ensures Zeros(63 - len % 64) + Zeros(56) == Zeros(PadZeros(len))
  {
  }

  /** `_h >> 24`, `_h >> 16`, `_h >> 8` and `_h`, each stored as `unsigned char`. */
  function LongBytes(h: bv64): (s: seq<byte>)
    ensures s == Fips.WordBytes(Low(h))
  {
    [((h >> 24) & 0xff) as byte, ((h >> 16) & 0xff) as byte, ((h >> 8) & 0xff) as byte, (h & 0xff) as byte]
  }

  // ----- The object -----

  class SHA1 {
    const hashlen: nat := 160
    var ready: bool
    var h0: bv64
    var h1: bv64
    var h2: bv64
    var h3: bv64
    var h4: bv64
    var nblocks: nat
    var count: nat
    const buf: array<byte>

    /** The bytes processed since the last reset. */
    ghost var seen: seq<byte>

    ghost predicate Valid()
      reads this, buf
    {
      && buf.Length == 64
      && (ready ==> count < 64 && Buffered())
    }

    /** The registers cover the whole blocks of what was seen, the buffer holds the rest. */
    ghost predicate Buffered()
      reads this, buf
    {
      && buf.Length == 64
      && ready
      && count <= 64
      && |seen| == 64 * nblocks + count
      && buf[..count] == seen[64 * nblocks..]
      && Chaining() == Fips.Fold(Fips.IV, seen[..64 * nblocks])
    }

    /** The chaining value, as the standard's 32-bit registers. */
    function Chaining(): Fips.Regs
      reads this
    {
      Fips.Regs(Low(h0), Low(h1), Low(h2), Low(h3), Low(h4))
    }

    constructor ()
      ensures Valid() && fresh(buf)
      ensures ready && seen == []
    {
      buf := new byte[64];
      new;
      Reset();
    }

    method Reset()
      requires buf.Length == 64
      modifies this, buf
      ensures Valid()
      ensures ready && seen == []
    {
      h0, h1, h2, h3, h4 := 0x67452301, 0xefcdab89, 0x98badcfe, 0x10325476, 0xc3d2e1f0;
      nblocks, count := 0, 0;
      forall i | 0 <= i < 56 {
        buf[i] := 0;
      }
      seen := [];
      ready := true;
    }

    /** The unrolled compression, five steps for each turn of the register names. */
    method Transform(data: seq<byte>)
      requires |data| == 64
      modifies `h0, `h1, `h2, `h3, `h4
      ensures Chaining() == Fips.Compress(old(Chaining()), data)
    {
      var a, b, c, d, e := Low(h0), Low(h1), Low(h2), Low(h3), Low(h4);
      ghost var h := Fips.Regs(a, b, c, d, e);
      var x := LoadWords(data);
      for g := 0 to 16
        invariant Window(x[..], data, if 5 * g < 16 then 16 else 5 * g)
        invariant Fips.Regs(a, b, c, d, e) == Fips.Rounds(h, data, 5 * g)
        modifies x
      {
        a, b, c, d, e := FiveSteps(a, b, c, d, e, 5 * g, x, h, data);
      }
      assert Fips.Regs(a, b, c, d, e) == Fips.Rounds(h, data, 80);
      Accumulate(a, b, c, d, e);
    }

    /** `_h0 += a` and so on, in 64 bits. */
    method Accumulate(a: word, b: word, c: word, d: word, e: word)
      modifies `h0, `h1, `h2, `h3, `h4
      ensures Chaining() == Fips.Sum(old(Chaining()), Fips.Regs(a, b, c, d, e))
    {
      h0 := Accumulated(h0, a);
      h1 := Accumulated(h1, b);
      h2 := Accumulated(h2, c);
      h3 := Accumulated(h3, d);
      h4 := Accumulated(h4, e);
    }

    lemma Parts()
      requires Buffered()
      ensures |seen| == 64 * nblocks + count && count <= 64 && buf.Length == 64 && ready
      ensures seen == seen[..64 * nblocks] + buf[..count]
      ensures Chaining() == Fips.Fold(Fips.IV, seen[..64 * nblocks])
    {
    }

    lemma Covered(done: seq<byte>)
      requires buf.Length == 64 && ready && count <= 64
      requires |done| == 64 * nblocks && seen == done + buf[..count]
      requires Chaining() == Fips.Fold(Fips.IV, done)
      ensures Buffered()
    {
      assert seen[..64 * nblocks] == done;
    }

    /** `process(0, 0)`: compress a full buffer. */
    method Flush()
      requires Buffered()
      modifies this
      ensures Valid() && ready
      ensures count == if old(count) == 64 then 0 else old(count)
      ensures seen == old(seen)
    {
      hide Buffered;
      Parts();
      if count == 64 {
        FoldAppend(seen[..64 * nblocks], buf[..]);
        assert seen == seen[..64 * nblocks] + buf[..];
        Transform(buf[..]);
        count := 0;
        nblocks := nblocks + 1;
        Covered(seen);
      }
    }

    /** `_buf[_count++] = b` for a byte of the message. */
    method Put(b: byte)
      requires Buffered() && count < 64
      modifies this, buf
      ensures Buffered()
      ensures count == old(count) + 1 && nblocks == old(nblocks)
      ensures seen == old(seen) + [b]
    {
      buf[count] := b;
      count := count + 1;
      seen := seen + [b];
      assert seen[..64 * nblocks] == old(seen[..64 * nblocks]);
    }

    /** Compresses a whole block straight from the input. */
    method Whole(block: seq<byte>)
      requires Valid() && ready && count == 0
      requires |block| == 64
      modifies this
      ensures Valid() && ready && count == 0
      ensures seen == old(seen) + block
    {
      hide Buffered;
      Parts();
      assert seen[..64 * nblocks] == seen;
      FoldAppend(seen, block);
      Transform(block);
      nblocks := nblocks + 1;
      seen := seen + block;
      Covered(seen);
    }

    /** Copies bytes into the buffer until it is full or the input ends. */
    method Fill(block: seq<byte>, from: nat) returns (to: nat)
      requires Buffered() && ready && count <= 64
      requires from <= |block|
      modifies this, buf
      ensures Buffered() && ready && count <= 64
      ensures to == (if |block| - from < 64 - old(count) then |block| else from + (64 - old(count)))
      ensures count == old(count) + (to - from)
      ensures seen == old(seen) + block[from..to]
    {
      hide Buffered;
      to := from;
      while to < |block| && count < 64
        invariant from <= to <= |block|
        invariant count == old(count) + (to - from) <= 64
        invariant nblocks == old(nblocks)
        invariant Buffered() && ready
        invariant seen == old(seen) + block[from..to]
      {
        Put(block[to]);
        to := to + 1;
        assert block[from..to] == block[from..to - 1] + [block[to - 1]];
      }
    }

    /** Compresses all the whole blocks that are left in the input. */
    method Wholes(block: seq<byte>, from: nat) returns (to: nat)
      requires Valid() && ready && count == 0
      requires from <= |block|
      modifies this
      ensures Valid() && ready && count == 0
      ensures from <= to <= |block| < to + 64
      ensures seen == old(seen) + block[from..to]
    {
      hide Buffered;
      to := from;
      while |block| - to >= 64
        invariant from <= to <= |block|
        invariant Valid() && ready && count == 0
        invariant seen == old(seen) + block[from..to]
      {
        Whole(block[to..to + 64]);
        assert block[from..to + 64] == block[from..to] + block[to..to + 64];
        to := to + 64;
      }
    }

    /**
     Feeds a piece of the message; -1 if the digest has been taken and not reset.
     Pieces of any size leave the object as one piece would.
     */
    method Process(block: seq<byte>) returns (cnt: int)
      requires Valid()
      modifies this, buf
      ensures Valid()
      ensures ready == old(ready)
      ensures cnt == if old(ready) then |block| else -1
      ensures old(ready) ==> seen == old(seen) + block
    {
      hide Buffered;
      if !ready {
        return -1;
      }
      Flush();
      var at := 0;
      if count != 0 {
        at := Fill(block, 0);
        Flush();
        if at == |block| {
          return at;
        }
      }
      ghost var mid := at;
      at := Wholes(block, at);
      cnt := Fill(block, at);
      assert block == block[..mid] + block[mid..at] + block[at..cnt];
    }

    /** The bit count so far, by the shifts and carry tests of `hash`. */
    method CountBits() returns (msb: nat, lsb: nat)
      ensures (msb, lsb) == BitCount(nblocks, count)
    {
      msb := 0;
      var t := nblocks % M32;
      lsb := t * 64 % M32;
      if lsb < t {
        msb := msb + 1;
      }
      msb := msb + t / 0x400_0000;
      t := lsb;
      lsb := (t + count) % M32;
      if lsb < t {
        msb := msb + 1;
      }
      t := lsb;
      lsb := t * 8 % M32;
      if lsb < t {
        msb := msb + 1;
      }
      msb := (msb + t / 0x2000_0000) % M32;
    }

    /** Puts zero bytes until the buffer holds `upTo` of them. */
    method PutZeros(upTo: nat)
      requires Buffered() && count <= upTo <= 64
      modifies this, buf
      ensures Buffered() && count == upTo && nblocks == old(nblocks)
      ensures seen == old(seen) + Zeros(upTo - old(count))
    {
      hide Buffered;
      while count < upTo
        invariant Buffered() && nblocks == old(nblocks)
        invariant old(count) <= count <= upTo
        invariant seen == old(seen) + Zeros(count - old(count))
      {
        Put(0);
        assert Zeros(count - old(count)) == Zeros(count - old(count) - 1) + [0];
      }
    }

    /** Zeros up to the length field of the block being filled. */
    method PadShort() returns (ghost done: seq<byte>)
      requires Buffered() && count <= 56
      modifies this, buf
      ensures |done| % 64 == 0 && Chaining() == Fips.Fold(Fips.IV, done)
      ensures done + buf[..56] == old(seen) + Zeros(56 - old(count))
    {
      hide Buffered;
      PutZeros(56);
      Parts();
      done := seen[..64 * nblocks];
    }

    /** Zeros to the end of the block, and an all-zero block before the length field. */
    method PadSpill() returns (ghost done: seq<byte>)
      requires Buffered() && count <= 64
      modifies this, buf
      ensures |done| % 64 == 0 && Chaining() == Fips.Fold(Fips.IV, done)
      ensures done + buf[..56] == old(seen) + Zeros(64 - old(count)) + Zeros(56)
    {
      hide Buffered;
      PutZeros(64);
      Flush();
      Parts();
      done := seen;
      assert done == seen[..64 * nblocks];
      ClearHead();
    }

    /**
     The 0x80 byte and the zeros. Afterwards the registers cover `done`, and the buffer
     lacks only the length field.
     */
    method PadBuffer() returns (ghost done: seq<byte>)
      requires Valid() && ready
      modifies this, buf
      ensures |done| % 64 == 0 && Chaining() == Fips.Fold(Fips.IV, done)
      ensures done + buf[..56] == old(seen) + [0x80] + Zeros(PadZeros(|old(seen)|))
    {
      hide Buffered;
      Parts();
      ghost var msg := seen;
      assert count == |msg| % 64;
      Put(0x80);
      if count < 56 {
        done := PadShort();
      } else {
        done := PadSpill();
        SpilledZeros(|msg|);
        ConcatAssociative(msg + [0x80], Zeros(63 - |msg| % 64), Zeros(56));
      }
    }

    /** `memset(_buf, 0, 56)`. */
    method ClearHead()
      requires buf.Length == 64
      modifies buf
      ensures buf[..56] == Zeros(56)
    {
      forall i | 0 <= i < 56 {
        buf[i] := 0;
      }
    }

    /** Stores the two words of the bit count in the last eight bytes. */
    method StoreLength(msb: nat, lsb: nat)
      requires buf.Length == 64
      modifies buf
      ensures buf[..] == old(buf[..56]) + (Be32(msb) + Be32(lsb))
    {
      hide ToByte;
      buf[56] := ToByte(msb / 0x100_0000);
      buf[57] := ToByte(msb / 0x1_0000);
      buf[58] := ToByte(msb / 0x100);
      buf[59] := ToByte(msb);
      buf[60] := ToByte(lsb / 0x100_0000);
      buf[61] := ToByte(lsb / 0x1_0000);
      buf[62] := ToByte(lsb / 0x100);
      buf[63] := ToByte(lsb);
    }

    /** The chaining value, most significant byte first. */
    method StoreDigest()
      requires buf.Length == 64
      modifies buf
      ensures buf[..20] == Fips.RegsBytes(Chaining())
    {
      StoreWord(h0, 0);
      StoreWord(h1, 4);
      assert buf[..8] == buf[..4] + buf[4..8];
      StoreWord(h2, 8);
      assert buf[..12] == buf[..8] + buf[8..12];
      StoreWord(h3, 12);
      assert buf[..16] == buf[..12] + buf[12..16];
      StoreWord(h4, 16);
      assert buf[..20] == buf[..16] + buf[16..20];
    }

    /** The macro `X`: a chaining variable as four bytes. */
    method StoreWord(h: bv64, at: nat)
      requires at + 4 <= buf.Length
      modifies buf
      ensures buf[..at] == old(buf[..at])
      ensures buf[at..at + 4] == Fips.WordBytes(Low(h))
    {
      var s := LongBytes(h);
      buf[at] := s[0];
      buf[at + 1] := s[1];
      buf[at + 2] := s[2];
      buf[at + 3] := s[3];
    }

    /**
     The digest of everything processed, left in the first twenty bytes of the buffer;
     a second call without a reset returns the buffer as it is.
     */
    method Hash() returns (digest: seq<byte>)
      requires Valid()
      modifies this, buf
      ensures Valid() && !ready
      ensures digest == buf[..20]
      ensures if old(ready) then digest == Digest(old(seen)) else buf[..] == old(buf[..])
    {
      if !ready {
        return buf[..hashlen / 8];
      }
      hide Buffered, Pad;
      Flush();
      Parts();
      ghost var msg := seen;
      assert nblocks == |msg| / 64 && count == |msg| % 64;
      var msb, lsb := CountBits();
      ghost var done := PadBuffer();
      StoreLength(msb, lsb);
      PadIs(msg, done, buf[..]);
      FoldAppend(done, buf[..]);
      Transform(buf[..]);
      StoreDigest();
      ready := false;
      digest := buf[..hashlen / 8];
    }
  }

  function Concat(pieces: seq<seq<byte>>): (m: seq<byte>) {
    if pieces == [] then [] else Concat(pieces[..|pieces| - 1]) + pieces[|pieces| - 1]
  }

  /** Streaming is chunking-independent: any split of a message has the digest of the whole. */
  method DigestOfPieces(pieces: seq<seq<byte>>) returns (digest: seq<byte>)
    ensures digest == Digest(Concat(pieces))
  {
    var sha := new SHA1();
    for i := 0 to |pieces|
      invariant sha.Valid() && sha.ready
      invariant sha.seen == Concat(pieces[..i])
    {
      var cnt := sha.Process(pieces[i]);
      assert pieces[..i + 1][..i] == pieces[..i];
    }
    assert pieces[..|pieces|] == pieces;
    digest := sha.Hash();
  }
}
