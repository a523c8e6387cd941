/** Bytes and 32-bit words, and the big-endian numbers the file formats are made of. */
module Bytes {
  type byte = bv8
  type word = bv32

  lemma NextByte(b: byte)
    requires b as int < 255
    ensures (b + 1) as int == b as int + 1
  {
  }

  /** The byte with a given value, found by counting. */
  function SmallByte(n: nat): (b: byte)
    requires n < 256
    ensures b as int == n
  {
    if n == 0 then 0
    else
      NextByte(SmallByte(n - 1));
      SmallByte(n - 1) + 1
  }

  /** `(unsigned char)n`: the low eight bits of `n`. */
  function ToByte(n: nat): (b: byte)
    ensures b as int == n % 256
  {
    SmallByte(n % 256)
  }

  lemma SameByte(x: byte, y: byte)
    requires x as int == y as int
    ensures x == y
  {
    assert x == (x as int) as byte;
  }

  /** A big-endian 32-bit word. */
  function BeWord(b0: byte, b1: byte, b2: byte, b3: byte): word {
    ((b0 as word) << 24) | ((b1 as word) << 16) | ((b2 as word) << 8) | (b3 as word)
  }

  /** Four bytes, most significant first. */
  function Be32(n: nat): (s: seq<byte>)
    ensures |s| == 4
  {
    [ToByte(n / 0x100_0000), ToByte(n / 0x1_0000), ToByte(n / 0x100), ToByte(n)]
  }

  function FromBe32(s: seq<byte>): (n: nat)
    requires |s| == 4
    ensures n < 0x1_0000_0000
  {
    (s[0] as int) * 0x100_0000 + (s[1] as int) * 0x1_0000 + (s[2] as int) * 0x100 + s[3] as int
  }

  lemma Base256Digits(n: nat)
    requires n < 0x1_0000_0000
    ensures n == (n / 0x100_0000 % 0x100) * 0x100_0000 + (n / 0x1_0000 % 0x100) * 0x1_0000
                 + (n / 0x100 % 0x100) * 0x100 + n % 0x100
  {
    var a := n / 0x100;
    var b := a / 0x100;
    DivMod(n, 0x1_0000, b, a % 0x100 * 0x100 + n % 0x100);
    DivMod(n, 0x100_0000, b / 0x100, b % 0x100 * 0x1_0000 + a % 0x100 * 0x100 + n % 0x100);
  }

  lemma Be32RoundTrip(n: nat)
    requires n < 0x1_0000_0000
    ensures FromBe32(Be32(n)) == n
  {
    Base256Digits(n);
  }

  lemma MulAtLeast(k: int, d: int)
    requires k >= 1 && d > 0
    ensures k * d >= d
  {
  }

  lemma QuotientUnique(q: int, r: int, a: int, b: int, d: int)
    requires 0 <= r < d && 0 <= b < d
    requires q * d + r == a * d + b
    ensures q == a && r == b
  {
    if q < a {
      MulAtLeast(a - q, d);
    } else if a < q {
      MulAtLeast(q - a, d);
    }
  }

  /** Quotient and remainder are determined by their defining equation. */
  lemma DivMod(n: int, d: int, q: int, r: int)
    requires 0 <= r < d && n == q * d + r
    ensures n / d == q && n % d == r
  {
    QuotientUnique(q, r, n / d, n % d, d);
  }

  lemma DigitsOf(n: nat, d0: nat, d1: nat, d2: nat, d3: nat)
    requires d0 < 256 && d1 < 256 && d2 < 256 && d3 < 256
    requires n == d0 * 0x100_0000 + d1 * 0x1_0000 + d2 * 0x100 + d3
    ensures n / 0x100_0000 == d0 && n / 0x1_0000 % 0x100 == d1 && n / 0x100 % 0x100 == d2 && n % 0x100 == d3
  {
    DivMod(n, 0x100_0000, d0, d1 * 0x1_0000 + d2 * 0x100 + d3);
    DivMod(n, 0x1_0000, d0 * 0x100 + d1, d2 * 0x100 + d3);
    DivMod(d0 * 0x100 + d1, 0x100, d0, d1);
    DivMod(n, 0x100, d0 * 0x1_0000 + d1 * 0x100 + d2, d3);
    DivMod(d0 * 0x1_0000 + d1 * 0x100 + d2, 0x100, d0 * 0x100 + d1, d2);
  }

  lemma FromBe32RoundTrip(s: seq<byte>)
    requires |s| == 4
    ensures Be32(FromBe32(s)) == s
  {
    hide Be32;
    DigitsOf(FromBe32(s), s[0] as int, s[1] as int, s[2] as int, s[3] as int);
    FourBytes(FromBe32(s), s);
  }

  lemma FourBytes(n: nat, s: seq<byte>)
    requires |s| == 4 && s[0] as int == n / 0x100_0000 && s[1] as int == n / 0x1_0000 % 0x100
    requires s[2] as int == n / 0x100 % 0x100 && s[3] as int == n % 0x100
    ensures Be32(n) == s
  {
    hide ToByte;
    DivMod(n / 0x100_0000, 0x100, 0, s[0] as int);
    SameByte(ToByte(n / 0x100_0000), s[0]);
    SameByte(ToByte(n / 0x1_0000), s[1]);
    SameByte(ToByte(n / 0x100), s[2]);
    SameByte(ToByte(n), s[3]);
  }

  lemma Be32Injective(m: nat, n: nat)
    requires m < 0x1_0000_0000 && n < 0x1_0000_0000
    requires Be32(m) == Be32(n)
    ensures m == n
  {
    Be32RoundTrip(m);
    Be32RoundTrip(n);
  }

  /** `n` zero bytes. */
  function Zeros(n: nat): (s: seq<byte>)
    ensures |s| == n
    ensures forall i :: 0 <= i < n ==> s[i] == 0
  {
    seq(n, _ => 0)
  }

  /** Bytewise exclusive or. */
  function Xor(a: seq<byte>, b: seq<byte>): (s: seq<byte>)
    requires |a| <= |b|
    ensures |s| == |a|
    ensures forall i :: 0 <= i < |a| ==> s[i] == a[i] ^ b[i]
  {
    seq(|a|, i requires 0 <= i < |a| => a[i] ^ b[i])
  }

  lemma XorCancels(x: byte, y: byte)
    ensures (x ^ y) ^ y == x
  {
  }

  lemma XorTwice(a: seq<byte>, b: seq<byte>)
    requires |a| <= |b|
    ensures Xor(Xor(a, b), b) == a
  {
    forall i | 0 <= i < |a|
      ensures Xor(Xor(a, b), b)[i] == a[i]
    {
      XorCancels(a[i], b[i]);
    }
  }
}
