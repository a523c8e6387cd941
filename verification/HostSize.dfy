/** A `size_t` as a 64-bit little-endian host stores it, and sizes in front of what they count. */
module HostSize {
  import opened Bytes

  const WIDTH: nat := 8

  function Power256(k: nat): nat {
    if k == 0 then 1 else 256 * Power256(k - 1)
  }

  /** The `k` lowest bytes of a number, least significant first. */
  function Le(n: nat, k: nat): (s: seq<byte>)
    ensures |s| == k
    decreases k
  {
    if k == 0 then [] else [ToByte(n)] + Le(n / 256, k - 1)
  }

  function FromLe(s: seq<byte>): nat
    decreases |s|
  {
    if s == [] then 0 else s[0] as int + 256 * FromLe(s[1..])
  }

  lemma {:induction false} LeRoundTrip(n: nat, k: nat)
    requires n < Power256(k)
    ensures FromLe(Le(n, k)) == n
    decreases k
  {
    if k == 0 {
    } else {
      LeRoundTrip(n / 256, k - 1);
      assert Le(n, k)[1..] == Le(n / 256, k - 1);
    }
  }

  lemma {:induction false} FromLeRoundTrip(s: seq<byte>)
    ensures FromLe(s) < Power256(|s|)
    ensures Le(FromLe(s), |s|) == s
    decreases |s|
  {
    if s == [] {
    } else {
      var q := FromLe(s[1..]);
      FromLeRoundTrip(s[1..]);
      DivMod(FromLe(s), 256, q, s[0] as int);
      SameByte(ToByte(FromLe(s)), s[0]);
    }
  }

  function PutSize(n: nat): (s: seq<byte>)
    ensures |s| == WIDTH
  {
    Le(n, WIDTH)
  }

  predicate Fits(n: nat) {
    n < 0x1_0000_0000_0000_0000
  }

  lemma FitsWidth(n: nat)
    ensures Fits(n) <==> n < Power256(WIDTH)
  {
    assert Power256(4) == 0x1_0000_0000;
    assert Power256(8) == 0x1_0000_0000_0000_0000;
  }

  datatype Parsed<+T> = Short | Parsed(value: T, rest: seq<byte>)

  function GetSize(s: seq<byte>): Parsed<nat> {
    if |s| < WIDTH then Short else Parsed(FromLe(s[..WIDTH]), s[WIDTH..])
  }

  /** Bytes behind their number. */
  function Framed(p: seq<byte>): seq<byte> {
    PutSize(|p|) + p
  }

  function GetFramed(s: seq<byte>): (r: Parsed<seq<byte>>)
    ensures r.Parsed? ==> |r.rest| < |s|
  {
    match GetSize(s)
    case Short => Short
    case Parsed(n, rest) => if |rest| < n then Short else Parsed(rest[..n], rest[n..])
  }

  /** Reading a size undoes writing it, and only it. */
  lemma SizeInverse(s: seq<byte>, n: nat, t: seq<byte>)
    requires Fits(n)
    ensures GetSize(s) == Parsed(n, t) <==> s == PutSize(n) + t
  {
    FitsWidth(n);
    LeRoundTrip(n, WIDTH);
    if s == PutSize(n) + t {
      assert s[..WIDTH] == PutSize(n) && s[WIDTH..] == t;
    }
    if GetSize(s) == Parsed(n, t) {
      FromLeRoundTrip(s[..WIDTH]);
      assert s == s[..WIDTH] + s[WIDTH..];
    }
  }

  lemma SizeFits(s: seq<byte>)
    ensures GetSize(s).Parsed? ==> Fits(GetSize(s).value)
  {
    if |s| >= WIDTH {
      FromLeRoundTrip(s[..WIDTH]);
      FitsWidth(FromLe(s[..WIDTH]));
    }
  }

  /** Reading a frame undoes writing it, and only it. */
  lemma FrameInverse(s: seq<byte>, p: seq<byte>, t: seq<byte>)
    requires Fits(|p|)
    ensures GetFramed(s) == Parsed(p, t) <==> s == Framed(p) + t
  {
    hide PutSize;
    if s == Framed(p) + t {
      assert s == PutSize(|p|) + (p + t);
      SizeInverse(s, |p|, p + t);
    }
    if GetFramed(s) == Parsed(p, t) {
      var rest := GetSize(s).rest;
      SizeInverse(s, |p|, rest);
      assert rest == p + t;
      assert s == PutSize(|p|) + p + t;
    }
  }
}
