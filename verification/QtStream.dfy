/**
 The parts of QDataStream the wallet uses: big-endian numbers, strings as UTF-16 with a byte
 count, byte arrays with a length. Reading past the end yields zero or an empty value and
 leaves the stream at its end.
 */
module QtStream {
  import opened Bytes

  /** A QString: UTF-16 code units. */
  type QString = seq<bv16>

  const NULL_MARK: nat := 0xffff_ffff

  datatype Read<+T> = Read(value: T, rest: seq<byte>)

  function PutU32(n: nat): (s: seq<byte>)
    ensures |s| == 4
  {
    Be32(n)
  }

  function GetU32(s: seq<byte>): (r: Read<nat>)
    ensures r.value < 0x1_0000_0000
    ensures |r.rest| <= |s|
    ensures s != [] ==> |r.rest| < |s|
  {
    if |s| < 4 then Read(0, []) else Read(FromBe32(s[..4]), s[4..])
  }

  /** A qint32 is written as its two's complement. */
  function PutI32(x: int): (s: seq<byte>)
    ensures |s| == 4
  {
    Be32(x % 0x1_0000_0000)
  }

  function GetI32(s: seq<byte>): (r: Read<int>)
    ensures |r.rest| <= |s|
  {
    var u := GetU32(s);
    Read(if u.value < 0x8000_0000 then u.value else u.value - 0x1_0000_0000, u.rest)
  }

  function PutBytes(b: seq<byte>): (s: seq<byte>)
    ensures |s| == 4 + |b|
  {
    PutU32(|b|) + b
  }

  function GetBytes(s: seq<byte>): (r: Read<seq<byte>>)
    ensures |r.rest| <= |s|
  {
    var n := GetU32(s);
    if n.value == NULL_MARK then Read([], n.rest)
    else if |n.rest| < n.value then Read([], [])
    else Read(n.rest[..n.value], n.rest[n.value..])
  }

  function Utf16(q: QString): (s: seq<byte>)
    ensures |s| == 2 * |q|
  {
    if q == [] then [] else [((q[0] >> 8) & 0xff) as byte, (q[0] & 0xff) as byte] + Utf16(q[1..])
  }

  function FromUtf16(s: seq<byte>): (q: QString)
    requires |s| % 2 == 0
    ensures |q| == |s| / 2
  {
    if s == [] then [] else [((s[0] as bv16) << 8) | (s[1] as bv16)] + FromUtf16(s[2..])
  }

  function PutString(q: QString): (s: seq<byte>)
    ensures |s| == 4 + 2 * |q|
  {
    PutU32(2 * |q|) + Utf16(q)
  }

  function GetString(s: seq<byte>): (r: Read<QString>)
    ensures |r.rest| <= |s|
    ensures s != [] ==> |r.rest| < |s|
  {
    var n := GetU32(s);
    if n.value == NULL_MARK || n.value % 2 == 1 then Read([], n.rest)
    else if |n.rest| < n.value then Read([], [])
    else Read(FromUtf16(n.rest[..n.value]), n.rest[n.value..])
  }

  // ----- Reading back what was written -----

  lemma U32RoundTrip(n: nat, rest: seq<byte>)
    requires n < 0x1_0000_0000
    ensures GetU32(PutU32(n) + rest) == Read(n, rest)
  {
    hide Be32, FromBe32;
    Be32RoundTrip(n);
    assert (PutU32(n) + rest)[..4] == PutU32(n);
  }

  lemma I32RoundTrip(x: int, rest: seq<byte>)
    requires -0x8000_0000 <= x < 0x8000_0000
    ensures GetI32(PutI32(x) + rest) == Read(x, rest)
  {
    hide GetU32, PutU32;
    DivMod(x, 0x1_0000_0000, if x < 0 then -1 else 0, if x < 0 then x + 0x1_0000_0000 else x);
    U32RoundTrip(x % 0x1_0000_0000, rest);
    PutU32Is(x % 0x1_0000_0000);
  }

  lemma PutU32Is(n: nat)
    ensures PutU32(n) == Be32(n)
  {
  }

  lemma BytesRoundTrip(b: seq<byte>, rest: seq<byte>)
    requires |b| < NULL_MARK
    ensures GetBytes(PutBytes(b) + rest) == Read(b, rest)
  {
    hide GetU32, PutU32;
    assert PutBytes(b) + rest == PutU32(|b|) + (b + rest);
    U32RoundTrip(|b|, b + rest);
  }

  /** Four bytes of ones are no length: nothing follows them. */
  lemma NullIsEmpty(rest: seq<byte>)
    ensures GetBytes([0xff, 0xff, 0xff, 0xff] + rest) == Read([], rest)
    ensures GetString([0xff, 0xff, 0xff, 0xff] + rest) == Read([], rest)
  {
    var s := [0xff, 0xff, 0xff, 0xff] + rest;
    assert s[..4] == [0xff, 0xff, 0xff, 0xff] && s[4..] == rest;
  }

  /** What is announced and not there is read as nothing, and the stream is at its end. */
  lemma CutIsEmpty(n: nat, cut: seq<byte>)
    requires |cut| < n < 0xffff_ffff
    ensures GetBytes(PutU32(n) + cut) == Read([], [])
    ensures n % 2 == 0 ==> GetString(PutU32(n) + cut) == Read([], [])
  {
    hide GetU32, PutU32;
    U32RoundTrip(n, cut);
  }

  lemma UnitRoundTrip(c: bv16)
    ensures (((((c >> 8) & 0xff) as byte) as bv16) << 8) | (((c & 0xff) as byte) as bv16) == c
  {
  }

  lemma {:induction false} Utf16RoundTrip(q: QString)
    ensures FromUtf16(Utf16(q)) == q
  {
    if q == [] {
    } else {
      UnitRoundTrip(q[0]);
      assert Utf16(q)[2..] == Utf16(q[1..]);
      Utf16RoundTrip(q[1..]);
    }
  }

  lemma StringRoundTrip(q: QString, rest: seq<byte>)
    requires 2 * |q| < NULL_MARK
    ensures GetString(PutString(q) + rest) == Read(q, rest)
  {
    hide GetU32, PutU32;
    assert PutString(q) + rest == PutU32(2 * |q|) + (Utf16(q) + rest);
    U32RoundTrip(2 * |q|, Utf16(q) + rest);
    Utf16RoundTrip(q);
    assert (Utf16(q) + rest)[..2 * |q|] == Utf16(q);
  }
}
