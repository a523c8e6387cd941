/**
 The text form of the secrets file's entities on values: decimal sizes and counted strings,
 written and read through C++ streams in the classic locale.
 */
module TextCodec {
  import opened Bytes
  import opened Options

  /** The largest `size_t`. */
  const SIZE_MAX: nat := 0xffff_ffff_ffff_ffff

  const SPACE: byte := 0x20
  const COLON: byte := 0x3a
  const PLUS: byte := 0x2b
  const MINUS: byte := 0x2d

  type Text = seq<byte>

  predicate IsSpace(c: byte) {
    var n := c as int;
    n == 0x20 || 9 <= n <= 13
  }

  predicate IsDigit(c: byte) {
    0x30 <= c as int <= 0x39
  }

  function DigitValue(c: byte): (n: nat)
    requires IsDigit(c)
    ensures n < 10
  {
    c as int - 0x30
  }

  function Digit(n: nat): (c: byte)
    requires n < 10
    ensures IsDigit(c) && DigitValue(c) == n
  {
    SmallByte(0x30 + n)
  }

  // ----- Writing -----

  function Decimal(n: nat): (s: Text)
    ensures s != [] && forall k :: 0 <= k < |s| ==> IsDigit(s[k])
  {
    if n < 10 then [Digit(n)] else Decimal(n / 10) + [Digit(n % 10)]
  }

  /** `os << ' ' << n` */
  function PrintSize(n: nat): Text {
    [SPACE] + Decimal(n)
  }

  /** `os << str`: a blank, the length, a colon and the bytes. */
  function PrintString(s: Text): Text {
    PrintSize(|s|) + [COLON] + s
  }

  function PrintStrings(entries: seq<Text>): Text
    decreases |entries|
  {
    if entries == [] then [] else PrintString(entries[0]) + PrintStrings(entries[1..])
  }

  /** What a directory of collections serializes to. */
  function PrintDirectory(entries: seq<Text>): Text {
    PrintSize(|entries|) + PrintStrings(entries)
  }

  // ----- Reading -----

  /** An input stream: what is left of it, and its `good()`. */
  datatype In = In(rest: Text, good: bool)

  datatype Got<T> = Got(value: T, after: In)

  function SkipSpace(s: Text): (r: Text)
    ensures |r| <= |s|
    decreases |s|
  {
    if s != [] && IsSpace(s[0]) then SkipSpace(s[1..]) else s
  }

  /** How many digits a text begins with. */
  function DigitRun(s: Text): (n: nat)
    ensures n <= |s|
    ensures forall k :: 0 <= k < n ==> IsDigit(s[k])
    ensures n < |s| ==> !IsDigit(s[n])
    decreases |s|
  {
    if s != [] && IsDigit(s[0]) then 1 + DigitRun(s[1..]) else 0
  }

  function Value(s: Text): nat
    requires forall k :: 0 <= k < |s| ==> IsDigit(s[k])
    decreases |s|
  {
    if s == [] then 0 else 10 * Value(s[..|s| - 1]) + DigitValue(s[|s| - 1])
  }

  function SkipSign(s: Text): Text {
    if s != [] && (s[0] == PLUS || s[0] == MINUS) then s[1..] else s
  }

  /**
   `is >> n`. A stream that is not good, or has nothing but blanks left, leaves `n` as it was;
   no digits give 0, too large a number the maximum, and a minus sign the negative modulo
   2^64. Reaching the end while reading digits leaves the stream not good.
   */
  function ReadNumber(i: In, before: nat): Got<nat> {
    if !i.good then Got(before, i)
    else
      var s := SkipSpace(i.rest);
      if s == [] then Got(before, In([], false)) else ParseNumber(s)
  }

  function ParseNumber(s: Text): Got<nat>
    requires s != []
  {
    var t := SkipSign(s);
    var k := DigitRun(t);
    var v := Value(t[..k]);
    Got(if k == 0 then 0
        else if v > SIZE_MAX then SIZE_MAX
        else if s[0] == MINUS then (SIZE_MAX + 1 - v) % (SIZE_MAX + 1)
        else v,
        In(t[k..], 0 < k < |t| && v <= SIZE_MAX))
  }

  /** `is >> c`, which skips blanks too. */
  function ReadChar(i: In): Got<byte> {
    var s := SkipSpace(i.rest);
    if !i.good || s == [] then Got(0, In(i.rest, false)) else Got(s[0], In(s[1..], true))
  }

  /**
   `is >> str`. Without the colon the string stays as it was and the stream stays good:
   the code asks whether the stream failed where it would have to say so. With too few bytes
   left the string keeps blanks behind those it got.
   */
  function ReadString(i: In, before: Text): Got<Text> {
    var len := ReadNumber(i, 0);
    var c := ReadChar(len.after);
    if !c.after.good then Got(before, c.after)
    else if c.value != COLON then Got(before, c.after)
    else if len.value <= |c.after.rest| then Got(c.after.rest[..len.value], In(c.after.rest[len.value..], true))
    else Got(c.after.rest + Spaces(len.value - |c.after.rest|), In([], false))
  }

  /** What a string is filled with before its bytes are read. */
  function Spaces(n: nat): (s: Text)
    ensures |s| == n
  {
    seq(n, _ => SPACE)
  }

  function ReadStrings(i: In, n: nat): Option<seq<Text>>
    decreases n
  {
    if n == 0 then Some([])
    else
      var e := ReadString(i, []);
      if !e.after.good then None
      else match ReadStrings(e.after, n - 1)
           case None => None
           case Some(more) => Some([e.value] + more)
  }

  /** What a directory deserializes from; `junk` is the count's value before it is read. */
  function ReadDirectory(i: In, junk: nat): Option<seq<Text>> {
    if !i.good then None
    else
      var n := ReadNumber(i, junk);
      ReadStrings(n.after, n.value)
  }

  // ----- Numbers -----

  /** The empty text or one beginning with something else than a digit. */
  predicate Stops(t: Text) {
    t == [] || !IsDigit(t[0])
  }

  lemma {:induction false} DigitRunOf(d: Text, t: Text)
    requires forall k :: 0 <= k < |d| ==> IsDigit(d[k])
    ensures DigitRun(d + t) == |d| + DigitRun(t)
    decreases |d|
  {
    if d == [] {
      assert d + t == t;
    } else {
      assert (d + t)[1..] == d[1..] + t;
      DigitRunOf(d[1..], t);
    }
  }

  lemma {:induction false} ValueOfDecimal(n: nat)
    ensures Value(Decimal(n)) == n
  {
    var s := Decimal(n);
    if n < 10 {
      assert s[..0] == [];
    } else {
      assert s[..|s| - 1] == Decimal(n / 10);
      ValueOfDecimal(n / 10);
    }
  }

  lemma Grouped(a: Text, b: Text, c: Text)
    ensures a + b + c == a + (b + c)
    ensures b != [] ==> (b + c)[0] == b[0]
  {
  }

  lemma SkipBlank(d: Text)
    requires d != [] && !IsSpace(d[0])
    ensures SkipSpace([SPACE] + d) == d
  {
    assert ([SPACE] + d)[1..] == d;
  }

  lemma ParsesRun(d: Text, t: Text)
    requires d != [] && forall k :: 0 <= k < |d| ==> IsDigit(d[k])
    requires Stops(t)
    ensures ParseNumber(d + t) ==
            Got(if Value(d) > SIZE_MAX then SIZE_MAX else Value(d), In(t, t != [] && Value(d) <= SIZE_MAX))
  {
    hide Value, DigitRun;
    DigitRunOf(d, t);
    assert SkipSign(d + t) == d + t by {
      assert (d + t)[0] == d[0];
    }
    assert DigitRun(t) == 0;
    assert (d + t)[..|d|] == d && (d + t)[|d|..] == t;
  }

  /** Digits are read up to what stops them. */
  lemma ReadsRun(d: Text, t: Text, before: nat)
    requires d != [] && forall k :: 0 <= k < |d| ==> IsDigit(d[k])
    requires Stops(t)
    ensures ReadNumber(In([SPACE] + d + t, true), before) ==
            Got(if Value(d) > SIZE_MAX then SIZE_MAX else Value(d), In(t, t != [] && Value(d) <= SIZE_MAX))
  {
    hide Value, ParseNumber, SkipSpace, Stops;
    Grouped([SPACE], d, t);
    SkipBlank(d + t);
    ParsesRun(d, t);
  }

  /** The number read is that of all the digits there are, with those of what follows. */
  lemma ReadsDigits(n: nat, t: Text, before: nat)
    ensures var all := Decimal(n) + t[..DigitRun(t)];
            && (forall k :: 0 <= k < |all| ==> IsDigit(all[k]))
            && ReadNumber(In(PrintSize(n) + t, true), before) ==
               Got(if Value(all) > SIZE_MAX then SIZE_MAX else Value(all),
                   In(t[DigitRun(t)..], DigitRun(t) < |t| && Value(all) <= SIZE_MAX))
  {
    hide ReadNumber, Value, DigitRun, Decimal;
    var k := DigitRun(t);
    assert PrintSize(n) + t == [SPACE] + (Decimal(n) + t[..k]) + t[k..];
    ReadsRun(Decimal(n) + t[..k], t[k..], before);
  }

  /** A number followed by something else than a digit is read back. */
  lemma NumberRoundTrip(n: nat, t: Text, before: nat)
    requires n <= SIZE_MAX && Stops(t)
    ensures ReadNumber(In(PrintSize(n) + t, true), before) == Got(n, In(t, t != []))
  {
    ReadsDigits(n, t, before);
    ValueOfDecimal(n);
    assert Decimal(n) + t[..0] == Decimal(n);
  }

  lemma {:induction false} ValueGrows(a: Text, b: Text)
    requires forall k :: 0 <= k < |a + b| ==> IsDigit((a + b)[k])
    requires forall k :: 0 <= k < |a| ==> IsDigit(a[k])
    ensures Value(a + b) >= Value(a)
    ensures b != [] && Value(a) > 0 ==> Value(a + b) > Value(a)
    decreases |b|
  {
    if b == [] {
      assert a + b == a;
    } else {
      var ab := a + b;
      assert ab[..|ab| - 1] == a + b[..|b| - 1];
      ValueGrows(a, b[..|b| - 1]);
    }
  }

  predicate AllZero(s: Text) {
    forall k :: 0 <= k < |s| ==> s[k] as int == 0x30
  }

  lemma {:induction false} ZeroValue(s: Text)
    requires forall k :: 0 <= k < |s| ==> IsDigit(s[k])
    ensures Value(s) == 0 <==> AllZero(s)
    decreases |s|
  {
    if s == [] {
    } else {
      ZeroValue(s[..|s| - 1]);
      assert forall k :: 0 <= k < |s| - 1 ==> s[..|s| - 1][k] == s[k];
    }
  }

  /**
   A number at the very end of a text runs into the random bytes behind it. It survives if they
   do not begin with a digit, or if it is zero and so are the digits.
   */
  ghost predicate Survives(n: nat, tail: Text) {
    Stops(tail) || (n == 0 && AllZero(tail[..DigitRun(tail)]))
  }

  /** Followed directly by any tail, a number is read back exactly if it survives. */
  lemma NumberBeforeTail(n: nat, t: Text, before: nat)
    requires n < SIZE_MAX
    ensures ReadNumber(In(PrintSize(n) + t, true), before).value == n <==> Survives(n, t)
  {
    hide ReadNumber, Value, DigitRun, Decimal;
    ReadsDigits(n, t, before);
    var d, e := Decimal(n), t[..DigitRun(t)];
    ValueOfDecimal(n);
    ValueGrows(d, e);
    ZeroValue(d + e);
    ZeroValue(d);
    if e == [] {
      assert d + e == d;
    }
    assert AllZero(d + e) <==> AllZero(d) && AllZero(e) by {
      assert forall k :: 0 <= k < |d| ==> (d + e)[k] == d[k];
      assert forall k :: 0 <= k < |e| ==> (d + e)[|d| + k] == e[k];
    }
  }

  // ----- Round trips -----

  /** A counted string is read back whatever bytes it holds and whatever follows. */
  lemma StringRoundTrip(s: Text, t: Text, before: Text)
    requires |s| <= SIZE_MAX
    ensures ReadString(In(PrintString(s) + t, true), before) == Got(s, In(t, true))
  {
    hide ReadNumber, PrintSize;
    var u := [COLON] + s + t;
    assert PrintString(s) + t == PrintSize(|s|) + u;
    NumberRoundTrip(|s|, u, 0);
    assert SkipSpace(u) == u;
    assert u[1..] == s + t;
    assert (s + t)[..|s|] == s && (s + t)[|s|..] == t;
  }

  lemma {:induction false} StringsRoundTrip(entries: seq<Text>, t: Text)
    requires forall k :: 0 <= k < |entries| ==> |entries[k]| <= SIZE_MAX
    ensures ReadStrings(In(PrintStrings(entries) + t, true), |entries|) == Some(entries)
    decreases |entries|
  {
    hide ReadString, PrintString;
    if entries == [] {
    } else {
      assert [entries[0]] + entries[1..] == entries;
      var u := PrintStrings(entries[1..]) + t;
      assert PrintStrings(entries) + t == PrintString(entries[0]) + u;
      StringRoundTrip(entries[0], u, []);
      StringsRoundTrip(entries[1..], t);
    }
  }

  /** A directory that is not empty is read back, whatever tail the buffer adds. */
  lemma DirectoryRoundTrip(entries: seq<Text>, tail: Text, junk: nat)
    requires entries != [] && |entries| <= SIZE_MAX
    requires forall k :: 0 <= k < |entries| ==> |entries[k]| <= SIZE_MAX
    ensures ReadDirectory(In(PrintDirectory(entries) + tail, true), junk) == Some(entries)
  {
    hide ReadNumber, ReadStrings;
    var u := PrintStrings(entries) + tail;
    assert PrintDirectory(entries) + tail == PrintSize(|entries|) + u;
    assert u[0] == SPACE by {
      assert PrintStrings(entries)[0] == SPACE;
    }
    NumberRoundTrip(|entries|, u, junk);
    StringsRoundTrip(entries, tail);
  }

  lemma SomeStrings(i: In, n: nat)
    ensures ReadStrings(i, n).Some? ==> |ReadStrings(i, n).value| == n
    decreases n
  {
    if n == 0 {
    } else {
      var e := ReadString(i, []);
      if e.after.good {
        SomeStrings(e.after, n - 1);
      }
    }
  }

  /** The empty one is read back exactly if its length survives its tail. */
  lemma EmptyDirectoryRoundTrip(tail: Text, junk: nat)
    ensures ReadDirectory(In(PrintDirectory([]) + tail, true), junk) == Some([]) <==> Survives(0, tail)
  {
    hide ReadNumber, ReadString;
    assert PrintDirectory([]) + tail == PrintSize(0) + tail;
    NumberBeforeTail(0, tail, junk);
    var n := ReadNumber(In(PrintSize(0) + tail, true), junk);
    SomeStrings(n.after, n.value);
  }

  /** Blanks, tabs, line ends, vertical tabs and form feeds are skipped, and nothing else is. */
  lemma {:induction false} BlanksSkipped(s: Text, t: Text)
    requires forall k :: 0 <= k < |s| ==> s[k] in [0x09, 0x0a, 0x0b, 0x0c, 0x0d, 0x20]
    requires t == [] || t[0] !in [0x09, 0x0a, 0x0b, 0x0c, 0x0d, 0x20]
    ensures SkipSpace(s + t) == t
    decreases |s|
  {
    if s == [] {
      assert s + t == t;
      if t != [] {
        IsSpaceIff(t[0]);
      }
    } else {
      IsSpaceIff(s[0]);
      assert (s + t)[1..] == s[1..] + t;
      BlanksSkipped(s[1..], t);
    }
  }

  lemma IsSpaceIff(c: byte)
    ensures IsSpace(c) <==> c in [0x09, 0x0a, 0x0b, 0x0c, 0x0d, 0x20]
  {
    var n := c as int;
    assert c == n as byte;
    if IsSpace(c) {
      assert n == 9 || n == 10 || n == 11 || n == 12 || n == 13 || n == 32;
    }
  }

  /** Where only blanks are left, a number stays as it was, and the stream fails. */
  lemma {:induction false} NothingToRead(s: Text, before: nat)
    requires forall k :: 0 <= k < |s| ==> IsSpace(s[k])
    ensures ReadNumber(In(s, true), before) == Got(before, In([], false))
    decreases |s|
  {
    if s == [] {
    } else {
      NothingToRead(s[1..], before);
    }
  }

  /** An empty directory is what no text at all reads as, if the count happens to be zero before. */
  lemma NoTextDirectory(junk: nat)
    ensures ReadDirectory(In([], true), junk) == if junk == 0 then Some([]) else None
  {
    hide ReadNumber;
    NothingToRead([], junk);
    NothingToRead([], 0);
    FailedStays(In([], false), 0);
  }

  lemma FailedStays(i: In, before: nat)
    requires !i.good
    ensures ReadNumber(i, before) == Got(before, i) && !ReadString(i, []).after.good
  {
  }

  /** An empty directory whose tail begins with a 1 and then no digit, sign or blank cannot be read. */
  lemma UnluckyTail(c: byte, more: Text, junk: nat)
    requires !IsDigit(c) && !IsSpace(c) && c != PLUS && c != MINUS
    ensures ReadDirectory(In(PrintDirectory([]) + ([Digit(1), c] + more), true), junk) == None
  {
    hide ReadNumber, DigitRun, Value;
    var t := [c] + more;
    var tail := [Digit(1), c] + more;
    assert tail == [Digit(1)] + t;
    assert Decimal(0) == [Digit(0)];
    var d := [Digit(0), Digit(1)];
    assert PrintDirectory([]) + tail == [SPACE] + d + t;
    assert d[..1] == [Digit(0)] && d[..1][..0] == [];
    ReadsRun(d, t, junk);
    ValueOfOne();
    NoNumber(c, more);
    assert ReadStrings(In(t, true), 1) == None;
  }

  lemma ValueOfOne()
    ensures Value([Digit(0), Digit(1)]) == 1
  {
    var d := [Digit(0), Digit(1)];
    assert d[..1] == [Digit(0)];
    assert [Digit(0)][..0] == [];
    assert Value([Digit(0)]) == 0;
  }

  lemma NoNumber(c: byte, more: Text)
    requires !IsDigit(c) && !IsSpace(c) && c != PLUS && c != MINUS
    ensures !ReadNumber(In([c] + more, true), 0).after.good
  {
    var t := [c] + more;
    assert SkipSpace(t) == t && SkipSign(t) == t;
  }

  /** A number behind a plus sign is read as it is, and behind a minus sign as its negative modulo 2^64. */
  lemma SignedNumber(sign: byte, n: nat, t: Text, before: nat)
    requires sign == 0x2b || sign == 0x2d
    requires 0 < n <= SIZE_MAX && t != [] && !IsDigit(t[0])
    ensures ReadNumber(In([0x20, sign] + Decimal(n) + t, true), before) ==
            Got(if sign == 0x2d then 0x1_0000_0000_0000_0000 - n else n, In(t, true))
  {
    hide Value, DigitRun, Decimal;
    var d := Decimal(n);
    var s := [sign] + (d + t);
    Grouped([0x20, sign], d, t);
    assert [0x20, sign] + (d + t) == [SPACE] + s;
    SkipBlank(s);
    assert SkipSign(s) == d + t;
    DigitRunOf(d, t);
    assert DigitRun(t) == 0;
    assert (d + t)[..|d|] == d && (d + t)[|d|..] == t;
    ValueOfDecimal(n);
  }

  /** A string that ends too early keeps blanks behind what there was of it, and the stream fails. */
  lemma CutString(n: nat, s: Text, before: Text)
    requires |s| < n <= SIZE_MAX
    ensures var r := ReadString(In(PrintSize(n) + [COLON] + s, true), before);
      && !r.after.good && |r.value| == n && s <= r.value && forall k :: |s| <= k < n ==> r.value[k] == 0x20
  {
    hide ReadNumber, PrintSize;
    var u := [COLON] + s;
    assert PrintSize(n) + [COLON] + s == PrintSize(n) + u;
    NumberRoundTrip(n, u, 0);
    assert SkipSpace(u) == u && u[1..] == s;
  }

  /** A wrong separator goes unnoticed: whatever the length said, nothing but it is taken, and the stream stays good. */
  lemma WrongSeparatorIsAccepted(n: nat, t: Text, c: byte, before: Text)
    requires n <= SIZE_MAX && c != COLON && !IsSpace(c) && !IsDigit(c)
    ensures ReadString(In(PrintSize(n) + [c] + t, true), before) == Got(before, In(t, true))
  {
    hide ReadNumber, PrintSize;
    assert PrintSize(n) + [c] + t == PrintSize(n) + ([c] + t);
    NumberRoundTrip(n, [c] + t, 0);
    assert ([c] + t)[1..] == t;
  }

  // ----- Collections -----

  function PrintCollection(name: Text, count: nat): Text {
    PrintString(name) + PrintSize(count)
  }

  datatype Named = Named(name: Text, count: nat)

  /** The name and the number of items; neither is checked. */
  function ReadCollection(i: In, before: Named): Named {
    var name := ReadString(i, before.name);
    var count := ReadNumber(name.after, before.count);
    Named(name.value, count.value)
  }

  /** The name is always read back; the count, with the tail right behind it, not always. */
  lemma CollectionRoundTrip(name: Text, count: nat, tail: Text, before: Named)
    requires |name| <= SIZE_MAX && count < SIZE_MAX
    ensures var r := ReadCollection(In(PrintCollection(name, count) + tail, true), before);
            && r.name == name
            && (r.count == count <==> Survives(count, tail))
  {
    hide ReadString, PrintString, ReadNumber, PrintSize;
    var u := PrintSize(count) + tail;
    assert PrintCollection(name, count) + tail == PrintString(name) + u;
    StringRoundTrip(name, u, before.name);
    NumberBeforeTail(count, tail, before.count);
  }
}
