/** What the operations on 32-bit words compute, in numbers. */
module Words {
  import opened Bytes

  const M32 := 0x1_0000_0000

  /** The number a word stands for. Proofs about numbers need not look at its bits. */
  function Num(x: word): (n: nat)
    ensures n < M32
  {
    x as int
  }

  lemma SameWord(x: word, y: word)
    requires Num(x) == Num(y)
    ensures x == y
  {
    assert x == (x as int) as word;
  }

  // ----- Sums -----

  function Add(a: word, b: word): word { a + b }

  /** The sum with its carry, and its two parts. */
  function Wide(a: word, b: word): bv33 { (a as bv33) + (b as bv33) }

  function WideNum(s: bv33): nat { s as int }

  function Carry(s: bv33): nat { (s >> 32) as int }

  function Kept(s: bv33): bv33 { s & 0xffff_ffff }

  lemma WideSumBits(a: word, b: word)
    ensures ((a as bv33) + (b as bv33)) as int == a as int + b as int
  {
  }

  lemma WideSum(a: word, b: word)
    ensures WideNum(Wide(a, b)) == Num(a) + Num(b)
  {
    WideSumBits(a, b);
  }

  lemma WideSplitBits(s: bv33)
    ensures s as int == (s >> 32) as int * 0x1_0000_0000 + (s & 0xffff_ffff) as int
  {
  }

  lemma WideSplit(s: bv33)
    ensures WideNum(s) == Carry(s) * 0x1_0000_0000 + WideNum(Kept(s))
  {
    WideSplitBits(s);
  }

  lemma KeptBits(a: word, b: word)
    ensures (((a as bv33) + (b as bv33)) & 0xffff_ffff) as int == (a + b) as int
  {
    assert ((a as bv33) + (b as bv33)) & 0xffff_ffff == (a + b) as bv33;
  }

  lemma KeptIs(a: word, b: word)
    ensures WideNum(Kept(Wide(a, b))) == Num(Add(a, b))
  {
    KeptBits(a, b);
  }

  /** Addition of words is addition modulo 2^32. */
  lemma AddIs(a: word, b: word)
    ensures Num(Add(a, b)) == (Num(a) + Num(b)) % M32
  {
    hide Add, Wide, WideNum, Carry, Kept, Num;
    WideSum(a, b);
    WideSplit(Wide(a, b));
    KeptIs(a, b);
    DivMod(Num(a) + Num(b), M32, Carry(Wide(a, b)), Num(Add(a, b)));
  }

  // ----- Bytes -----

  lemma JoinedBytes(b0: byte, b1: byte, b2: byte, b3: byte)
    ensures (((b0 as word) << 24) | ((b1 as word) << 16) | ((b2 as word) << 8) | (b3 as word)) as int
         == (b0 as int) * 0x100_0000 + (b1 as int) * 0x1_0000 + (b2 as int) * 0x100 + b3 as int
  {
  }

  /** The number that four bytes make, most significant first. */
  lemma BeWordIs(b0: byte, b1: byte, b2: byte, b3: byte)
    ensures Num(BeWord(b0, b1, b2, b3)) == FromBe32([b0, b1, b2, b3])
  {
    JoinedBytes(b0, b1, b2, b3);
  }

  /** The word that stands for a number modulo 2^32. */
  function Mod32(n: nat): (w: word)
    ensures Num(w) == n % M32
  {
    var b := Be32(n % M32);
    Be32RoundTrip(n % M32);
    BeWordIs(b[0], b[1], b[2], b[3]);
    assert b == [b[0], b[1], b[2], b[3]];
    BeWord(b[0], b[1], b[2], b[3])
  }

  /** The number that four bytes make, least significant first. */
  function Little(s: seq<byte>): (n: nat)
    requires |s| == 4
  {
    s[0] as int + (s[1] as int) * 0x100 + (s[2] as int) * 0x1_0000 + (s[3] as int) * 0x100_0000
  }

  /** Byte `k` of a word, the highest first, by shifting and masking. */
  function ByteAt(x: word, k: nat): byte
    requires k < 4
  {
    if k == 0 then ((x >> 24) & 0xff) as byte
    else if k == 1 then ((x >> 16) & 0xff) as byte
    else if k == 2 then ((x >> 8) & 0xff) as byte
    else (x & 0xff) as byte
  }

  lemma SplitInBytes(x: word)
    ensures x == BeWord(ByteAt(x, 0), ByteAt(x, 1), ByteAt(x, 2), ByteAt(x, 3))
  {
  }

  function ByteNum(x: word, k: nat): (n: nat)
    requires k < 4
    ensures n < 256
  {
    ByteAt(x, k) as int
  }

  lemma BytesMake(x: word)
    ensures Num(x) == ByteNum(x, 0) * 0x100_0000 + ByteNum(x, 1) * 0x1_0000 + ByteNum(x, 2) * 0x100 + ByteNum(x, 3)
  {
    hide BeWord, ByteAt, Num;
    SplitInBytes(x);
    BeWordIs(ByteAt(x, 0), ByteAt(x, 1), ByteAt(x, 2), ByteAt(x, 3));
  }

  /** The four bytes of a word are its digits to the base 256. */
  lemma BytesOfWord(x: word)
    ensures ByteNum(x, 0) == Num(x) / 0x100_0000
    ensures ByteNum(x, 1) == Num(x) / 0x1_0000 % 0x100
    ensures ByteNum(x, 2) == Num(x) / 0x100 % 0x100
    ensures ByteNum(x, 3) == Num(x) % 0x100
  {
    hide ByteNum, Num;
    BytesMake(x);
    DigitsOf(Num(x), ByteNum(x, 0), ByteNum(x, 1), ByteNum(x, 2), ByteNum(x, 3));
  }

  // ----- Rotations, by shifts -----

  /** `rol(x, 1)` */
  function Rol1(x: word): word { (x << 1) | (x >> 31) }

  function Top1(x: word): bv1 { (x >> 31) as bv1 }

  function Rest1(x: word): bv31 { (x & 0x7fff_ffff) as bv31 }

  /** `rol(x, 5)` */
  function Rol5(x: word): word { (x << 5) | (x >> 27) }

  function Top5(x: word): bv5 { (x >> 27) as bv5 }

  function Rest5(x: word): bv27 { (x & 0x7ff_ffff) as bv27 }

  /** `rol(x, 30)` */
  function Rol30(x: word): word { (x << 30) | (x >> 2) }

  function Top30(x: word): bv30 { (x >> 2) as bv30 }

  function Rest30(x: word): bv2 { (x & 3) as bv2 }

  lemma Join1(top: bv1, rest: bv31)
    ensures (((top as word) << 31) | (rest as word)) as int == top as int * 0x8000_0000 + rest as int
  {
  }

  lemma JoinRolled1(top: bv1, rest: bv31)
    ensures (((rest as word) << 1) | (top as word)) as int == rest as int * 2 + top as int
  {
  }

  lemma Parts1(x: word)
    ensures x == ((Top1(x) as word) << 31) | (Rest1(x) as word)
    ensures Rol1(x) == ((Rest1(x) as word) << 1) | (Top1(x) as word)
  {
  }

  lemma Rol1Is(x: word)
    ensures Num(Rol1(x)) == Num(x) * 2 % M32 + Num(x) / 0x8000_0000
  {
    Parts1(x);
    Join1(Top1(x), Rest1(x));
    JoinRolled1(Top1(x), Rest1(x));
    hide Rol1, Top1, Rest1;
    Exchanged(Num(x), Top1(x) as int, Rest1(x) as int, 0x8000_0000, 2);
  }

  lemma Join5(top: bv5, rest: bv27)
    ensures (((top as word) << 27) | (rest as word)) as int == top as int * 0x800_0000 + rest as int
  {
  }

  lemma JoinRolled5(top: bv5, rest: bv27)
    ensures (((rest as word) << 5) | (top as word)) as int == rest as int * 32 + top as int
  {
  }

  lemma Parts5(x: word)
    ensures x == ((Top5(x) as word) << 27) | (Rest5(x) as word)
    ensures Rol5(x) == ((Rest5(x) as word) << 5) | (Top5(x) as word)
  {
  }

  lemma Rol5Is(x: word)
    ensures Num(Rol5(x)) == Num(x) * 32 % M32 + Num(x) / 0x800_0000
  {
    Parts5(x);
    Join5(Top5(x), Rest5(x));
    JoinRolled5(Top5(x), Rest5(x));
    hide Rol5, Top5, Rest5;
    Exchanged(Num(x), Top5(x) as int, Rest5(x) as int, 0x800_0000, 32);
  }

  lemma Join30(top: bv30, rest: bv2)
    ensures (((top as word) << 2) | (rest as word)) as int == top as int * 4 + rest as int
  {
  }

  lemma JoinRolled30(top: bv30, rest: bv2)
    ensures (((rest as word) << 30) | (top as word)) as int == rest as int * 0x4000_0000 + top as int
  {
  }

  lemma Parts30(x: word)
    ensures x == ((Top30(x) as word) << 2) | (Rest30(x) as word)
    ensures Rol30(x) == ((Rest30(x) as word) << 30) | (Top30(x) as word)
  {
  }

  lemma Rol30Is(x: word)
    ensures Num(Rol30(x)) == Num(x) * 0x4000_0000 % M32 + Num(x) / 4
  {
    Parts30(x);
    Join30(Top30(x), Rest30(x));
    JoinRolled30(Top30(x), Rest30(x));
    hide Rol30, Top30, Rest30;
    Exchanged(Num(x), Top30(x) as int, Rest30(x) as int, 4, 0x4000_0000);
  }

  /** The two parts of a number exchanged. */
  lemma Exchanged(n: nat, hi: nat, lo: nat, d: nat, m: nat)
    requires d * m == M32 && n == hi * d + lo && lo < d && hi < m
    ensures n * m % M32 + n / d == lo * m + hi
  {
    DivMod(n, d, hi, lo);
    assert n * m == hi * M32 + lo * m;
    MulLess(lo, d, m);
    DivMod(n * m, M32, hi, lo * m);
  }

  lemma MulLess(a: nat, b: nat, m: nat)
    requires a < b && m > 0
    ensures a * m < b * m
  {
  }

  /** Rotating by `n` bits multiplies by 2^n modulo 2^32 and adds the `n` bits that came out at the top. */
  lemma RolIs(x: word)
    ensures Num(Rol1(x)) == Num(x) * 2 % M32 + Num(x) / 0x8000_0000
    ensures Num(Rol5(x)) == Num(x) * 32 % M32 + Num(x) / 0x800_0000
    ensures Num(Rol30(x)) == Num(x) * 0x4000_0000 % M32 + Num(x) / 4
  {
    hide Num, Rol1, Rol5, Rol30;
    Rol1Is(x);
    Rol5Is(x);
    Rol30Is(x);
  }
}
