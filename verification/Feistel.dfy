/**
 The block function of Blowfish on values: the sixteen-round network, its inverse, the key
 schedule as a sequence of encipherments, and blockwise encryption of byte strings.
 */
module Feistel {
  import opened Bytes
  import opened Words
  import Paper = BlowfishPaper

  datatype Halves = Halves(l: word, r: word)

  /** The P-array and the four S-boxes, box `j` at `256 * j`. */
  datatype Tables = Tables(P: seq<word>, S: seq<word>) {
    ghost predicate Valid() { |P| == 18 && |S| == 1024 }
  }

  function Byte3(x: word): (n: nat) ensures n < 256 { ((x >> 24) & 0xff) as byte as int }
  function Byte2(x: word): (n: nat) ensures n < 256 { ((x >> 16) & 0xff) as byte as int }
  function Byte1(x: word): (n: nat) ensures n < 256 { ((x >> 8) & 0xff) as byte as int }
  function Byte0(x: word): (n: nat) ensures n < 256 { (x & 0xff) as byte as int }

  function F(S: seq<word>, x: word): word
    requires |S| == 1024
  {
    Combine(S[Byte3(x)], S[256 + Byte2(x)], S[512 + Byte1(x)], S[768 + Byte0(x)])
  }

  function Combine(a: word, b: word, c: word, d: word): word { Add(Add(a, b) ^ c, d) }

  lemma ShiftedBytes(x: word)
    ensures Byte0(x >> 8) == Byte1(x)
    ensures Byte0((x >> 8) >> 8) == Byte2(x)
    ensures Byte0(((x >> 8) >> 8) >> 8) == Byte3(x)
  {
  }

  /** Exclusive or, by name, so that proofs about rounds need not look at bits. */
  function Mix(x: word, y: word): word { x ^ y }

  /** One round: mix in a subkey, then exchange. */
  function Round(S: seq<word>, k: word, h: Halves): Halves
    requires |S| == 1024
  {
    var x := Mix(h.l, k);
    Halves(Mix(h.r, F(S, x)), x)
  }

  /** The first `n` rounds of enciphering, with subkeys P[0], P[1], ... */
  function EncRounds(t: Tables, h: Halves, n: nat): Halves
    requires t.Valid() && n <= 16
  {
    if n == 0 then h else Round(t.S, t.P[n - 1], EncRounds(t, h, n - 1))
  }

  /** The first `n` rounds of deciphering, with subkeys P[17], P[16], ... */
  function DecRounds(t: Tables, h: Halves, n: nat): Halves
    requires t.Valid() && n <= 16
  {
    if n == 0 then h else Round(t.S, t.P[18 - n], DecRounds(t, h, n - 1))
  }

  /** The exchange is undone and the last two subkeys are mixed in. */
  function Whiten(h: Halves, kl: word, kr: word): Halves {
    Halves(Mix(h.r, kl), Mix(h.l, kr))
  }

  function Encipher(t: Tables, h: Halves): Halves
    requires t.Valid()
  {
    Whiten(EncRounds(t, h, 16), t.P[17], t.P[16])
  }

  function Decipher(t: Tables, h: Halves): Halves
    requires t.Valid()
  {
    Whiten(DecRounds(t, h, 16), t.P[0], t.P[1])
  }

  lemma MixTwice(x: word, y: word)
    ensures Mix(Mix(x, y), y) == x
  {
  }

  lemma MixSwapsBits(x: word, f: word, k: word)
    ensures Mix(x ^ f, k) == Mix(x ^ k, f)
  {
  }

  lemma MixSwaps(x: word, f: word, k: word)
    ensures Mix(Mix(x, f), k) == Mix(Mix(x, k), f)
  {
    MixSwapsBits(x, f, k);
  }

  lemma MixAround(x: word, f: word, k: word)
    ensures Mix(Mix(Mix(x, f), k), f) == Mix(x, k)
  {
    hide Mix;
    MixSwaps(x, f, k);
    MixTwice(Mix(x, k), f);
  }

  /** A deciphering round on a whitened round output gives the whitened round input. */
  lemma RoundUndone(S: seq<word>, h: Halves, k: word, kr: word, kl: word)
    requires |S| == 1024
    ensures Round(S, kl, Whiten(Round(S, k, h), kl, kr)) == Whiten(h, kr, k)
  {
    hide F, Mix;
    var x := Mix(h.l, k);
    MixTwice(x, kl);
    MixAround(h.r, F(S, x), kr);
  }

  /** After `n` rounds of deciphering, what is left is the whitened state after `16 - n` rounds. */
  lemma {:induction false} DecFollowsEnc(t: Tables, h: Halves, n: nat)
    requires t.Valid() && n <= 16
    ensures DecRounds(t, Encipher(t, h), n) == Whiten(EncRounds(t, h, 16 - n), t.P[17 - n], t.P[16 - n])
  {
    hide Round, Whiten;
    if n == 0 {
    } else {
      DecFollowsEnc(t, h, n - 1);
      RoundUndone(t.S, EncRounds(t, h, 16 - n), t.P[16 - n], t.P[17 - n], t.P[18 - n]);
    }
  }

  lemma WhitenTwice(h: Halves, kl: word, kr: word)
    ensures Whiten(Whiten(h, kl, kr), kr, kl) == h
  {
    hide Mix;
    MixTwice(h.r, kl);
    MixTwice(h.l, kr);
  }

  /** Deciphering undoes enciphering, whatever the tables hold. */
  lemma DecipherEncipher(t: Tables, h: Halves)
    requires t.Valid()
    ensures Decipher(t, Encipher(t, h)) == h
  {
    DecFollowsEnc(t, h, 16);
    WhitenTwice(h, t.P[1], t.P[0]);
  }

  function Reversed(P: seq<word>): (q: seq<word>)
    ensures |q| == |P|
  {
    seq(|P|, i requires 0 <= i < |P| => P[|P| - 1 - i])
  }

  lemma {:induction false} RoundsReversed(t: Tables, h: Halves, n: nat)
    requires t.Valid() && n <= 16
    ensures DecRounds(t, h, n) == EncRounds(t.(P := Reversed(t.P)), h, n)
    ensures EncRounds(t, h, n) == DecRounds(t.(P := Reversed(t.P)), h, n)
  {
    hide Round;
    if n == 0 {
    } else {
      RoundsReversed(t, h, n - 1);
    }
  }

  /** Enciphering undoes deciphering: the two are one network with the subkeys reversed. */
  lemma EncipherDecipher(t: Tables, h: Halves)
    requires t.Valid()
    ensures Encipher(t, Decipher(t, h)) == h
  {
    var u := t.(P := Reversed(t.P));
    RoundsReversed(t, h, 16);
    assert Decipher(t, h) == Encipher(u, h);
    RoundsReversed(t, Decipher(t, h), 16);
    DecipherEncipher(u, h);
  }

  // ----- The network is the published one -----

  lemma PlusIsAdd(a: word, b: word)
    ensures Paper.Plus(a, b) == Add(a, b)
  {
    hide Num, Add, Mod32;
    AddIs(a, b);
    SameWord(Paper.Plus(a, b), Add(a, b));
  }

  lemma QuartersOf(x: word)
    ensures Byte3(x) == Num(x) / 0x100_0000 && Byte2(x) == Num(x) / 0x1_0000 % 256
    ensures Byte1(x) == Num(x) / 0x100 % 256 && Byte0(x) == Num(x) % 256
  {
    BytesOfWord(x);
    QuartersAre(x);
    hide Byte0, Byte1, Byte2, Byte3, ByteNum, Num;
  }

  lemma QuartersAre(x: word)
    ensures Byte3(x) == ByteNum(x, 0) && Byte2(x) == ByteNum(x, 1) && Byte1(x) == ByteNum(x, 2) && Byte0(x) == ByteNum(x, 3)
  {
  }

  lemma CombineIs(a: word, b: word, c: word, d: word)
    ensures Combine(a, b, c, d) == Paper.Plus(Paper.Plus(a, b) ^ c, d)
  {
    hide Paper.Plus, Add;
    PlusIsAdd(a, b);
    PlusIsAdd(Add(a, b) ^ c, d);
  }

  lemma FIsPaper(S: seq<word>, x: word)
    requires |S| == 1024
    ensures F(S, x) == Paper.F(S, x)
  {
    hide Byte0, Byte1, Byte2, Byte3, Num, Combine, Paper.Plus;
    QuartersOf(x);
    CombineIs(S[Byte3(x)], S[256 + Byte2(x)], S[512 + Byte1(x)], S[768 + Byte0(x)]);
  }

  /** The rounds that are left after the first `n` lead where all of them do. */
  lemma {:induction false} RoundsLeft(t: Tables, h: Halves, n: nat)
    requires t.Valid() && n <= 16
    ensures var g := EncRounds(t, h, n); Paper.Rounds(t.P, t.S, g.l, g.r, n) == Paper.Rounds(t.P, t.S, h.l, h.r, 0)
  {
    hide F, Paper.F;
    if n == 0 {
    } else {
      RoundsLeft(t, h, n - 1);
      var g := EncRounds(t, h, n - 1);
      FIsPaper(t.S, Mix(g.l, t.P[n - 1]));
    }
  }

  /** Enciphering is the published encryption, for all tables and halves. */
  lemma EncipherIsPaper(t: Tables, h: Halves)
    requires t.Valid()
    ensures var c := Encipher(t, h); (c.l, c.r) == Paper.Encrypt(t.P, t.S, h.l, h.r)
  {
    hide EncRounds, Whiten, Paper.Rounds;
    RoundsLeft(t, h, 16);
    NoneLeft(t, EncRounds(t, h, 16));
  }

  lemma NoneLeft(t: Tables, g: Halves)
    requires t.Valid()
    ensures var c := Whiten(g, t.P[17], t.P[16]); (c.l, c.r) == Paper.Rounds(t.P, t.S, g.l, g.r, 16)
  {
  }

  /** Deciphering is the published decryption. */
  lemma DecipherIsPaper(t: Tables, h: Halves)
    requires t.Valid()
    ensures var p := Decipher(t, h); (p.l, p.r) == Paper.Decrypt(t.P, t.S, h.l, h.r)
  {
    hide EncRounds, DecRounds, Paper.Rounds;
    var u := t.(P := Reversed(t.P));
    RoundsReversed(t, h, 16);
    EncipherIsPaper(u, h);
    assert Reversed(t.P) == seq(18, i requires 0 <= i < 18 => t.P[17 - i]);
  }

  // ----- Byte buffers -----

  /** A 32-bit load on a little-endian machine. */
  function LeWord(b0: byte, b1: byte, b2: byte, b3: byte): word {
    (b0 as word) | ((b1 as word) << 8) | ((b2 as word) << 16) | ((b3 as word) << 24)
  }

  function LeBytes(w: word): (s: seq<byte>)
    ensures |s| == 4
  {
    [(w & 0xff) as byte, ((w >> 8) & 0xff) as byte, ((w >> 16) & 0xff) as byte, ((w >> 24) & 0xff) as byte]
  }

  lemma LoadStored(w: word)
    ensures var s := LeBytes(w); LeWord(s[0], s[1], s[2], s[3]) == w
  {
  }

  lemma StoreLoaded(b0: byte, b1: byte, b2: byte, b3: byte)
    ensures LeBytes(LeWord(b0, b1, b2, b3)) == [b0, b1, b2, b3]
  {
  }

  function Load(s: seq<byte>): Halves
    requires |s| == 8
  {
    Halves(LeWord(s[0], s[1], s[2], s[3]), LeWord(s[4], s[5], s[6], s[7]))
  }

  function Store(h: Halves): (s: seq<byte>)
    ensures |s| == 8
  {
    LeBytes(h.l) + LeBytes(h.r)
  }

  lemma LoadStore(h: Halves)
    ensures Load(Store(h)) == h
  {
    hide LeBytes, LeWord;
    LoadStored(h.l);
    LoadStored(h.r);
  }

  lemma StoreLoad(s: seq<byte>)
    requires |s| == 8
    ensures Store(Load(s)) == s
  {
    hide LeBytes, LeWord;
    StoreLoaded(s[0], s[1], s[2], s[3]);
    StoreLoaded(s[4], s[5], s[6], s[7]);
  }

  /** Every 8-byte block of `s` enciphered on its own. */
  function EncryptBlocks(t: Tables, s: seq<byte>): (e: seq<byte>)
    requires t.Valid() && |s| % 8 == 0
    ensures |e| == |s|
  {
    if |s| == 0 then []
    else EncryptBlocks(t, s[..|s| - 8]) + Store(Encipher(t, Load(s[|s| - 8..])))
  }

  function DecryptBlocks(t: Tables, s: seq<byte>): (d: seq<byte>)
    requires t.Valid() && |s| % 8 == 0
    ensures |d| == |s|
  {
    if |s| == 0 then []
    else DecryptBlocks(t, s[..|s| - 8]) + Store(Decipher(t, Load(s[|s| - 8..])))
  }

  lemma {:induction false} DecryptEncrypt(t: Tables, s: seq<byte>)
    requires t.Valid() && |s| % 8 == 0
    ensures DecryptBlocks(t, EncryptBlocks(t, s)) == s
  {
    hide Encipher, Decipher, Load, Store;
    if |s| == 0 {
    } else {
      var e := EncryptBlocks(t, s);
      var b := Load(s[|s| - 8..]);
      assert e[..|s| - 8] == EncryptBlocks(t, s[..|s| - 8]);
      assert e[|s| - 8..] == Store(Encipher(t, b));
      DecryptEncrypt(t, s[..|s| - 8]);
      LoadStore(Encipher(t, b));
      DecipherEncipher(t, b);
      StoreLoad(s[|s| - 8..]);
    }
  }

  lemma {:induction false} EncryptDecrypt(t: Tables, s: seq<byte>)
    requires t.Valid() && |s| % 8 == 0
    ensures EncryptBlocks(t, DecryptBlocks(t, s)) == s
  {
    hide Encipher, Decipher, Load, Store;
    if |s| == 0 {
    } else {
      var e := DecryptBlocks(t, s);
      var b := Load(s[|s| - 8..]);
      assert e[..|s| - 8] == DecryptBlocks(t, s[..|s| - 8]);
      assert e[|s| - 8..] == Store(Decipher(t, b));
      EncryptDecrypt(t, s[..|s| - 8]);
      LoadStore(Decipher(t, b));
      EncipherDecipher(t, b);
      StoreLoad(s[|s| - 8..]);
    }
  }

  // ----- Buffers in terms of the published cipher -----

  lemma LeIsBe(b0: byte, b1: byte, b2: byte, b3: byte)
    ensures LeWord(b0, b1, b2, b3) == BeWord(b3, b2, b1, b0)
  {
  }

  lemma LeWordIs(s: seq<byte>)
    requires |s| == 4
    ensures Num(LeWord(s[0], s[1], s[2], s[3])) == Little(s) && LeWord(s[0], s[1], s[2], s[3]) == Mod32(Little(s))
  {
    hide LeWord, BeWord, Num, Mod32;
    LeIsBe(s[0], s[1], s[2], s[3]);
    BeWordIs(s[3], s[2], s[1], s[0]);
    DivMod(Little(s), M32, 0, Little(s));
    SameWord(LeWord(s[0], s[1], s[2], s[3]), Mod32(Little(s)));
  }

  lemma LeBytesAre(w: word)
    ensures Little(LeBytes(w)) == Num(w)
  {
    hide LeBytes, LeWord, Num, Little;
    LoadStored(w);
    LeWordIs(LeBytes(w));
  }

  lemma LoadIs(s: seq<byte>)
    requires |s| == 8
    ensures Load(s) == Halves(Mod32(Little(s[..4])), Mod32(Little(s[4..])))
  {
    hide LeWord, Little, Mod32;
    LeWordIs(s[..4]);
    LeWordIs(s[4..]);
  }

  lemma StoreIs(h: Halves)
    ensures Little(Store(h)[..4]) == Num(h.l) && Little(Store(h)[4..]) == Num(h.r)
  {
    hide LeBytes, Num, Little;
    LeBytesAre(h.l);
    LeBytesAre(h.r);
    assert Store(h)[..4] == LeBytes(h.l) && Store(h)[4..] == LeBytes(h.r);
  }

  /** Block `k` of a buffer of whole blocks. */
  function Nth(s: seq<byte>, k: nat): (b: seq<byte>)
    requires |s| % 8 == 0 && 8 * k < |s|
    ensures |b| == 8
  {
    s[8 * k..8 * k + 8]
  }

  lemma NthOf(a: seq<byte>, last: seq<byte>, k: nat)
    requires |a| % 8 == 0 && |last| == 8 && 8 * k <= |a|
    ensures Nth(a + last, k) == if 8 * k == |a| then last else Nth(a, k)
  {
  }

  lemma {:induction false} BlockAt(t: Tables, s: seq<byte>, k: nat)
    requires t.Valid() && |s| % 8 == 0 && 8 * k < |s|
    ensures Nth(EncryptBlocks(t, s), k) == Store(Encipher(t, Load(Nth(s, k))))
    ensures Nth(DecryptBlocks(t, s), k) == Store(Decipher(t, Load(Nth(s, k))))
  {
    hide Encipher, Decipher, Load, Store, Nth;
    var u, last := s[..|s| - 8], s[|s| - 8..];
    assert s == u + last;
    NthOf(u, last, k);
    NthOf(EncryptBlocks(t, u), Store(Encipher(t, Load(last))), k);
    NthOf(DecryptBlocks(t, u), Store(Decipher(t, Load(last))), k);
    if 8 * k == |u| {
    } else {
      BlockAt(t, u, k);
    }
  }

  /** The bytes `e` are those of the block `b`, two little-endian numbers, encrypted as published. */
  ghost predicate EncryptedBlock(t: Tables, b: seq<byte>, e: seq<byte>)
    requires t.Valid() && |b| == |e| == 8
  {
    var c := Paper.Encrypt(t.P, t.S, Mod32(Little(b[..4])), Mod32(Little(b[4..])));
    Little(e[..4]) == Num(c.0) && Little(e[4..]) == Num(c.1)
  }

  ghost predicate DecryptedBlock(t: Tables, b: seq<byte>, d: seq<byte>)
    requires t.Valid() && |b| == |d| == 8
  {
    var p := Paper.Decrypt(t.P, t.S, Mod32(Little(b[..4])), Mod32(Little(b[4..])));
    Little(d[..4]) == Num(p.0) && Little(d[4..]) == Num(p.1)
  }

  lemma BlockIsPaper(t: Tables, b: seq<byte>)
    requires t.Valid() && |b| == 8
    ensures EncryptedBlock(t, b, Store(Encipher(t, Load(b))))
    ensures DecryptedBlock(t, b, Store(Decipher(t, Load(b))))
  {
    hide Encipher, Decipher, Load, Store, Paper.Encrypt, Paper.Decrypt, Little, Mod32, Num;
    LoadIs(b);
    EncipherIsPaper(t, Load(b));
    DecipherIsPaper(t, Load(b));
    StoreIs(Encipher(t, Load(b)));
    StoreIs(Decipher(t, Load(b)));
  }

  /** Each block of a buffer is encrypted or decrypted as published, and on its own. */
  lemma BlocksArePaper(t: Tables, s: seq<byte>, k: nat)
    requires t.Valid() && |s| % 8 == 0 && 8 * k < |s|
    ensures EncryptedBlock(t, Nth(s, k), Nth(EncryptBlocks(t, s), k))
    ensures DecryptedBlock(t, Nth(s, k), Nth(DecryptBlocks(t, s), k))
  {
    hide EncryptBlocks, DecryptBlocks, Encipher, Decipher, Load, Store, EncryptedBlock, DecryptedBlock;
    BlockAt(t, s, k);
    BlockIsPaper(t, Nth(s, k));
  }

  // ----- Key schedule -----

  /** Subkey material `i`: four key bytes, wrapping around the key. */
  function KeyWord(key: seq<byte>, i: nat): word
    requires |key| > 0
  {
    var n := |key|;
    Append(Append(Append(Append(0, key[(4 * i) % n]), key[(4 * i + 1) % n]), key[(4 * i + 2) % n]), key[(4 * i + 3) % n])
  }

  /** `(data << 8) | b`. */
  function Append(data: word, b: byte): word { (data << 8) | (b as word) }

  /** The P-array with the key mixed in. */
  function KeyedP(P: seq<word>, key: seq<byte>): (q: seq<word>)
    requires |key| > 0
    ensures |q| == |P|
  {
    seq(|P|, i requires 0 <= i < |P| => Mix(P[i], KeyWord(key, i)))
  }

  /** A subkey word is the four key bytes, most significant first. */
  lemma KeyWordBytes(key: seq<byte>, i: nat)
    requires |key| > 0
    ensures var n := |key|;
      KeyWord(key, i) == BeWord(key[(4 * i) % n], key[(4 * i + 1) % n], key[(4 * i + 2) % n], key[(4 * i + 3) % n])
  {
    hide Append, BeWord;
    var n := |key|;
    AppendBytes(key[(4 * i) % n], key[(4 * i + 1) % n], key[(4 * i + 2) % n], key[(4 * i + 3) % n]);
  }

  lemma AppendBytes(a: byte, b: byte, c: byte, d: byte)
    ensures Append(Append(Append(Append(0, a), b), c), d) == BeWord(a, b, c, d)
  {
  }

  lemma IndexTwice(k: nat, n: nat)
    requires n > 0
    ensures k % (2 * n) % n == k % n
  {
    var q, r := k / (2 * n), k % (2 * n);
    assert k == (2 * q) * n + r;
    var p, s := r / n, r % n;
    assert k == (2 * q + p) * n + s;
    DivMod(k, n, 2 * q + p, s);
  }

  lemma KeyByteTwice(key: seq<byte>, k: nat)
    requires |key| > 0
    ensures (key + key)[k % (2 * |key|)] == key[k % |key|]
  {
    var n := |key|;
    var r := k % (2 * n);
    IndexTwice(k, n);
    if r < n {
      DivMod(r, n, 0, r);
    } else {
      DivMod(r, n, 1, r - n);
    }
  }

  /** A key written twice is the same key. */
  lemma RepeatedKey(t0: Tables, key: seq<byte>)
    requires t0.Valid() && |key| > 0
    ensures KeySchedule(t0, key + key) == KeySchedule(t0, key)
  {
    hide Append, Mix, Scheduled;
    forall i: nat
      ensures KeyWord(key + key, i) == KeyWord(key, i)
    {
      KeyByteTwice(key, 4 * i);
      KeyByteTwice(key, 4 * i + 1);
      KeyByteTwice(key, 4 * i + 2);
      KeyByteTwice(key, 4 * i + 3);
    }
    assert KeyedP(t0.P, key + key) == KeyedP(t0.P, key);
  }

  datatype Stage = Stage(t: Tables, h: Halves)

  /** Stores the halves as table entries `2 * n` and `2 * n + 1`, the P-array before the S-boxes. */
  function Place(t: Tables, n: nat, h: Halves): (u: Tables)
    requires t.Valid() && n < 521
    ensures u.Valid()
  {
    if n < 9 then t.(P := t.P[2 * n := h.l][2 * n + 1 := h.r])
    else t.(S := t.S[2 * (n - 9) := h.l][2 * (n - 9) + 1 := h.r])
  }

  /** The tables after `n` encipherments, each replacing the two entries that come next. */
  function Scheduled(t0: Tables, n: nat): (s: Stage)
    requires t0.Valid() && n <= 521
    ensures s.t.Valid()
  {
    if n == 0 then Stage(t0, Halves(0, 0))
    else
      var s := Scheduled(t0, n - 1);
      var h := Encipher(s.t, s.h);
      Stage(Place(s.t, n - 1, h), h)
  }

  /** The tables of a key, from the constant tables. */
  function KeySchedule(t0: Tables, key: seq<byte>): (t: Tables)
    requires t0.Valid() && |key| > 0
    ensures t.Valid()
  {
    Scheduled(t0.(P := KeyedP(t0.P, key)), 521).t
  }

  // ----- The schedule is the published one -----

  /** The P-array followed by the S-boxes: the order in which they are replaced. */
  function Flat(t: Tables): (f: seq<word>)
    requires t.Valid()
    ensures |f| == 1042 && f[..18] == t.P && f[18..] == t.S
  {
    t.P + t.S
  }

  lemma PlaceFlat(t: Tables, n: nat, h: Halves)
    requires t.Valid() && n < 521
    ensures Flat(Place(t, n, h)) == Flat(t)[2 * n := h.l][2 * n + 1 := h.r]
  {
  }

  /** What has been replaced stays, and what has not is as it was at first. */
  lemma {:induction false} ReplacedInOrder(t0: Tables, m: nat, n: nat)
    requires t0.Valid() && m <= n <= 521
    ensures Flat(Scheduled(t0, n).t)[..2 * m] == Flat(Scheduled(t0, m).t)[..2 * m]
    ensures Flat(Scheduled(t0, n).t)[2 * n..] == Flat(t0)[2 * n..]
    decreases n
  {
    hide Encipher, Flat, Place;
    if n == 0 {
    } else {
      var s := Scheduled(t0, n - 1);
      PlaceFlat(s.t, n - 1, Encipher(s.t, s.h));
      ReplacedInOrder(t0, if m < n then m else n - 1, n - 1);
      assert Flat(t0)[2 * n - 2..][2..] == Flat(t0)[2 * n..];
      assert Flat(s.t)[2 * n - 2..][2..] == Flat(s.t)[2 * n..];
    }
  }

  /** The halves of a stage are the two entries replaced last. */
  lemma LastReplaced(t0: Tables, n: nat)
    requires t0.Valid() && 0 < n <= 521
    ensures var s := Scheduled(t0, n); s.h == Halves(Flat(s.t)[2 * n - 2], Flat(s.t)[2 * n - 1])
  {
    hide Encipher, Flat, Place;
    var s := Scheduled(t0, n - 1);
    PlaceFlat(s.t, n - 1, Encipher(s.t, s.h));
  }

  /** The tables of stage `n`, in terms of those at first and in the end. */
  lemma StageTables(t0: Tables, n: nat)
    requires t0.Valid() && n <= 521
    ensures Flat(Scheduled(t0, n).t) == Flat(Scheduled(t0, 521).t)[..2 * n] + Flat(t0)[2 * n..]
  {
    hide Flat, Scheduled;
    ReplacedInOrder(t0, n, 521);
    ReplacedInOrder(t0, n, n);
    var f := Flat(Scheduled(t0, n).t);
    assert f == f[..2 * n] + f[2 * n..];
  }

  lemma NextStage(t0: Tables, n: nat)
    requires t0.Valid() && n < 521
    ensures Scheduled(t0, n + 1).h == Encipher(Scheduled(t0, n).t, Scheduled(t0, n).h)
    ensures n == 0 ==> Scheduled(t0, n).h == Halves(0, 0)
  {
    hide Encipher, Place;
  }

  /** The halves of a stage are in the tables of the end, in their place. */
  lemma StageEntries(t0: Tables, n: nat)
    requires t0.Valid() && 0 < n <= 521
    ensures var T := Flat(Scheduled(t0, 521).t); Scheduled(t0, n).h == Halves(T[2 * n - 2], T[2 * n - 1])
  {
    hide Flat, Scheduled;
    StageTables(t0, n);
    LastReplaced(t0, n);
  }

  lemma StageReplaced(t0: Tables, n: nat)
    requires t0.Valid() && n < 521
    ensures Paper.ReplacedAt(Flat(t0), Flat(Scheduled(t0, 521).t), n)
  {
    hide Encipher, Flat, Scheduled, Paper.Encrypt;
    var s := Scheduled(t0, n);
    NextStage(t0, n);
    StageTables(t0, n);
    if n > 0 {
      StageEntries(t0, n);
    }
    StageEntries(t0, n + 1);
    EncipherIsPaper(s.t, s.h);
  }

  lemma KeyWordIsPaper(key: seq<byte>, i: nat)
    requires |key| > 0
    ensures var n := |key|;
            KeyWord(key, i) ==
            Mod32(FromBe32([key[4 * i % n], key[(4 * i + 1) % n], key[(4 * i + 2) % n], key[(4 * i + 3) % n]]))
  {
    hide KeyWord, Mod32, Num, BeWord, FromBe32;
    var n := |key|;
    var b0, b1, b2, b3 := key[4 * i % n], key[(4 * i + 1) % n], key[(4 * i + 2) % n], key[(4 * i + 3) % n];
    KeyWordBytes(key, i);
    BeWordIs(b0, b1, b2, b3);
    DivMod(FromBe32([b0, b1, b2, b3]), M32, 0, FromBe32([b0, b1, b2, b3]));
    SameWord(KeyWord(key, i), Mod32(FromBe32([b0, b1, b2, b3])));
  }

  lemma KeyedIs(P: seq<word>, key: seq<byte>)
    requires |key| > 0
    ensures KeyedP(P, key) == Paper.Keyed(P, key)
  {
    hide KeyWord, Mod32, FromBe32;
    forall i | 0 <= i < |P| ensures KeyedP(P, key)[i] == Paper.Keyed(P, key)[i] {
      KeyWordIsPaper(key, i);
    }
  }

  /**
   The tables of a key are the published subkeys: from the constants with the key mixed into the
   P-array, all 1042 words are replaced, two at a time and in order, by encrypting the two before
   with what the subkeys then are.
   */
  lemma KeyScheduleIsPaper(t0: Tables, key: seq<byte>)
    requires t0.Valid() && |key| > 0
    ensures Paper.Replaced(Paper.Keyed(t0.P, key) + t0.S, KeySchedule(t0, key).P + KeySchedule(t0, key).S)
  {
    hide Scheduled, Paper.ReplacedAt, KeyedP, Paper.Keyed;
    KeyedIs(t0.P, key);
    var t1 := t0.(P := KeyedP(t0.P, key));
    forall n | 0 <= n < 521
      ensures Paper.ReplacedAt(Flat(t1), Flat(Scheduled(t1, 521).t), n)
    {
      StageReplaced(t1, n);
    }
    assert Flat(t1) == Paper.Keyed(t0.P, key) + t0.S;
    assert Flat(Scheduled(t1, 521).t) == KeySchedule(t0, key).P + KeySchedule(t0, key).S;
  }

  /** S-box `b`. */
  function Box(S: seq<word>, b: nat): (box: seq<word>)
    requires |S| == 1024 && b < 4
    ensures |box| == 256
  {
    S[256 * b..256 * b + 256]
  }

  /** No S-box holds the same word twice. */
  predicate Strong(S: seq<word>)
    requires |S| == 1024
  {
    forall b, i, j :: 0 <= b < 4 && 0 <= i < j < 256 ==> Box(S, b)[i] != Box(S, b)[j]
  }

  lemma BoxAt(S: seq<word>, b: nat, i: nat)
    requires |S| == 1024 && b < 4 && i < 256
    ensures Box(S, b)[i] == S[256 * b + i] && (256 * b + i) / 256 == b
  {
    DivMod(256 * b + i, 256, b, i);
  }

  /** A weak key's tables have one word at two places of one quarter. */
  lemma WeakIff(S: seq<word>)
    requires |S| == 1024
    ensures !Strong(S) <==> exists i, j :: 0 <= i < j < 1024 && i / 256 == j / 256 && S[i] == S[j]
  {
    hide Box;
    if i, j :| 0 <= i < j < 1024 && i / 256 == j / 256 && S[i] == S[j] {
      var b := i / 256;
      BoxAt(S, b, i - 256 * b);
      BoxAt(S, b, j - 256 * b);
    }
    if b, i, j :| 0 <= b < 4 && 0 <= i < j < 256 && Box(S, b)[i] == Box(S, b)[j] {
      BoxAt(S, b, i);
      BoxAt(S, b, j);
      assert S[256 * b + i] == S[256 * b + j];
    }
  }
}
