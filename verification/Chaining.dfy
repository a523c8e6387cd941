/**
 The chaining wrapper on values. One call is one link of the chain: the register holds the
 ciphertext of the previous call, not of the previous 8-byte block.
 */
module Chaining {
  import opened Bytes
  import opened Feistel

  /** The block cipher behind the wrapper, as far as the wrapper can see it. */
  datatype Cipher = Cipher(t: Tables, ready: bool) {
    ghost predicate Valid() { t.Valid() }
  }

  /** Which of the two directions the object has been used for, and its register. */
  datatype Chain =
    | Unused
    | Writer(reg: seq<byte>)
    | Reader(reg: seq<byte>)

  /** What a call leaves behind: the object, the buffer and the return code. */
  datatype Outcome = Outcome(chain: Chain, buf: seq<byte>, rc: int)

  /** The register a call works with: all zero and as long as the first buffer, if it is the first. */
  function Register(chain: Chain, len: nat): seq<byte> {
    if chain.Unused? then Zeros(len) else chain.reg
  }

  /** `encrypt(buf, len)`. The buffer is masked before the cipher gets to refuse it. */
  function Encrypted(c: Cipher, chain: Chain, buf: seq<byte>, len: nat): Outcome
    requires c.Valid() && len <= |buf|
  {
    var reg := Register(chain, len);
    if chain.Reader? then Outcome(chain, buf, -1)
    else if len > |reg| then Outcome(Writer(reg), buf, -1)
    else
      var masked := Xor(buf[..len], reg);
      if c.ready && len % 8 == 0 then
        var e := EncryptBlocks(c.t, masked);
        Outcome(Writer(e + reg[len..]), e + buf[len..], len)
      else
        Outcome(Writer(reg), masked + buf[len..], -1)
  }

  /**
   `decrypt(buf, len)`. As many bytes as the register holds are saved from the buffer, even
   where `len` is smaller.
   */
  function Decrypted(c: Cipher, chain: Chain, buf: seq<byte>, len: nat): Outcome
    requires c.Valid() && len <= |buf|
    requires chain.Reader? && len <= |chain.reg| ==> |chain.reg| <= |buf|
  {
    var reg := Register(chain, len);
    if chain.Writer? then Outcome(chain, buf, -1)
    else if len > |reg| then Outcome(Reader(reg), buf, -1)
    else if c.ready && len % 8 == 0 then
      Outcome(Reader(buf[..|reg|]), Xor(DecryptBlocks(c.t, buf[..len]), reg) + buf[len..], len)
    else
      Outcome(Reader(buf[..|reg|]), buf, -1)
  }

  // ----- Runs of calls -----

  /** The buffers after encrypting each in turn, and the object. */
  function EncryptRun(c: Cipher, ps: seq<seq<byte>>): (r: (Chain, seq<seq<byte>>))
    requires c.Valid()
    ensures |r.1| == |ps|
  {
    if ps == [] then (Unused, [])
    else
      var (chain, cs) := EncryptRun(c, ps[..|ps| - 1]);
      var p := ps[|ps| - 1];
      var o := Encrypted(c, chain, p, |p|);
      (o.chain, cs + [o.buf])
  }

  /** What `decrypt` is given: the first `len` bytes of a buffer that may go on. */
  datatype Piece = Piece(buf: seq<byte>, len: nat)

  ghost predicate Readable(bs: seq<Piece>) {
    && (forall i :: 0 <= i < |bs| ==> bs[i].len <= |bs[i].buf|)
    && (forall i :: 0 <= i < |bs| ==> bs[0].len <= |bs[i].buf|)
  }

  /** The plaintexts from decrypting each piece in turn, and the object. */
  function DecryptRun(c: Cipher, bs: seq<Piece>): (r: (Chain, seq<seq<byte>>))
    requires c.Valid() && Readable(bs)
    ensures |r.1| == |bs|
    ensures bs == [] ==> r.0.Unused?
    ensures bs != [] ==> r.0.Reader? && |r.0.reg| == bs[0].len
  {
    if bs == [] then (Unused, [])
    else
      var (chain, ps) := DecryptRun(c, bs[..|bs| - 1]);
      var b := bs[|bs| - 1];
      var o := Decrypted(c, chain, b.buf, b.len);
      (o.chain, ps + [o.buf[..b.len]])
  }

  /** An object that has encrypted refuses every decryption, and is not changed by being asked. */
  lemma {:induction false} EncryptedNeverDecrypts(c: Cipher, ps: seq<seq<byte>>, buf: seq<byte>, len: nat)
    requires c.Valid() && ps != [] && len <= |buf|
    ensures EncryptRun(c, ps).0.Writer?
    ensures Decrypted(c, EncryptRun(c, ps).0, buf, len) == Outcome(EncryptRun(c, ps).0, buf, -1)
  {
    if |ps| > 1 {
      EncryptedNeverDecrypts(c, ps[..|ps| - 1], buf, len);
    } else {
      assert ps[..0] == [];
    }
  }

  /** An object that has decrypted refuses every encryption. */
  lemma DecryptedNeverEncrypts(c: Cipher, bs: seq<Piece>, buf: seq<byte>, len: nat)
    requires c.Valid() && Readable(bs) && bs != [] && len <= |buf|
    ensures Encrypted(c, DecryptRun(c, bs).0, buf, len) == Outcome(DecryptRun(c, bs).0, buf, -1)
  {
    assert DecryptRun(c, bs).0.Reader?;
  }

  /** The exact condition for one link to be undone: the registers agree as far as the buffer goes. */
  lemma LinkInverts(t: Tables, p: seq<byte>, encReg: seq<byte>, decReg: seq<byte>)
    requires t.Valid() && |p| % 8 == 0 && |p| <= |encReg| && |p| <= |decReg|
    ensures Xor(DecryptBlocks(t, EncryptBlocks(t, Xor(p, encReg))), decReg) == p
            <==> encReg[..|p|] == decReg[..|p|]
  {
    hide DecryptBlocks, EncryptBlocks, Xor;
    DecryptEncrypt(t, Xor(p, encReg));
    XorInverts(p, encReg, decReg);
  }

  /** Two masks cancel exactly when they are the same mask. */
  lemma XorInverts(p: seq<byte>, a: seq<byte>, b: seq<byte>)
    requires |p| <= |a| && |p| <= |b|
    ensures Xor(Xor(p, a), b) == p <==> a[..|p|] == b[..|p|]
  {
    var d := Xor(Xor(p, a), b);
    if a[..|p|] == b[..|p|] {
      assert Xor(Xor(p, a), b) == Xor(Xor(p, a), a) by {
        assert forall i :: 0 <= i < |p| ==> a[..|p|][i] == b[..|p|][i];
      }
      XorTwice(p, a);
    } else {
      var i :| 0 <= i < |p| && a[..|p|][i] != b[..|p|][i];
      MaskInverts(p[i], a[i], b[i]);
      assert d[i] != p[i];
    }
  }

  lemma MaskInverts(x: byte, a: byte, b: byte)
    ensures (x ^ a) ^ b == x <==> a == b
  {
  }

  /** Whole blocks, none longer than the one before. */
  ghost predicate NonIncreasing(ps: seq<seq<byte>>) {
    && (forall i :: 0 <= i < |ps| ==> |ps[i]| % 8 == 0)
    && (forall i :: 0 < i < |ps| ==> |ps[i]| <= |ps[i - 1]|)
  }

  /** The pieces begin with these ciphertexts. */
  ghost predicate Carries(bs: seq<Piece>, cs: seq<seq<byte>>) {
    && |bs| == |cs|
    && forall i :: 0 <= i < |bs| ==> bs[i].len == |cs[i]| <= |bs[i].buf| && bs[i].buf[..|cs[i]|] == cs[i]
  }

  /**
   Buffers of whole blocks, none longer than the one before, come back from a second object
   with the same key, whatever follows the ciphertexts in the buffers given to it.
   */
  lemma {:induction false} RunRoundTrip(c: Cipher, ps: seq<seq<byte>>, bs: seq<Piece>)
    requires c.Valid() && c.ready && NonIncreasing(ps)
    requires Carries(bs, EncryptRun(c, ps).1) && Readable(bs)
    ensures DecryptRun(c, bs).1 == ps
    ensures ps != [] ==>
      var e, d, n := EncryptRun(c, ps).0, DecryptRun(c, bs).0, |ps[|ps| - 1]|;
      e.Writer? && d.Reader? && n <= |e.reg| == |d.reg| == |ps[0]| && e.reg[..n] == d.reg[..n]
  {
    hide Encrypted, Decrypted, Carries, NonIncreasing;
    SameCount(bs, EncryptRun(c, ps).1);
    if ps == [] {
    } else {
      var k := |ps| - 1;
      var p, b := ps[k], bs[k];
      RunPrefix(c, ps, bs);
      ShorterThanBefore(ps);
      RunRoundTrip(c, ps[..k], bs[..k]);
      var e, d := EncryptRun(c, ps[..k]).0, DecryptRun(c, bs[..k]).0;
      if k > 0 {
        PrefixesAgree(e.reg, d.reg, |ps[k - 1]|, |p|);
      }
      LinkRoundTrip(c, e, d, p, b);
      LastEqual(DecryptRun(c, bs).1, ps);
    }
  }

  lemma ShorterThanBefore(ps: seq<seq<byte>>)
    requires ps != [] && NonIncreasing(ps)
    ensures var k := |ps| - 1; NonIncreasing(ps[..k]) && |ps[k]| % 8 == 0 && (k > 0 ==> |ps[k]| <= |ps[k - 1]|)
  {
  }

  lemma SameCount(bs: seq<Piece>, cs: seq<seq<byte>>)
    requires Carries(bs, cs)
    ensures |bs| == |cs|
  {
  }

  lemma PrefixesAgree(a: seq<byte>, b: seq<byte>, n: nat, m: nat)
    requires m <= n <= |a| == |b| && a[..n] == b[..n]
    ensures a[..m] == b[..m]
  {
    assert a[..m] == a[..n][..m];
    assert b[..m] == b[..n][..m];
  }

  lemma RunPrefix(c: Cipher, ps: seq<seq<byte>>, bs: seq<Piece>)
    requires c.Valid() && ps != []
    requires Carries(bs, EncryptRun(c, ps).1) && Readable(bs)
    ensures var k := |ps| - 1;
      && Carries(bs[..k], EncryptRun(c, ps[..k]).1) && Readable(bs[..k])
      && bs[k].len == |ps[k]| && bs[0].len == |ps[0]|
      && bs[k].buf[..|ps[k]|] == Encrypted(c, EncryptRun(c, ps[..k]).0, ps[k], |ps[k]|).buf
  {
    hide DecryptBlocks, EncryptBlocks;
    var k := |ps| - 1;
    var r := EncryptRun(c, ps);
    assert r.1[..k] == EncryptRun(c, ps[..k]).1;
    LengthsKept(c, ps);
  }

  lemma {:induction false} LengthsKept(c: Cipher, ps: seq<seq<byte>>)
    requires c.Valid()
    ensures forall i :: 0 <= i < |ps| ==> |EncryptRun(c, ps).1[i]| == |ps[i]|
  {
    hide DecryptBlocks, EncryptBlocks;
    if ps == [] {
    } else {
      LengthsKept(c, ps[..|ps| - 1]);
    }
  }

  /** One link, given registers that agree as far as the buffer goes. */
  lemma LinkRoundTrip(c: Cipher, e: Chain, d: Chain, p: seq<byte>, b: Piece)
    requires c.Valid() && c.ready && |p| % 8 == 0
    requires !e.Reader? && !d.Writer?
    requires |p| <= |Register(e, |p|)| == |Register(d, |p|)| <= |b.buf|
    requires Register(e, |p|)[..|p|] == Register(d, |p|)[..|p|]
    requires b.len == |p| && b.buf[..|p|] == Encrypted(c, e, p, |p|).buf
    ensures var o, q := Encrypted(c, e, p, |p|), Decrypted(c, d, b.buf, |p|);
      && q.buf[..|p|] == p
      && o.chain.Writer? && q.chain.Reader?
      && |o.chain.reg| == |q.chain.reg| == |Register(e, |p|)|
      && o.chain.reg[..|p|] == q.chain.reg[..|p|]
  {
    hide DecryptBlocks, EncryptBlocks, Xor;
    var encReg, decReg := Register(e, |p|), Register(d, |p|);
    assert p[..|p|] == p;
    var x := EncryptBlocks(c.t, Xor(p, encReg));
    assert x + p[|p|..] == x;
    LinkInverts(c.t, p, encReg, decReg);
  }

  // ----- Exactly when a run comes back -----

  /**
   What one call takes to be undone. A buffer longer than the first is refused by both sides and
   comes back as it was; one that the cipher refuses comes back masked by the register; any
   other comes back if the registers agree as far as it goes.
   */
  predicate LinkAgrees(c: Cipher, e: Chain, d: Chain, p: seq<byte>)
    requires |Register(e, |p|)| == |Register(d, |p|)|
  {
    var encReg, decReg := Register(e, |p|), Register(d, |p|);
    |p| <= |encReg| ==>
      encReg[..|p|] == if c.ready && |p| % 8 == 0 then decReg[..|p|] else Zeros(|p|)
  }

  lemma MaskedByZeros(p: seq<byte>, reg: seq<byte>)
    requires |p| <= |reg|
    ensures Xor(p, reg) == p <==> reg[..|p|] == Zeros(|p|)
  {
    UnmaskedByZeros(p);
    assert Xor(p, Zeros(|p|)) == p;
    assert Xor(p, reg) == Xor(Xor(p, reg), Zeros(|p|)) by {
      UnmaskedByZeros(Xor(p, reg));
    }
    XorInverts(p, reg, Zeros(|p|));
    assert Zeros(|p|)[..|p|] == Zeros(|p|);
  }

  lemma LinkUndone(c: Cipher, e: Chain, d: Chain, p: seq<byte>, b: Piece)
    requires c.Valid() && !e.Reader? && !d.Writer?
    requires |Register(e, |p|)| == |Register(d, |p|)|
    requires b.len == |p| <= |b.buf| && |Register(d, |p|)| <= |b.buf|
    requires b.buf[..|p|] == Encrypted(c, e, p, |p|).buf
    ensures var o, q := Encrypted(c, e, p, |p|), Decrypted(c, d, b.buf, |p|);
      && (q.buf[..|p|] == p <==> LinkAgrees(c, e, d, p))
      && o.chain.Writer? && q.chain.Reader?
      && |o.chain.reg| == |q.chain.reg| == |Register(e, |p|)|
  {
    hide DecryptBlocks, EncryptBlocks, Xor;
    var encReg, decReg := Register(e, |p|), Register(d, |p|);
    assert p[..|p|] == p;
    if |p| <= |encReg| {
      if c.ready && |p| % 8 == 0 {
        var x := EncryptBlocks(c.t, Xor(p, encReg));
        assert x + p[|p|..] == x;
        LinkInverts(c.t, p, encReg, decReg);
      } else {
        var x := Xor(p, encReg);
        assert x + p[|p|..] == x;
        MaskedByZeros(p, encReg);
      }
    }
  }

  /** The lengths a run keeps: both registers are as long as the first buffer. */
  ghost predicate InStep(e: Chain, d: Chain, first: nat) {
    (e.Unused? && d.Unused?) || (e.Writer? && d.Reader? && |e.reg| == |d.reg| == first)
  }

  /** Every call of a run meets its condition, with the objects as the calls before left them. */
  ghost predicate LinksAgree(c: Cipher, ps: seq<seq<byte>>, bs: seq<Piece>)
    requires c.Valid() && Readable(bs) && |ps| == |bs|
  {
    ps == [] ||
    var k := |ps| - 1;
    var e, d := EncryptRun(c, ps[..k]).0, DecryptRun(c, bs[..k]).0;
    && LinksAgree(c, ps[..k], bs[..k])
    && |Register(e, |ps[k]|)| == |Register(d, |ps[k]|)|
    && LinkAgrees(c, e, d, ps[k])
  }

  /**
   Buffers of any lengths, whole blocks or not, with a key or without: a second object gives
   them back exactly if every link agrees.
   */
  lemma {:induction false} RunUndoneIff(c: Cipher, ps: seq<seq<byte>>, bs: seq<Piece>)
    requires c.Valid() && Readable(bs)
    requires Carries(bs, EncryptRun(c, ps).1)
    ensures |ps| == |bs|
    ensures DecryptRun(c, bs).1 == ps <==> LinksAgree(c, ps, bs)
    ensures InStep(EncryptRun(c, ps).0, DecryptRun(c, bs).0, if ps == [] then 0 else |ps[0]|)
  {
    hide Encrypted, Decrypted, Carries, LinkAgrees;
    SameCount(bs, EncryptRun(c, ps).1);
    if ps == [] {
      assert bs == [];
    } else {
      var k := |ps| - 1;
      RunPrefix(c, ps, bs);
      RunUndoneIff(c, ps[..k], bs[..k]);
      var e, d := EncryptRun(c, ps[..k]).0, DecryptRun(c, bs[..k]).0;
      LinkUndone(c, e, d, ps[k], bs[k]);
      LastEqual(DecryptRun(c, bs).1, ps);
      assert DecryptRun(c, bs).1[..k] == DecryptRun(c, bs[..k]).1;
    }
  }

  lemma LastEqual<T>(a: seq<T>, b: seq<T>)
    requires |a| == |b| > 0
    ensures var k := |a| - 1; a == b <==> a[..k] == b[..k] && a[k] == b[k]
  {
    var k := |a| - 1;
    assert a == a[..k] + [a[k]] && b == b[..k] + [b[k]];
  }

  // ----- What single calls return, and what a register holds -----

  /** A call succeeds, and returns the length, exactly under these conditions; else it returns -1. */
  lemma CallSucceedsIff(c: Cipher, chain: Chain, buf: seq<byte>, len: nat)
    requires c.Valid() && len <= |buf| && len > 0
    requires chain.Reader? && len <= |chain.reg| ==> |chain.reg| <= |buf|
    ensures var fits := chain.Unused? || len <= |chain.reg|;
      && Encrypted(c, chain, buf, len).rc == (if !chain.Reader? && fits && c.ready && len % 8 == 0 then len else -1)
      && Decrypted(c, chain, buf, len).rc == (if !chain.Writer? && fits && c.ready && len % 8 == 0 then len else -1)
  {
    hide EncryptBlocks, DecryptBlocks;
  }

  /** What follows the first `len` bytes of a buffer is never touched. */
  lemma TailUntouched(c: Cipher, chain: Chain, buf: seq<byte>, len: nat)
    requires c.Valid() && len <= |buf|
    requires chain.Reader? && len <= |chain.reg| ==> |chain.reg| <= |buf|
    ensures var e, d := Encrypted(c, chain, buf, len).buf, Decrypted(c, chain, buf, len).buf;
            |e| == |d| == |buf| && e[len..] == buf[len..] && d[len..] == buf[len..]
  {
    hide EncryptBlocks, DecryptBlocks;
  }

  /**
   Behind every run of encryptions with whole blocks, the register has the length of the first
   buffer, and each of its bytes is that of the last ciphertext that reached so far; buffers
   longer than the first come back unchanged and leave it alone.
   */
  lemma {:induction false} RegisterHolds(c: Cipher, ps: seq<seq<byte>>, i: nat, j: nat)
    requires c.Valid() && c.ready && forall n :: 0 <= n < |ps| ==> |ps[n]| % 8 == 0
    requires j < |ps| && i < |ps[j]| <= |ps[0]|
    requires forall n :: j < n < |ps| ==> |ps[n]| <= i || |ps[n]| > |ps[0]|
    ensures var r := EncryptRun(c, ps);
      && r.0.Writer? && |r.0.reg| == |ps[0]|
      && |r.1[j]| == |ps[j]| && r.0.reg[i] == r.1[j][i]
  {
    hide EncryptBlocks;
    var k := |ps| - 1;
    RegisterLength(c, ps);
    RegisterLength(c, ps[..k]);
    if j < k {
      RegisterHolds(c, ps[..k], i, j);
    }
  }

  lemma {:induction false} RegisterLength(c: Cipher, ps: seq<seq<byte>>)
    requires c.Valid()
    ensures if ps == [] then EncryptRun(c, ps).0.Unused?
            else EncryptRun(c, ps).0.Writer? && |EncryptRun(c, ps).0.reg| == |ps[0]|
  {
    hide EncryptBlocks;
    if ps == [] {
    } else {
      RegisterLength(c, ps[..|ps| - 1]);
    }
  }

  /** A decryption that is not refused leaves the beginning of its input, as much as the register holds. */
  lemma RegisterAfterDecrypt(c: Cipher, chain: Chain, buf: seq<byte>, len: nat)
    requires c.Valid() && len <= |buf| && !chain.Writer?
    requires chain.Reader? ==> len <= |chain.reg| <= |buf|
    ensures Decrypted(c, chain, buf, len).chain == Reader(buf[..if chain.Unused? then len else |chain.reg|])
  {
    hide DecryptBlocks;
  }

  // ----- What the chain is in the standard's terms -----

  /** CBC encryption, section 6.2 of NIST SP 800-38A, block by block. */
  function Cbc(t: Tables, iv: seq<byte>, ps: seq<seq<byte>>): (cs: seq<seq<byte>>)
    requires t.Valid() && |iv| == 8
    requires forall i :: 0 <= i < |ps| ==> |ps[i]| == 8
    ensures |cs| == |ps|
    ensures forall i :: 0 <= i < |cs| ==> |cs[i]| == 8
  {
    if ps == [] then []
    else
      var cs := Cbc(t, iv, ps[..|ps| - 1]);
      var previous := if cs == [] then iv else cs[|cs| - 1];
      cs + [Store(Encipher(t, Load(Xor(ps[|ps| - 1], previous))))]
  }

  lemma OneBlock(t: Tables, s: seq<byte>)
    requires t.Valid() && |s| == 8
    ensures EncryptBlocks(t, s) == Store(Encipher(t, Load(s)))
  {
    hide Encipher, Load, Store;
    assert s[..0] == [];
    assert s[0..] == s;
  }

  /** Fed one 8-byte block per call, the object is CBC with a zero initialisation vector. */
  lemma {:induction false} BlockPerCallIsCbc(c: Cipher, ps: seq<seq<byte>>)
    requires c.Valid() && c.ready
    requires forall i :: 0 <= i < |ps| ==> |ps[i]| == 8
    ensures EncryptRun(c, ps).1 == Cbc(c.t, Zeros(8), ps)
    ensures ps != [] ==>
      EncryptRun(c, ps).0 == Writer(Cbc(c.t, Zeros(8), ps)[|ps| - 1])
  {
    hide EncryptBlocks, Encipher, Load, Store;
    if ps == [] {
    } else {
      var k := |ps| - 1;
      BlockPerCallIsCbc(c, ps[..k]);
      var chain := EncryptRun(c, ps[..k]).0;
      var reg := Register(chain, 8);
      OneBlock(c.t, Xor(ps[k], reg));
      var e := EncryptBlocks(c.t, Xor(ps[k], reg));
      assert ps[k][..8] == ps[k];
      assert e + reg[8..] == e && e + ps[k][8..] == e;
    }
  }

  /** A single call on a large buffer enciphers every block on its own: nothing is chained. */
  lemma FirstCallIsBlockwise(c: Cipher, buf: seq<byte>)
    requires c.Valid() && c.ready && |buf| % 8 == 0
    ensures Encrypted(c, Unused, buf, |buf|) == Outcome(Writer(EncryptBlocks(c.t, buf)), EncryptBlocks(c.t, buf), |buf|)
    ensures Decrypted(c, Unused, buf, |buf|) == Outcome(Reader(buf), DecryptBlocks(c.t, buf), |buf|)
  {
    hide EncryptBlocks, DecryptBlocks;
    UnmaskedByZeros(buf);
    UnmaskedByZeros(DecryptBlocks(c.t, buf));
    assert buf[..|buf|] == buf;
    assert forall s: seq<byte> :: |s| == |buf| ==> s + Zeros(|buf|)[|buf|..] == s && s + buf[|buf|..] == s;
  }

  lemma UnmaskedByZeros(s: seq<byte>)
    ensures Xor(s, Zeros(|s|)) == s
  {
  }
}
