/** The Blowfish object: tables rewritten by `setKey`, buffers enciphered in place. */
module Blowfish {
  import opened Bytes
  import opened Feistel
  import Paper = BlowfishPaper

  class BlowFish {
    const blksz: nat := 8

    /** The constant tables, taken as given. */
    const constants: Tables

    const S: array<word>
    const P: array<word>
    var key: seq<byte>
    var keylen: int
    var ready: bool

    ghost predicate Valid()
      reads this
    {
      && constants.Valid()
      && S.Length == 1024 && P.Length == 18 && S != P
    }

    function Current(): (t: Tables)
      requires Valid()
      reads this, S, P
      ensures t.Valid()
    {
      Tables(P[..], S[..])
    }

    constructor (t: Tables)
      requires t.Valid()
      ensures Valid() && fresh(S) && fresh(P)
      ensures constants == t && !ready
    {
      constants := t;
      S := new word[1024];
      P := new word[18];
      key, keylen := [], 0;
      ready := false;
    }

    /** The S-boxes start from the constants. */
    method CopyBoxes()
      requires Valid()
      modifies S
      ensures S[..] == constants.S
    {
      var ks := constants.S;
      for i := 0 to 256
        invariant forall k :: 0 <= k < 1024 && k % 256 < i ==> S[k] == ks[k]
      {
        S[i], S[256 + i], S[512 + i], S[768 + i] := ks[i], ks[256 + i], ks[512 + i], ks[768 + i];
      }
      assert forall k :: 0 <= k < 1024 ==> S[k] == ks[k];
    }

    /** The P-array starts from the constants with the key bytes, taken round and round, mixed in. */
    method MixKey()
      requires Valid() && 0 < |key| && keylen == 8 * |key|
      modifies P
      ensures P[..] == KeyedP(constants.P, key)
    {
      hide Append, Mix, KeyWord, Wrap;
      WrapZero(|key|);
      var j := 0;
      for i := 0 to 18
        invariant j == Wrap(4 * i, |key|)
        invariant P[..i] == KeyedP(constants.P, key)[..i]
      {
        var data: word := 0;
        ghost var j0 := j;
        data, j := AbsorbByte(data, j);
        data, j := AbsorbByte(data, j);
        data, j := AbsorbByte(data, j);
        data, j := AbsorbByte(data, j);
        KeyWordIs(key, i, j0);
        P[i] := Mix(constants.P[i], data);
      }
    }

    /** `data = (data << 8) | key[j++]`, going back to the start of the key at its end. */
    method AbsorbByte(data: word, j: nat) returns (data': word, j': nat)
      requires 0 <= j < |key| && keylen == 8 * |key|
      ensures data' == Append(data, key[j])
      ensures j' == Wrap(j + 1, |key|)
    {
      data' := Append(data, key[j]);
      j' := j + 1;
      if j' >= keylen / 8 {
        j' := 0;
      }
    }

    /** The next table entries are the encipherment of the previous ones under the tables so far. */
    method Replace(n: nat, l0: word, r0: word, ghost t0: Tables) returns (l: word, r: word)
      requires Valid() && t0.Valid() && n < 521
      requires Stage(Current(), Halves(l0, r0)) == Scheduled(t0, n)
      modifies P, S
      ensures Stage(Current(), Halves(l, r)) == Scheduled(t0, n + 1)
    {
      hide Feistel.Encipher, Paper.Encrypt;
      l, r := Encipher(l0, r0);
      if n < 9 {
        P[2 * n] := l;
        P[2 * n + 1] := r;
      } else {
        S[2 * (n - 9)] := l;
        S[2 * (n - 9) + 1] := r;
      }
    }

    /** Rebuilds the tables from the key; false if an S-box repeats a word. */
    method Init() returns (ok: bool)
      requires Valid() && 0 < |key| && keylen == 8 * |key|
      modifies P, S, `ready
      ensures Current() == KeySchedule(constants, key)
      ensures ok == Strong(S[..])
      ensures ready == (old(ready) || ok)
    {
      hide KeyedP, Scheduled, Strong;
      CopyBoxes();
      MixKey();
      ghost var t0 := Current();
      var datal: word, datar: word := 0, 0;
      ScheduleStart(t0);
      for i := 0 to 9
        invariant Stage(Current(), Halves(datal, datar)) == Scheduled(t0, i)
        modifies P, S
      {
        datal, datar := Replace(i, datal, datar, t0);
      }
      for j := 0 to 4
        invariant Stage(Current(), Halves(datal, datar)) == Scheduled(t0, 9 + 128 * j)
        modifies P, S
      {
        for i := 0 to 128
          invariant Stage(Current(), Halves(datal, datar)) == Scheduled(t0, 9 + 128 * j + i)
          modifies P, S
        {
          datal, datar := Replace(9 + 128 * j + i, datal, datar, t0);
        }
      }
      ok := NoRepeats();
      if ok {
        ready := true;
      }
    }

    /** Compares every pair of words within each S-box. */
    method NoRepeats() returns (ok: bool)
      requires Valid()
      ensures ok == Strong(S[..])
    {
      hide RowsDistinct, RowDistinct, Strong, Box;
      RowsStart(S[..]);
      for i := 0 to 255
        invariant RowsDistinct(S[..], i)
      {
        RowStart(S[..], i);
        for j := i + 1 to 256
          invariant RowDistinct(S[..], i, j)
        {
          if S[i] == S[j] || S[256 + i] == S[256 + j] || S[512 + i] == S[512 + j] || S[768 + i] == S[768 + j] {
            RepeatFound(S[..], i, j);
            return false;
          }
          RowNext(S[..], i, j);
        }
        RowsNext(S[..], i);
      }
      RowsAll(S[..]);
      return true;
    }

    /**
     Installs a key of 1 to 56 bytes. The tables depend on the key alone; a key that gives a
     repeated S-box word is refused, but only after its tables have replaced the old ones, and
     an object that was ready stays ready.
     */
    method SetKey(k: seq<byte>, bitlength: int) returns (ok: bool)
      requires Valid()
      requires bitlength == 8 * |k| || bitlength <= 0 || bitlength > 448 || bitlength % 8 != 0
      modifies this, P, S
      ensures Valid()
      ensures var usable := 0 < bitlength <= 448 && bitlength % 8 == 0;
        && (usable ==> Current() == KeySchedule(constants, k) && key == k && keylen == bitlength)
        && (!usable ==> Current() == old(Current()) && key == old(key) && keylen == old(keylen))
        && ok == (usable && Strong(KeySchedule(constants, k).S))
      ensures 0 < bitlength <= 448 && bitlength % 8 == 0 ==>
                Paper.Replaced(Paper.Keyed(constants.P, k) + constants.S, P[..] + S[..])
      ensures ready == (old(ready) || ok)
    {
      hide Paper.Replaced, Paper.Keyed, KeySchedule, Strong;
      if bitlength <= 0 || bitlength > 448 || bitlength % 8 != 0 {
        return false;
      }
      key := k;
      keylen := bitlength;
      ok := Init();
      KeyScheduleIsPaper(constants, k);
    }

    /** The nonlinear function of a round, byte by byte. */
    method Mangle(x0: word) returns (y: word)
      requires Valid()
      ensures y == F(S[..], x0)
    {
      hide Byte0, Byte1, Byte2, Byte3, Combine;
      ShiftedBytes(x0);
      var x := x0;
      var d := Byte0(x);
      x := x >> 8;
      var c := Byte0(x);
      x := x >> 8;
      var b := Byte0(x);
      x := x >> 8;
      var a := Byte0(x);
      y := Combine(S[a], S[256 + b], S[512 + c], S[768 + d]);
    }

    method Encipher(xl: word, xr: word) returns (l: word, r: word)
      requires Valid()
      ensures Halves(l, r) == Feistel.Encipher(Current(), Halves(xl, xr))
      ensures (l, r) == Paper.Encrypt(P[..], S[..], xl, xr)
    {
      hide F, Mix, Paper.Encrypt;
      EncipherIsPaper(Current(), Halves(xl, xr));
      l, r := xl, xr;
      for i := 0 to 16
        invariant Halves(l, r) == EncRounds(Current(), Halves(xl, xr), i)
      {
        l := Mix(l, P[i]);
        var f := Mangle(l);
        r := Mix(r, f);
        l, r := r, l;
      }
      l, r := r, l;
      r := Mix(r, P[16]);
      l := Mix(l, P[17]);
    }

    method Decipher(xl: word, xr: word) returns (l: word, r: word)
      requires Valid()
      ensures Halves(l, r) == Feistel.Decipher(Current(), Halves(xl, xr))
      ensures (l, r) == Paper.Decrypt(P[..], S[..], xl, xr)
    {
      hide F, Mix, Paper.Decrypt;
      DecipherIsPaper(Current(), Halves(xl, xr));
      l, r := xl, xr;
      for i := 17 downto 1
        invariant Halves(l, r) == DecRounds(Current(), Halves(xl, xr), 17 - i)
      {
        l := Mix(l, P[i + 1]);
        var f := Mangle(l);
        r := Mix(r, f);
        l, r := r, l;
      }
      l, r := r, l;
      r := Mix(r, P[1]);
      l := Mix(l, P[0]);
    }

    /** `encipher(d, d + 1)` on the words at offset `d` of the buffer. */
    method EncipherAt(block: array<byte>, d: nat, ghost s: seq<byte>)
      requires Valid() && d + 8 <= block.Length
      requires EncryptedUpTo(Current(), s, block[..], d)
      modifies block
      ensures Current() == old(Current())
      ensures EncryptedUpTo(Current(), s, block[..], d + 8)
    {
      hide Feistel.Encipher, Paper.Encrypt, Load, Store;
      assert block[d..d + 8] == block[..][d..][..8] == s[d..d + 8];
      EncryptNext(Current(), s, d);
      var h := LoadAt(block, d);
      var l, r := Encipher(h.l, h.r);
      StoreAt(block, d, Halves(l, r));
      assert s[d + 8..] == s[d..][8..];
    }

    /** Enciphers every 8-byte block of the buffer in place; -1 if there is no key or a partial block. */
    method Encrypt(block: array<byte>, len: nat) returns (rc: int)
      requires Valid()
      requires len <= block.Length
      modifies block
      ensures ready && len % 8 == 0 ==>
        rc == len && block[..] == EncryptBlocks(Current(), old(block[..len])) + old(block[len..])
      ensures !(ready && len % 8 == 0) ==> rc == -1 && block[..] == old(block[..])
    {
      if !ready || len % blksz != 0 {
        return -1;
      }
      hide EncryptedUpTo, EncryptBlocks;
      ghost var s := block[..];
      EncryptNothing(Current(), s);
      var d := 0;
      for i := 0 to len / blksz
        invariant d == 8 * i
        invariant EncryptedUpTo(Current(), s, block[..], d)
        invariant Current() == old(Current())
      {
        EncipherAt(block, d, s);
        d := d + 8;
      }
      rc := len;
      EncryptAll(Current(), s, block[..], len);
    }

    /** `decipher(d, d + 1)` on the words at offset `d` of the buffer. */
    method DecipherAt(block: array<byte>, d: nat, ghost s: seq<byte>)
      requires Valid() && d + 8 <= block.Length
      requires DecryptedUpTo(Current(), s, block[..], d)
      modifies block
      ensures Current() == old(Current())
      ensures DecryptedUpTo(Current(), s, block[..], d + 8)
    {
      hide Feistel.Decipher, Paper.Decrypt, Load, Store;
      assert block[d..d + 8] == block[..][d..][..8] == s[d..d + 8];
      DecryptNext(Current(), s, d);
      var h := LoadAt(block, d);
      var l, r := Decipher(h.l, h.r);
      StoreAt(block, d, Halves(l, r));
      assert s[d + 8..] == s[d..][8..];
    }

    /** Deciphers every 8-byte block of the buffer in place. */
    method Decrypt(block: array<byte>, len: nat) returns (rc: int)
      requires Valid()
      requires len <= block.Length
      modifies block
      ensures ready && len % 8 == 0 ==>
        rc == len && block[..] == DecryptBlocks(Current(), old(block[..len])) + old(block[len..])
      ensures !(ready && len % 8 == 0) ==> rc == -1 && block[..] == old(block[..])
    {
      if !ready || len % blksz != 0 {
        return -1;
      }
      hide DecryptedUpTo, DecryptBlocks;
      ghost var s := block[..];
      DecryptNothing(Current(), s);
      var d := 0;
      for i := 0 to len / blksz
        invariant d == 8 * i
        invariant DecryptedUpTo(Current(), s, block[..], d)
        invariant Current() == old(Current())
      {
        DecipherAt(block, d, s);
        d := d + 8;
      }
      rc := len;
      DecryptAll(Current(), s, block[..], len);
    }
  }

  /** The first `d` bytes of the buffer are done and the rest is as before. */
  ghost predicate EncryptedUpTo(t: Tables, s: seq<byte>, cur: seq<byte>, d: nat)
    requires t.Valid()
  {
    && d % 8 == 0 && d <= |s| == |cur|
    && cur[..d] == EncryptBlocks(t, s[..d])
    && cur[d..] == s[d..]
  }

  lemma EncryptNothing(t: Tables, s: seq<byte>)
    requires t.Valid()
    ensures EncryptedUpTo(t, s, s, 0)
  {
  }

  lemma EncryptAll(t: Tables, s: seq<byte>, cur: seq<byte>, d: nat)
    requires t.Valid() && EncryptedUpTo(t, s, cur, d)
    ensures d <= |s| && d % 8 == 0 && cur == EncryptBlocks(t, s[..d]) + s[d..]
  {
    assert cur == cur[..d] + cur[d..];
  }

  // ----- The search for repeated words -----

  /** No word of the S-boxes at a place before `i` comes again at a later place. */
  ghost predicate RowsDistinct(S: seq<word>, i: nat)
    requires |S| == 1024
  {
    forall b, p, q :: 0 <= b < 4 && 0 <= p < i && p < q < 256 ==> Box(S, b)[p] != Box(S, b)[q]
  }

  /** The words at place `i` do not come again between `i` and `j`. */
  ghost predicate RowDistinct(S: seq<word>, i: nat, j: nat)
    requires |S| == 1024 && i < 256 && j <= 256
  {
    forall b, q :: 0 <= b < 4 && i < q < j ==> Box(S, b)[i] != Box(S, b)[q]
  }

  lemma RowsStart(S: seq<word>)
    requires |S| == 1024
    ensures RowsDistinct(S, 0)
  {
  }

  lemma RowStart(S: seq<word>, i: nat)
    requires |S| == 1024 && i < 256
    ensures RowDistinct(S, i, i + 1)
  {
  }

  lemma RowNext(S: seq<word>, i: nat, j: nat)
    requires |S| == 1024 && i < j < 256 && RowDistinct(S, i, j)
    requires S[i] != S[j] && S[256 + i] != S[256 + j] && S[512 + i] != S[512 + j] && S[768 + i] != S[768 + j]
    ensures RowDistinct(S, i, j + 1)
  {
    forall b | 0 <= b < 4
      ensures Box(S, b)[i] != Box(S, b)[j]
    {
      assert Box(S, b)[i] == S[256 * b + i] && Box(S, b)[j] == S[256 * b + j];
      assert b == 0 || b == 1 || b == 2 || b == 3;
    }
  }

  lemma RowsNext(S: seq<word>, i: nat)
    requires |S| == 1024 && i < 256 && RowsDistinct(S, i) && RowDistinct(S, i, 256)
    ensures RowsDistinct(S, i + 1)
  {
  }

  lemma RowsAll(S: seq<word>)
    requires |S| == 1024 && RowsDistinct(S, 255)
    ensures Strong(S)
  {
  }

  lemma RepeatFound(S: seq<word>, i: nat, j: nat)
    requires |S| == 1024 && i < j < 256
    requires S[i] == S[j] || S[256 + i] == S[256 + j] || S[512 + i] == S[512 + j] || S[768 + i] == S[768 + j]
    ensures !Strong(S)
  {
    var b := if S[i] == S[j] then 0 else if S[256 + i] == S[256 + j] then 1 else if S[512 + i] == S[512 + j] then 2 else 3;
    assert Box(S, b)[i] == Box(S, b)[j];
  }

  /** The key index that counting up from zero and starting over at `n` reaches. */
  function Wrap(k: nat, n: nat): (j: nat)
    requires n > 0
    ensures j < n
  {
    k % n
  }

  lemma WrapZero(n: nat)
    requires n > 0
    ensures Wrap(0, n) == 0
  {
  }

  lemma KeyWordIs(key: seq<byte>, i: nat, j: nat)
    requires |key| > 0 && j == Wrap(4 * i, |key|)
    ensures var n := |key|; var j1 := Wrap(j + 1, n); var j2 := Wrap(j1 + 1, n); var j3 := Wrap(j2 + 1, n);
      && KeyWord(key, i) == Append(Append(Append(Append(0, key[j]), key[j1]), key[j2]), key[j3])
      && Wrap(j3 + 1, n) == Wrap(4 * (i + 1), n)
  {
    hide Append;
    StepsWrap(4 * i, |key|);
    StepsWrap(4 * i + 1, |key|);
    StepsWrap(4 * i + 2, |key|);
    StepsWrap(4 * i + 3, |key|);
  }

  lemma StepsWrap(k: nat, n: nat)
    requires n > 0
    ensures Wrap(Wrap(k, n) + 1, n) == Wrap(k + 1, n)
  {
    var q, r := k / n, k % n;
    if r + 1 == n {
      assert k + 1 == (q + 1) * n + 0;
      DivMod(k + 1, n, q + 1, 0);
      DivMod(r + 1, n, 1, 0);
    } else {
      DivMod(k + 1, n, q, r + 1);
      DivMod(r + 1, n, 0, r + 1);
    }
  }

  lemma ScheduleStart(t0: Tables)
    requires t0.Valid()
    ensures Scheduled(t0, 0) == Stage(t0, Halves(0, 0))
  {
  }

  lemma EncryptNext(t: Tables, s: seq<byte>, d: nat)
    requires t.Valid() && d % 8 == 0 && d + 8 <= |s|
    ensures EncryptBlocks(t, s[..d + 8]) == EncryptBlocks(t, s[..d]) + Store(Feistel.Encipher(t, Load(s[d..d + 8])))
  {
    hide Feistel.Encipher, Load, Store;
    var u := s[..d + 8];
    assert u[..|u| - 8] == s[..d];
    assert u[|u| - 8..] == s[d..d + 8];
  }

  /** The first `d` bytes of the buffer are done and the rest is as before. */
  ghost predicate DecryptedUpTo(t: Tables, s: seq<byte>, cur: seq<byte>, d: nat)
    requires t.Valid()
  {
    && d % 8 == 0 && d <= |s| == |cur|
    && cur[..d] == DecryptBlocks(t, s[..d])
    && cur[d..] == s[d..]
  }

  lemma DecryptNothing(t: Tables, s: seq<byte>)
    requires t.Valid()
    ensures DecryptedUpTo(t, s, s, 0)
  {
  }

  lemma DecryptAll(t: Tables, s: seq<byte>, cur: seq<byte>, d: nat)
    requires t.Valid() && DecryptedUpTo(t, s, cur, d)
    ensures d <= |s| && d % 8 == 0 && cur == DecryptBlocks(t, s[..d]) + s[d..]
  {
    assert cur == cur[..d] + cur[d..];
  }

  lemma DecryptNext(t: Tables, s: seq<byte>, d: nat)
    requires t.Valid() && d % 8 == 0 && d + 8 <= |s|
    ensures DecryptBlocks(t, s[..d + 8]) == DecryptBlocks(t, s[..d]) + Store(Feistel.Decipher(t, Load(s[d..d + 8])))
  {
    hide Feistel.Decipher, Load, Store;
    var u := s[..d + 8];
    assert u[..|u| - 8] == s[..d];
    assert u[|u| - 8..] == s[d..d + 8];
  }

  /** The words at `d` and `d + 1`, read through a `uint32_t` pointer on a little-endian machine. */
  method LoadAt(block: array<byte>, d: nat) returns (h: Halves)
    requires d + 8 <= block.Length
    ensures h == Load(block[d..d + 8])
  {
    hide LeWord;
    h := Halves(LeWord(block[d], block[d + 1], block[d + 2], block[d + 3]),
                LeWord(block[d + 4], block[d + 5], block[d + 6], block[d + 7]));
  }

  method StoreAt(block: array<byte>, d: nat, h: Halves)
    requires d + 8 <= block.Length
    modifies block
    ensures block[..d + 8] == old(block[..d]) + Store(h)
    ensures block[d + 8..] == old(block[d + 8..])
  {
    hide Store;
    var s := Store(h);
    for i := 0 to 8
      invariant block[..d + i] == old(block[..d]) + s[..i]
      invariant block[d + i..] == old(block[d + i..])
    {
      block[d + i] := s[i];
    }
    assert s[..8] == s;
  }
}
