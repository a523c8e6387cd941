/** `password2hash`: up to four segments of the password, each hashed two thousand times. */
module PasswordHash {
  import opened Bytes
  import opened Sha1

  const ROUNDS: nat := 2000

  /** The digest of the digest of ... of `m`, `n` times. */
  function Iterate(m: seq<byte>, n: nat): (d: seq<byte>)
    ensures n > 0 ==> |d| == 20
  {
    if n == 0 then m else Digest(Iterate(m, n - 1))
  }

  /** Bytes 0-16, 16-32 and 32-48 of the password, then everything after. */
  function Segment(password: seq<byte>, i: nat): seq<byte>
    requires i < 4 && 16 * i <= |password|
  {
    if i == 3 || |password| <= 16 * i + 16 then password[16 * i..] else password[16 * i..16 * i + 16]
  }

  function Block(password: seq<byte>, i: nat): (b: seq<byte>)
    requires i < 4 && 16 * i <= |password|
    ensures |b| == 20
  {
    Iterate(Segment(password, i), ROUNDS)
  }

  /** The wallet key of a password. */
  function PasswordKey(password: seq<byte>): (hash: seq<byte>)
    ensures |hash| == if |password| <= 16 then 20 else if |password| <= 32 then 40 else 56
  {
    var n := |password|;
    if n <= 16 then Block(password, 0)
    else if n <= 32 then Block(password, 0) + Block(password, 1)
    else if n <= 48 then Block(password, 0) + Block(password, 1) + Block(password, 2)[..16]
    else Block(password, 0)[..14] + Block(password, 1)[..14] + Block(password, 2)[..14] + Block(password, 3)[..14]
  }

  /** How many segments a password has. */
  function SegmentCount(n: nat): (k: nat)
    ensures 1 <= k <= 4
  {
    if n <= 16 then 1 else if n <= 32 then 2 else if n <= 48 then 3 else 4
  }

  function Segments(password: seq<byte>, k: nat): (s: seq<seq<byte>>)
    requires k <= SegmentCount(|password|)
    ensures |s| == k
  {
    seq(k, i requires 0 <= i < k => Segment(password, i))
  }

  /** The segments tile the password: no byte is dropped and none is used twice. */
  lemma {:induction false} SegmentsTile(password: seq<byte>, k: nat)
    requires k <= SegmentCount(|password|)
    ensures Concat(Segments(password, k)) == if k == SegmentCount(|password|) then password else password[..16 * k]
  {
    if k == 0 {
    } else {
      SegmentsTile(password, k - 1);
      assert Segments(password, k)[..k - 1] == Segments(password, k - 1);
    }
  }

  // ----- What the key of a password is -----

  /** Hashing `a` times and then `b` times is hashing `a + b` times. */
  lemma {:induction false} IterateAdds(m: seq<byte>, a: nat, b: nat)
    ensures Iterate(m, a + b) == Iterate(Iterate(m, a), b)
    decreases b
  {
    hide Digest;
    if b == 0 {
    } else {
      IterateAdds(m, a, b - 1);
    }
  }

  /** The key of up to sixteen bytes is the digest of the digest of ... of them, two thousand times. */
  lemma ShortKey(password: seq<byte>)
    requires |password| <= 16
    ensures PasswordKey(password) == Iterate(password, 2000)
  {
    hide Iterate;
    assert Segment(password, 0) == password;
  }

  lemma SegmentKey(password: seq<byte>, i: nat, part: seq<byte>)
    requires i < 4 && 16 * i <= |password| && part == Segment(password, i)
    ensures Block(password, i) == Iterate(part, 2000)
    ensures |part| <= 16 ==> Block(password, i) == PasswordKey(part)
  {
    hide Iterate, Segment;
    if |part| <= 16 {
      ShortKey(part);
    }
  }

  /** The key of up to thirty-two bytes is the keys of its two parts. */
  lemma KeyOfTwo(a: seq<byte>, b: seq<byte>)
    requires |a| == 16 && 0 < |b| <= 16
    ensures PasswordKey(a + b) == PasswordKey(a) + PasswordKey(b)
  {
    hide Iterate, Block;
    var p := a + b;
    assert p[..16] == a && p[16..] == b;
    SegmentKey(p, 0, a);
    SegmentKey(p, 1, b);
  }

  /** Up to forty-eight bytes: of the third part, sixteen bytes of the key. */
  lemma KeyOfThree(a: seq<byte>, b: seq<byte>, c: seq<byte>)
    requires |a| == |b| == 16 && 0 < |c| <= 16
    ensures PasswordKey(a + b + c) == PasswordKey(a) + PasswordKey(b) + PasswordKey(c)[..16]
  {
    hide Iterate, Block;
    var p := a + b + c;
    assert p[..16] == a && p[16..32] == b && p[32..] == c;
    SegmentKey(p, 0, a);
    SegmentKey(p, 1, b);
    SegmentKey(p, 2, c);
  }

  /** Anything longer: fourteen bytes each, the fourth part being all that is left. */
  lemma KeyOfFour(a: seq<byte>, b: seq<byte>, c: seq<byte>, d: seq<byte>)
    requires |a| == |b| == |c| == 16 && d != []
    ensures PasswordKey(a + b + c + d) ==
            PasswordKey(a)[..14] + PasswordKey(b)[..14] + PasswordKey(c)[..14] + Iterate(d, 2000)[..14]
  {
    hide Iterate, Block;
    var p := a + b + c + d;
    assert p[..16] == a && p[16..32] == b && p[32..48] == c && p[48..] == d;
    SegmentKey(p, 0, a);
    SegmentKey(p, 1, b);
    SegmentKey(p, 2, c);
    SegmentKey(p, 3, d);
  }

  /** `for (i < 2000) { block = sha.hash(); sha.reset(); sha.process(block); }`, then a reset. */
  method Stretch(sha: SHA1, segment: seq<byte>) returns (block: seq<byte>)
    requires sha.Valid() && sha.ready && sha.seen == []
    modifies sha, sha.buf
    ensures sha.Valid() && sha.ready && sha.seen == []
    ensures block == Iterate(segment, ROUNDS)
  {
    hide SHA1.Buffered;
    block := [];
    var cnt := sha.Process(segment);
    assert cnt == |segment|;
    for i := 0 to ROUNDS
      invariant sha.Valid() && sha.ready
      invariant sha.seen == Iterate(segment, i)
      invariant i > 0 ==> block == Iterate(segment, i)
    {
      block := sha.Hash();
      sha.Reset();
      cnt := sha.Process(block);
      assert cnt == |block|;
    }
    sha.Reset();
  }

  method Password2Hash(password: seq<byte>) returns (hash: seq<byte>)
    ensures hash == PasswordKey(password)
  {
    hide Iterate, Block, SHA1.Buffered;
    var sha := new SHA1();
    BlockIs(password, 0);
    var block1 := Stretch(sha, password[..Min(|password|, 16)]);
    if |password| > 16 {
      BlockIs(password, 1);
      var block2 := Stretch(sha, password[16..16 + Min(|password| - 16, 16)]);
      if |password| > 32 {
        BlockIs(password, 2);
        var block3 := Stretch(sha, password[32..32 + Min(|password| - 32, 16)]);
        if |password| > 48 {
          BlockIs(password, 3);
          var block4 := Stretch(sha, password[48..]);
          hash := block1[..14] + block2[..14] + block3[..14] + block4[..14];
        } else {
          hash := block1 + block2 + block3[..16];
        }
      } else {
        hash := block1 + block2;
      }
    } else {
      hash := block1;
    }
  }

  function Min(a: nat, b: nat): nat { if a < b then a else b }

  lemma BlockIs(password: seq<byte>, i: nat)
    requires i < 4 && 16 * i <= |password|
    ensures Block(password, i)
         == Iterate(if i == 3 then password[48..] else password[16 * i..16 * i + Min(|password| - 16 * i, 16)], ROUNDS)
    ensures i == 0 ==> Block(password, i) == Iterate(password[..Min(|password|, 16)], ROUNDS)
  {
    hide Iterate;
    assert i < 3 ==> Segment(password, i) == password[16 * i..16 * i + Min(|password| - 16 * i, 16)];
    assert i == 0 ==> Segment(password, i) == password[..Min(|password|, 16)];
  }
}
