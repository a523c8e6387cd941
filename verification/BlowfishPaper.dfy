/**
 Blowfish as B. Schneier describes it in "Description of a New Variable-Length Key, 64-Bit Block
 Cipher (Blowfish)", in numbers: the function F, the sixteen rounds, and what the subkeys are.
 This is the reference the implementation is compared with.
 */
module BlowfishPaper {
  import opened Bytes
  import opened Words

  function Plus(a: word, b: word): word { Mod32(Num(a) + Num(b)) }

  /** The word is divided into four eight-bit quarters a, b, c and d; box `j` is at `256 * j`. */
  function F(S: seq<word>, x: word): word
    requires |S| == 1024
  {
    var a, b, c, d := Num(x) / 0x100_0000, Num(x) / 0x1_0000 % 256, Num(x) / 0x100 % 256, Num(x) % 256;
    Plus(Plus(S[a], S[256 + b]) ^ S[512 + c], S[768 + d])
  }

  /**
   From round `i` on: the left half takes the subkey, the right half F of the left, and the two
   change places, except that the last exchange is undone before the last two subkeys are taken.
   */
  function Rounds(P: seq<word>, S: seq<word>, l: word, r: word, i: nat): (word, word)
    requires |P| == 18 && |S| == 1024 && i <= 16
    decreases 16 - i
  {
    if i == 16 then (r ^ P[17], l ^ P[16])
    else
      var x := l ^ P[i];
      Rounds(P, S, r ^ F(S, x), x, i + 1)
  }

  function Encrypt(P: seq<word>, S: seq<word>, l: word, r: word): (word, word)
    requires |P| == 18 && |S| == 1024
  {
    Rounds(P, S, l, r, 0)
  }

  /** Decryption is encryption with P1, P2, ..., P18 used in the reverse order. */
  function Decrypt(P: seq<word>, S: seq<word>, l: word, r: word): (word, word)
    requires |P| == 18 && |S| == 1024
  {
    Rounds(seq(18, i requires 0 <= i < 18 => P[17 - i]), S, l, r, 0)
  }

  /** The P-array takes the key, 32 bits to a subkey, over and over from the first bit to the last. */
  function Keyed(P: seq<word>, key: seq<byte>): (K: seq<word>)
    requires key != []
    ensures |K| == |P|
  {
    var n := |key|;
    seq(|P|, i requires 0 <= i < |P| =>
      P[i] ^ Mod32(FromBe32([key[4 * i % n], key[(4 * i + 1) % n], key[(4 * i + 2) % n], key[(4 * i + 3) % n]])))
  }

  /**
   Subkeys `T`, the P-array followed by the boxes, come from those the key was mixed into, `K`:
   the all-zero string is encrypted with the subkeys as they are, the result replaces the first
   two of them and is encrypted with those, and so on through all of them, in order.
   */
  ghost predicate Replaced(K: seq<word>, T: seq<word>)
    requires |K| == |T| == 1042
  {
    forall n :: 0 <= n < 521 ==> ReplacedAt(K, T, n)
  }

  ghost predicate ReplacedAt(K: seq<word>, T: seq<word>, n: nat)
    requires |K| == |T| == 1042 && n < 521
  {
    var U := T[..2 * n] + K[2 * n..];
    var (l, r) := if n == 0 then (0, 0) else (T[2 * n - 2], T[2 * n - 1]);
    (T[2 * n], T[2 * n + 1]) == Encrypt(U[..18], U[18..], l, r)
  }
}
