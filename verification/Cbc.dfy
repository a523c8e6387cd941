/** The `CipherBlockChain` object: a register, a spare register and two direction flags. */
module Cbc {
  import opened Bytes
  import opened Feistel
  import opened Blowfish
  import opened Chaining

  class CipherBlockChain {
    const cipher: BlowFish
    var register: array?<byte>
    var next: array?<byte>
    var len: int
    var reader: bool
    var writer: bool

    ghost predicate Valid()
      reads this, cipher, register, next
    {
      && cipher.Valid()
      && !(reader && writer)
      && ((reader || writer) <==> register != null)
      && (register != null ==> register.Length == len)
      && (next != null ==> reader && next.Length == len && next != register)
    }

    /** The object as a value. */
    ghost function State(): Chain
      requires Valid()
      reads this, cipher, register, next
    {
      if writer then Writer(register[..]) else if reader then Reader(register[..]) else Unused
    }

    ghost function TheCipher(): (c: Cipher)
      requires cipher.Valid()
      reads cipher, cipher.S, cipher.P
      ensures c.Valid()
    {
      Cipher(cipher.Current(), cipher.ready)
    }

    constructor (c: BlowFish)
      requires c.Valid()
      ensures Valid() && cipher == c && State() == Unused
    {
      cipher := c;
      register, next := null, null;
      len := -1;
      reader, writer := false, false;
    }

    method SetKey(k: seq<byte>, bitlength: int) returns (ok: bool)
      requires Valid()
      requires bitlength == 8 * |k| || bitlength <= 0 || bitlength > 448 || bitlength % 8 != 0
      modifies cipher, cipher.P, cipher.S
      ensures Valid() && State() == old(State())
      ensures var usable := 0 < bitlength <= 448 && bitlength % 8 == 0;
        && (usable ==> cipher.Current() == KeySchedule(cipher.constants, k))
        && ok == (usable && Strong(KeySchedule(cipher.constants, k).S))
      ensures cipher.ready == (old(cipher.ready) || ok)
    {
      ok := cipher.SetKey(k, bitlength);
    }

    /** `_register = new unsigned char[n]`, zeroed, on the first call. */
    method EnsureRegister(n: nat)
      requires Valid() || (cipher.Valid() && register == null && next == null && reader != writer)
      modifies `register, `len
      ensures cipher.Valid() && register != null && register.Length == len
      ensures old(register) != null ==> register == old(register) && len == old(len)
      ensures old(register) == null ==> fresh(register) && register[..] == Zeros(n)
    {
      if register == null {
        register := new byte[n](_ => 0);
        len := n;
        assert register[..] == Zeros(n);
      }
    }

    /** `tb[i] ^= _register[i]` over the buffer. */
    method Mask(block: array<byte>, n: nat, reg: array<byte>)
      requires n <= block.Length && n <= reg.Length && block != reg
      modifies block
      ensures block[..] == Xor(old(block[..n]), reg[..]) + old(block[n..])
    {
      for i := 0 to n
        invariant block[..i] == Xor(old(block[..n]), reg[..])[..i]
        invariant block[i..] == old(block[i..])
      {
        block[i] := block[i] ^ reg[i];
      }
    }

    /** `memcpy(to, from, n)`. */
    method Copy(to: array<byte>, from: array<byte>, n: nat)
      requires n <= to.Length && n <= from.Length && to != from
      modifies to
      ensures to[..] == from[..n] + old(to[n..])
    {
      forall i | 0 <= i < n {
        to[i] := from[i];
      }
    }

    method Encrypt(block: array<byte>, n: nat) returns (rc: int)
      requires Valid() && n <= block.Length
      requires block != register
      modifies this, register, block
      ensures Valid()
      ensures Outcome(State(), block[..], rc) == Encrypted(old(TheCipher()), old(State()), old(block[..]), n)
    {
      hide EncryptBlocks, Xor, Zeros;
      if reader {
        return -1;
      }
      writer := true;
      EnsureRegister(n);
      if n > len {
        return -1;
      }
      Mask(block, n, register);
      rc := cipher.Encrypt(block, n);
      if rc != -1 {
        Copy(register, block, n);
      }
    }

    /** Memory after the `n` bytes is read too when an earlier call was longer. */
    method Decrypt(block: array<byte>, n: nat) returns (rc: int)
      requires Valid() && n <= block.Length
      requires reader && n <= len ==> len <= block.Length
      requires block != register && block != next
      modifies this, register, next, block
      ensures Valid()
      ensures Outcome(State(), block[..], rc) == Decrypted(old(TheCipher()), old(State()), old(block[..]), n)
    {
      hide DecryptBlocks, Xor, Zeros, Decrypted;
      DecryptedIs(TheCipher(), State(), block[..], n);
      if writer {
        return -1;
      }
      reader := true;
      EnsureRegister(n);
      if n > len {
        return -1;
      }
      if next == null {
        next := new byte[len];
      }
      Copy(next, block, len);
      assert next[..] == block[..len];
      rc := Unmask(block, n, register);
      next, register := register, next;
    }

    /** The cipher's `decrypt`, then the register over what it gave. */
    method Unmask(block: array<byte>, n: nat, reg: array<byte>) returns (rc: int)
      requires cipher.Valid() && n <= block.Length && n <= reg.Length && block != reg
      modifies block
      ensures rc == if cipher.ready && n % 8 == 0 then n else -1
      ensures block[..] == if rc == -1 then old(block[..]) else Xor(DecryptBlocks(cipher.Current(), old(block[..n])), reg[..]) + old(block[n..])
    {
      hide DecryptBlocks, Xor;
      ghost var b := block[..];
      rc := cipher.Decrypt(block, n);
      if rc != -1 {
        assert block[..n] == DecryptBlocks(cipher.Current(), b[..n]) && block[n..] == b[n..];
        Mask(block, n, reg);
      }
    }
  }

  /** The cases of `Decrypted`, one per way out of the method. */
  lemma DecryptedIs(c: Cipher, chain: Chain, buf: seq<byte>, n: nat)
    requires c.Valid() && n <= |buf|
    requires chain.Reader? && n <= |chain.reg| ==> |chain.reg| <= |buf|
    ensures var reg := Register(chain, n); var o := Decrypted(c, chain, buf, n);
      && (chain.Writer? ==> o == Outcome(chain, buf, -1))
      && (!chain.Writer? && n > |reg| ==> o == Outcome(Reader(reg), buf, -1))
      && (!chain.Writer? && n <= |reg| && !(c.ready && n % 8 == 0) ==> o == Outcome(Reader(buf[..|reg|]), buf, -1))
      && (!chain.Writer? && n <= |reg| && c.ready && n % 8 == 0 ==>
            o == Outcome(Reader(buf[..|reg|]), Xor(DecryptBlocks(c.t, buf[..n]), reg) + buf[n..], n))
  {
  }
}
