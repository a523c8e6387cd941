/**
 The stream buffer an entity is serialized into. It grows by one cipher block at a time, each
 filled with random bytes first, so that what is encrypted is always whole blocks.
 */
module CryptBuffer {
  import opened Bytes
  import opened Options
  import opened HostSize
  import opened SecretsDevice

  const BLOCK: nat := 8

  type Noise = nat -> byte

  /** The encryption engine. It may refuse, and keeps lengths. */
  datatype Engine = Engine(enc: seq<byte> -> Option<seq<byte>>, dec: seq<byte> -> Option<seq<byte>>)

  ghost predicate KeepsLength(e: Engine) {
    forall s :: (e.enc(s).Some? ==> |e.enc(s).value| == |s|) && (e.dec(s).Some? ==> |e.dec(s).value| == |s|)
  }

  /** A ready engine undoes itself on whole blocks. */
  ghost predicate Ready(e: Engine) {
    KeepsLength(e) && forall s :: |s| % BLOCK == 0 ==> e.enc(s).Some? && e.dec(e.enc(s).value) == Some(s)
  }

  function RoundUp(n: nat): (r: nat)
    ensures r % BLOCK == 0 && n <= r < n + BLOCK
  {
    (n + BLOCK - 1) / BLOCK * BLOCK
  }

  lemma RoundUpNext(n: nat)
    ensures RoundUp(n + 1) == if n == RoundUp(n) then n + BLOCK else RoundUp(n)
    ensures RoundUp(0) == 0
  {
  }

  /** The random bytes from one offset to another. */
  function Garbage(noise: Noise, from: nat, to: nat): (s: seq<byte>)
    requires from <= to
    ensures |s| == to - from && forall i :: 0 <= i < |s| ==> s[i] == noise(from + i)
  {
    seq(to - from, i requires 0 <= i < to - from => noise(from + i))
  }

  /** The text a buffer was given, within whole blocks of random bytes and behind some. */
  function Placed(noise: Noise, start: nat, text: seq<byte>): (s: seq<byte>)
    ensures |s| == start + RoundUp(|text|)
    ensures forall i :: 0 <= i < |s| ==> s[i] == if start <= i < start + |text| then text[i - start] else noise(i)
  {
    seq(start + RoundUp(|text|),
        i requires 0 <= i < start + RoundUp(|text|) => if start <= i < start + |text| then text[i - start] else noise(i))
  }

  lemma PlacedFirst(noise: Noise, text: seq<byte>)
    ensures Placed(noise, 0, text) == text + Garbage(noise, |text|, RoundUp(|text|))
  {
  }

  /**
   What is written for a text: the encrypted blocks, random bytes if the engine refuses, which
   nobody asks, and nothing for no text.
   */
  function Encoded(engine: Engine, noise: Noise, start: nat, text: seq<byte>): seq<byte> {
    if text == [] then []
    else
      var r := engine.enc(Placed(noise, start, text));
      if r.Some? then r.value else Garbage(noise, 0, start + RoundUp(|text|))
  }

  class CryptBuffer {
    const engine: Engine
    /** What each offset of the decrypted buffer holds at first: random bytes, or whatever was in memory. */
    const noise: Noise

    var len: nat
    var encrypted: seq<byte>
    var decrypted: array?<byte>
    /** The put area, and the get area once there is one. */
    var pptr: nat
    var epptr: nat
    var hasGet: bool
    var gptr: nat
    var egptr: nat
    /** Where the text being put in begins: where the one encrypted before ended. */
    ghost var start: nat

    constructor (e: Engine, n: Noise)
      ensures engine == e && noise == n && Empty()
    {
      engine, noise := e, n;
      len, encrypted, decrypted := 0, [], null;
      pptr, epptr, hasGet, gptr, egptr, start := 0, 0, false, 0, 0, 0;
    }

    ghost predicate Empty()
      reads this
    {
      start == 0 && len == 0 && encrypted == [] && decrypted == null && pptr == 0 && epptr == 0 && !hasGet && gptr == 0 && egptr == 0
    }

    method Clear()
      modifies this
      ensures Empty()
    {
      len, encrypted, decrypted := 0, [], null;
      pptr, epptr, hasGet, gptr, egptr, start := 0, 0, false, 0, 0, 0;
    }

    // ----- Serializing -----

    /** The text put in so far, in whole blocks, behind those left from a text encrypted before. */
    ghost predicate Holds(text: seq<byte>)
      reads this, decrypted
    {
      && start % BLOCK == 0 && len == start + RoundUp(|text|)
      && (text == [] ==> decrypted == null && pptr == epptr == 0)
      && (text != [] ==>
            && decrypted != null && decrypted.Length == epptr == len && pptr == start + |text|
            && decrypted[..] == Placed(noise, start, text))
    }

    /** One more block, filled with random bytes; the put area begins where the old end was. */
    method Grow()
      requires decrypted != null ==> decrypted.Length == len
      modifies `len, `decrypted, `pptr, `epptr, `hasGet, `gptr, `egptr
      ensures fresh(decrypted) && decrypted.Length == epptr == len == old(len) + BLOCK && pptr == old(len)
      ensures forall i :: 0 <= i < len ==>
                decrypted[i] == if old(decrypted) != null && i < old(len) then old(decrypted[i]) else noise(i)
    {
      var oldLen := len;
      len := len + BLOCK;
      var grown := new byte[len](i => noise(i));
      if decrypted != null {
        forall i | 0 <= i < oldLen {
          grown[i] := decrypted[i];
        }
      }
      decrypted := grown;
      pptr, epptr := oldLen, len;
      hasGet, gptr, egptr := true, gptr, len;
    }

    /** Called with no room left: grows, and puts the byte in. */
    method Overflow(c: byte, ghost text: seq<byte>)
      requires Holds(text) && pptr == epptr
      modifies this
      ensures Holds(text + [c]) && fresh(decrypted) && start == old(start)
    {
      hide RoundUp;
      RoundUpNext(|text|);
      Grow();
      decrypted[pptr] := c;
      pptr := pptr + 1;
      assert decrypted[..] == Placed(noise, start, text + [c]);
    }

    /** Copies a byte to where there is room for it. */
    method Place(c: byte, ghost text: seq<byte>)
      requires Holds(text) && pptr < epptr
      modifies this, decrypted
      ensures Holds(text + [c]) && decrypted == old(decrypted) && start == old(start)
    {
      hide RoundUp;
      RoundUpNext(|text|);
      decrypted[pptr] := c;
      pptr := pptr + 1;
      assert decrypted[..] == Placed(noise, start, text + [c]);
    }

    /** `os.write`: byte by byte, with a new block whenever the last is full. */
    method Put(s: seq<byte>, ghost text: seq<byte>)
      requires Holds(text)
      modifies this, decrypted
      ensures Holds(text + s) && (decrypted == old(decrypted) || fresh(decrypted)) && start == old(start)
    {
      for i := 0 to |s|
        invariant Holds(text + s[..i]) && (decrypted == old(decrypted) || fresh(decrypted)) && start == old(start)
      {
        assert text + s[..i + 1] == (text + s[..i]) + [s[i]];
        if pptr < epptr {
          Place(s[i], text + s[..i]);
        } else {
          Overflow(s[i], text + s[..i]);
        }
      }
      assert s[..|s|] == s;
    }

    /** Encrypts the whole blocks; on failure the encrypted buffer keeps random bytes. */
    method Encrypt(ghost text: seq<byte>) returns (ok: bool)
      requires Holds(text) && KeepsLength(engine) && (text == [] ==> len == 0)
      modifies this
      ensures len == old(len)
      ensures ok <==> text != [] && engine.enc(Placed(noise, old(start), text)).Some?
      ensures text != [] ==> encrypted == Encoded(engine, noise, old(start), text) && |encrypted| == len
      ensures ok ==> Holds([]) && start == len
    {
      if len == 0 {
        return false;
      }
      encrypted := Garbage(noise, 0, len);
      var eres := engine.enc(decrypted[..]);
      if eres.None? {
        return false;
      }
      encrypted := eres.value;
      decrypted, pptr, epptr := null, 0, 0;
      start := len;
      return true;
    }

    /**
     The length, then the encrypted blocks. The length stays, so that a second text put into
     this buffer lands behind as many random bytes as the first one had blocks for.
     */
    method Write(file: Device, ghost text: seq<byte>) returns (ok: bool)
      requires Holds(text) && KeepsLength(engine) && (text == [] ==> len == 0)
      requires file.Following()
      modifies this, file`written, file`room, file.mac`fed
      ensures file.Following()
      ensures var sealed := Framed(Encoded(engine, noise, old(start), text));
              && (ok <==> |sealed| <= old(file.room))
              && (ok ==> file.written == old(file.written) + sealed && file.room == old(file.room) - |sealed|)
              && (ok ==> file.mac.fed == old(file.mac.fed) + sealed)
      ensures ok && text != [] && engine.enc(Placed(noise, old(start), text)).Some? ==>
                Holds([]) && start == old(start) + RoundUp(|text|)
      ensures old(file.written) <= file.written && |file.written| + file.room == |old(file.written)| + old(file.room)
    {
      hide Placed, PutSize, KeepsLength;
      EncodedLength(engine, noise, start, text);
      ghost var sealed := Encoded(engine, noise, start, text);
      Regroup(file.written, PutSize(len), sealed);
      Regroup(file.mac.fed, PutSize(len), sealed);
      ok := file.Write(PutSize(len));
      if ok {
        var eres := Encrypt(text);
        ok := file.Write(if len == 0 then [] else encrypted);
      }
    }

    // ----- Deserializing -----

    /** Takes a length and that many bytes, to be decrypted when they are first asked for. */
    method Read(file: Device) returns (ok: bool)
      requires file.Following()
      modifies this, file`unread, file`eof, file.mac`fed
      ensures file.Following()
      ensures ok <==> !old(file.eof) && GetFramed(old(file.unread)).Parsed?
      ensures ok ==> !file.eof && Parsed(encrypted, file.unread) == GetFramed(old(file.unread))
      ensures ok ==> old(file.unread) == Framed(encrypted) + file.unread
      ensures ok ==> file.mac.fed == old(file.mac.fed) + Framed(encrypted)
      ensures ok ==> len == |encrypted| && decrypted == null && !hasGet
      ensures file.eof <==> !ok
    {
      hide FromLe, PutSize;
      ghost var before := file.unread;
      FrameTaken(before);
      Clear();
      var data: seq<byte>;
      ok, data := file.Read(WIDTH);
      if !ok {
        return false;
      }
      ghost var field := data;
      len := FromLe(data);
      if len > 0 {
        ok, data := file.Read(len);
        if !ok {
          return false;
        }
        encrypted := data;
      }
      Regroup(old(file.mac.fed), field, encrypted);
      assert field + encrypted == Framed(encrypted);
    }

    /** What is still to be read from the buffer. */
    ghost function Remaining(): seq<byte>
      requires Readable()
      reads this, decrypted
    {
      if hasGet then decrypted[gptr..egptr]
      else if len > 0 && engine.dec(encrypted).Some? then engine.dec(encrypted).value
      else []
    }

    ghost predicate Readable()
      reads this, decrypted
    {
      && KeepsLength(engine) && len == |encrypted|
      && (hasGet ==> decrypted != null && gptr <= egptr <= decrypted.Length)
    }

    method Decrypt() returns (ok: bool)
      requires Readable() && !hasGet
      modifies this
      ensures Readable() && Remaining() == old(Remaining())
      ensures ok <==> hasGet
      ensures !ok ==> Remaining() == []
    {
      if len == 0 {
        return false;
      }
      var dres := engine.dec(encrypted);
      if dres.None? {
        Clear();
        return false;
      }
      var plain := dres.value;
      decrypted := new byte[len](i requires 0 <= i < |plain| => plain[i]);
      assert decrypted[..] == plain;
      hasGet, gptr, egptr := true, 0, len;
      pptr, epptr := 0, len;
      return true;
    }

    /** The next byte, without taking it. */
    method Underflow() returns (c: Option<byte>)
      requires Readable()
      modifies this
      ensures Readable() && Remaining() == old(Remaining())
      ensures c == if Remaining() == [] then None else Some(Remaining()[0])
      ensures c.Some? ==> hasGet && gptr < egptr
    {
      if !hasGet {
        var ok := Decrypt();
        if !ok {
          return None;
        }
      }
      if gptr < egptr {
        return Some(decrypted[gptr]);
      }
      return None;
    }

    /** Takes the byte that `Underflow` showed. */
    method Bump()
      requires Readable() && hasGet && gptr < egptr
      modifies `gptr
      ensures Readable() && Remaining() == old(Remaining())[1..]
    {
      gptr := gptr + 1;
    }

    /** Every byte an input stream over the buffer delivers. */
    method Drain() returns (text: seq<byte>)
      requires Readable()
      modifies this
      ensures text == old(Remaining())
    {
      hide Readable, Remaining;
      text := [];
      var c := Underflow();
      while c.Some?
        invariant Readable()
        invariant text + Remaining() == old(Remaining())
        invariant c == if Remaining() == [] then None else Some(Remaining()[0])
        invariant c.Some? ==> hasGet && gptr < egptr
        decreases |Remaining()|
      {
        text := text + [c.value];
        Bump();
        c := Underflow();
      }
    }
  }

  /** What is saved when the engine refuses does not depend on the text, but for its length. */
  lemma RefusedIsNoise(engine: Engine, noise: Noise, start: nat, text: seq<byte>, other: seq<byte>)
    requires |text| == |other| && engine.enc(Placed(noise, start, text)).None? && engine.enc(Placed(noise, start, other)).None?
    ensures Encoded(engine, noise, start, text) == Encoded(engine, noise, start, other)
    ensures text != [] ==> Encoded(engine, noise, start, text) == Garbage(noise, 0, start + RoundUp(|text|))
  {
  }

  lemma EncodedLength(engine: Engine, noise: Noise, start: nat, text: seq<byte>)
    requires KeepsLength(engine)
    ensures |Encoded(engine, noise, start, text)| == if text == [] then 0 else start + RoundUp(|text|)
  {
    assert engine.enc(Placed(noise, start, text)).Some? ==> |engine.enc(Placed(noise, start, text)).value| == start + RoundUp(|text|);
  }

  lemma Regroup(a: seq<byte>, b: seq<byte>, c: seq<byte>)
    ensures a + b + c == a + (b + c)
    ensures a + [] == a
  {
  }

  lemma EngineIsReady(e: Engine, s: seq<byte>)
    requires Ready(e)
    ensures KeepsLength(e) && (|s| % BLOCK == 0 ==> e.enc(s).Some? && |e.enc(s).value| == |s| && e.dec(e.enc(s).value) == Some(s))
  {
  }

  lemma FrameTaken(s: seq<byte>)
    ensures GetFramed(s).Parsed? ==> s == Framed(GetFramed(s).value) + GetFramed(s).rest
  {
    if GetFramed(s).Parsed? {
      SizeFits(s);
      FrameInverse(s, GetFramed(s).value, GetFramed(s).rest);
    }
  }
}
