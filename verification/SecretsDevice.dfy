/**
 The two halves of the secrets file that everything read or written goes through, and the
 authentication code that follows along.
 */
module SecretsDevice {
  import opened Bytes
  import opened Options
  import opened HostSize

  /** The code of a byte string under the stored key, and which codes are accepted for it. */
  datatype Authenticator = Authenticator(code: seq<byte> -> seq<byte>, accepts: (seq<byte>, seq<byte>) -> bool)

  /** A code is accepted for the bytes it was computed from. */
  ghost predicate Sound(a: Authenticator) {
    forall s :: a.accepts(s, a.code(s)) && Fits(|a.code(s)|)
  }

  class MAC {
    const auth: Authenticator
    /** Whether the library opened a handle, and whether the key is in the keyring. */
    const valid: bool
    const keyFound: bool

    var needInit: bool
    var ignoreUpdates: bool
    /** What the handle was fed since it was last set up. */
    var fed: seq<byte>

    constructor (a: Authenticator, isOpen: bool, key: bool)
      ensures auth == a && valid == isOpen && keyFound == key
      ensures needInit && Valid()
    {
      auth, valid, keyFound := a, isOpen, key;
      needInit, ignoreUpdates, fed := true, false, [];
    }

    /** Nothing is ignored before the key is set. */
    predicate Valid()
      reads this
    {
      needInit ==> !ignoreUpdates
    }

    method Reset() returns (ok: bool)
      modifies this
      ensures old(Valid()) ==> Valid()
      ensures ok <==> valid && (old(needInit) ==> keyFound)
      ensures ok ==> fed == [] && !needInit && !ignoreUpdates
      ensures !ok ==> unchanged(this)
    {
      if !valid {
        return false;
      }
      if needInit {
        if !keyFound {
          return false;
        }
        fed := [];
        needInit := false;
      } else {
        fed := [];
      }
      ignoreUpdates := false;
      return true;
    }

    method Stop()
      modifies `ignoreUpdates
      ensures ignoreUpdates
    {
      ignoreUpdates := true;
    }

    method Update(buffer: seq<byte>) returns (ok: bool)
      modifies `fed
      ensures ok <==> valid && (ignoreUpdates || !needInit)
      ensures fed == if ok && !ignoreUpdates then old(fed) + buffer else old(fed)
    {
      if !valid {
        return false;
      }
      if ignoreUpdates {
        return true;
      }
      if needInit {
        return false;
      }
      fed := fed + buffer;
      return true;
    }

    method Read() returns (r: Option<seq<byte>>)
      ensures r == if needInit then None else Some(auth.code(fed))
    {
      if needInit {
        return None;
      }
      return Some(auth.code(fed));
    }

    method Verify(buffer: seq<byte>) returns (ok: bool)
      ensures ok <==> !needInit && auth.accepts(fed, buffer)
    {
      if needInit {
        return false;
      }
      return auth.accepts(fed, buffer);
    }
  }

  class Device {
    const mac: MAC

    /** What is left to read of the open file, and what was written to the new one. */
    var unread: seq<byte>
    var written: seq<byte>
    /** How much the disk still takes. */
    var room: nat
    /** Set by a short read and never cleared. */
    var eof: bool

    constructor (m: MAC)
      ensures mac == m && unread == [] && written == [] && room == 0 && !eof
    {
      mac := m;
      unread, written, room, eof := [], [], 0, false;
    }

    /** Whether what passes through is taken into the code. */
    predicate Following()
      reads mac
    {
      mac.valid && !mac.needInit && !mac.ignoreUpdates
    }

    /** Whether what passes through gets past the code at all. */
    predicate Usable()
      reads mac
    {
      mac.valid && (mac.ignoreUpdates || !mac.needInit)
    }

    method Read(len: nat) returns (ok: bool, data: seq<byte>)
      modifies `unread, `eof, mac`fed
      ensures ok <==> !old(eof) && len <= |old(unread)| && Usable()
      ensures ok ==> data == old(unread)[..len] && unread == old(unread)[len..] && !eof
      ensures mac.fed == if ok && Following() then old(mac.fed) + data else old(mac.fed)
      ensures eof <==> old(eof) || len > |old(unread)|
    {
      data := [];
      if eof {
        return false, data;
      }
      if |unread| < len {
        unread, eof := [], true;
        return false, data;
      }
      data, unread := unread[..len], unread[len..];
      ok := mac.Update(data);
    }

    method Write(data: seq<byte>) returns (ok: bool)
      modifies `written, `room, mac`fed
      ensures ok <==> |data| <= old(room) && Usable()
      ensures ok ==> written == old(written) + data && room == old(room) - |data|
      ensures mac.fed == if ok && Following() then old(mac.fed) + data else old(mac.fed)
      ensures old(written) <= written && |written| + room == |old(written)| + old(room)
    {
      var n := if |data| < room then |data| else room;
      written, room := written + data[..n], room - n;
      if n < |data| {
        return false;
      }
      ok := mac.Update(data);
    }
  }
}
