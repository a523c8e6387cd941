/**
 Creating, saving and opening the secrets file. Every byte passes through the device, which
 feeds the authentication code until it is stopped in front of the code itself.
 */
module SecretsFile {
  import opened Bytes
  import opened Options
  import opened HostSize
  import opened SecretsDevice
  import opened CryptBuffer
  import opened TextCodec
  import opened SecretsImage
  import opened SaveSteps

  /** What is read of the next entity. */
  datatype Next = NextEntity(value: Entity) | NextError | NextAbort

  function NextOf(engine: Engine, junk: nat, s: seq<byte>): Next {
    if s == [] then NextError
    else if !KnownKind(s[0]) then NextAbort
    else
      match GetFramed(s[1..])
      case Short => NextError
      case Parsed(payload, _) =>
        match Unseal(engine, junk, Sealed(s[0], payload))
        case None => NextError
        case Some(e) => NextEntity(e)
  }

  /** What is left after it. */
  function AfterNext(s: seq<byte>): seq<byte> {
    if s != [] && GetFramed(s[1..]).Parsed? then GetFramed(s[1..]).rest else []
  }

  function Prepend(list: seq<Entity>, r: Entities): Entities {
    match r
    case Entities(more, rest) => Entities(list + more, rest)
    case _ => r
  }

  lemma ReadOneMore(engine: Engine, junk: nat, got: seq<Entity>, s: seq<byte>, n: nat)
    requires n > 0
    ensures var next := NextOf(engine, junk, s);
            Prepend(got, ReadEntities(engine, junk, s, n)) ==
            match next
            case NextError => ReadError
            case NextAbort => Abort
            case NextEntity(e) => Prepend(got + [e], ReadEntities(engine, junk, AfterNext(s), n - 1))
  {
    hide Unseal, GetFramed, KnownKind;
    var next := NextOf(engine, junk, s);
    if next.NextEntity? {
      var more := ReadEntities(engine, junk, AfterNext(s), n - 1);
      if more.Entities? {
        assert got + ([next.value] + more.list) == got + [next.value] + more.list;
      }
    }
  }

  lemma PrependNone(r: Entities)
    ensures Prepend([], r) == r
  {
    if r.Entities? {
      assert [] + r.list == r.list;
    }
  }

  /** Entries read before the others. */
  function SoFar(entries: seq<Text>, r: Option<seq<Text>>): Option<seq<Text>> {
    match r
    case None => None
    case Some(more) => Some(entries + more)
  }

  lemma AnotherEntry(entries: seq<Text>, e: Text, r: Option<seq<Text>>)
    ensures SoFar(entries + [e], r) == SoFar(entries, SoFar([e], r))
    ensures SoFar([], r) == r
  {
    if r.Some? {
      assert [] + r.value == r.value;
      assert entries + ([e] + r.value) == entries + [e] + r.value;
    }
  }

  lemma AllSealedAppend(a: seq<Sealed>, s: Sealed)
    ensures AllSealed(a + [s]) == AllSealed(a) + SealedBytes(s)
    decreases |a|
  {
    hide SealedBytes;
    if a == [] {
      assert a + [s] == [s];
      assert [s][1..] == [];
    } else {
      assert (a + [s])[1..] == a[1..] + [s];
      AllSealedAppend(a[1..], s);
    }
  }

  lemma CountedByParts(engine: Engine, junk: nat, s: seq<byte>)
    ensures Counted(engine, junk, s) ==
            if |s| < WIDTH then ReadError else SecretsImage.ReadEntities(engine, junk, s[WIDTH..], FromLe(s[..WIDTH]))
  {
    hide SecretsImage.ReadEntities, FromLe;
  }

  lemma JoinParts<T>(s: seq<T>, k: nat)
    requires k <= |s|
    ensures s[..k] + s[k..] == s
    ensures forall p: seq<T> :: p + s[..k] + s[k..] == p + s
  {
    forall p: seq<T> ensures p + s[..k] + s[k..] == p + s {
      assert p + s[..k] + s[k..] == p + (s[..k] + s[k..]);
    }
  }

  lemma HeadHasMagic(file: seq<byte>)
    requires |file| >= HEAD
    ensures HasMagic(file[..HEAD]) <==> HasMagic(file)
  {
    assert file[..HEAD][..|MAGIC|] == file[..|MAGIC|];
  }

  lemma SealIs(engine: Engine, noise: Noise, e: Entity)
    requires Serializable(e)
    ensures SealedBytes(Seal(engine, noise, e)) == [Kind(e)] + Framed(Encoded(engine, noise, 0, Serialized(e).value))
  {
    hide Encoded, Framed, Serialized, Kind;
  }

  lemma BodyIs(head: seq<byte>, es: seq<Sealed>)
    ensures Body(head, es) == head + PutSize(|es|) + AllSealed(es)
    ensures |Body(head, es)| == |head| + WIDTH + |AllSealed(es)|
  {
  }

  class SecretsFile {
    const engine: Engine
    const device: Device
    /** What a number holds before it is read. */
    const junk: nat

    var fileHead: seq<byte>
    var entities: seq<Entity>
    var locked: bool
    /** The files under this one's path. */
    var disk: Disk

    constructor (e: Engine, d: Device, j: nat, files: Disk)
      ensures engine == e && device == d && junk == j && disk == files
      ensures fileHead == Zeros(HEAD) && entities == [] && !locked
    {
      engine, device, junk, disk := e, d, j, files;
      fileHead, entities, locked := Zeros(HEAD), [], false;
    }

    // ----- Opening -----

    /** The entries of a directory: as many as announced, or failure at the first bad one. */
    method DeserializeDirectory(text: Text) returns (r: Option<seq<Text>>)
      ensures r == ReadDirectory(In(text, true), junk)
    {
      hide ReadString, ReadNumber;
      var n := ReadNumber(In(text, true), junk);
      var stream := n.after;
      var entries: seq<Text> := [];
      AnotherEntry([], [], ReadStrings(stream, n.value));
      for i := 0 to n.value
        invariant ReadDirectory(In(text, true), junk) ==
                  SoFar(entries, ReadStrings(stream, n.value - i))
      {
        var entry := ReadString(stream, []);
        stream := entry.after;
        if !stream.good {
          return None;
        }
        AnotherEntry(entries, entry.value, ReadStrings(stream, n.value - i - 1));
        entries := entries + [entry.value];
      }
      assert entries + [] == entries;
      return Some(entries);
    }

    method DeserializeEntity(kind: byte, text: Text) returns (r: Option<Entity>)
      requires KnownKind(kind)
      ensures r == Deserialized(kind, text, junk)
    {
      if kind == 1 {
        var entries := DeserializeDirectory(text);
        return if entries.None? then None else Some(Directory(entries.value));
      } else if kind == 3 {
        var name := ReadString(In(text, true), []);
        var count := ReadNumber(name.after, junk);
        return Some(Collection(name.value, count.value));
      }
      return None;
    }

    /** The entity behind a type: its buffer, then what that says once decrypted. */
    method ReadEntity(kind: byte) returns (r: Option<Entity>)
      requires KnownKind(kind) && KeepsLength(engine) && device.Following()
      modifies device`unread, device`eof, device.mac`fed
      ensures device.Following()
      ensures var frame := GetFramed(old(device.unread));
              && r == (if !old(device.eof) && frame.Parsed? then Unseal(engine, junk, Sealed(kind, frame.value)) else None)
              && (r.Some? ==> !device.eof && device.unread == frame.rest)
              && (r.Some? ==> device.mac.fed + device.unread == old(device.mac.fed + device.unread))
    {
      hide GetFramed, Framed, Deserialized, KeepsLength;
      var buffer := new CryptBuffer(engine, _ => 0);
      var ok := buffer.Read(device);
      if !ok {
        return None;
      }
      ghost var payload := buffer.encrypted;
      var text := buffer.Drain();
      assert text == Plain(engine, payload);
      r := DeserializeEntity(kind, text);
    }

    method ReadNextEntity(justCheck: bool) returns (r: Next)
      requires KeepsLength(engine) && device.Following()
      modifies device`unread, device`eof, device.mac`fed, `entities
      ensures device.Following()
      ensures r == if old(device.eof) then NextError else NextOf(engine, junk, old(device.unread))
      ensures entities == if justCheck || !r.NextEntity? then old(entities) else old(entities) + [r.value]
      ensures r.NextEntity? ==> !device.eof && device.unread == AfterNext(old(device.unread))
      ensures r.NextEntity? ==> device.mac.fed + device.unread == old(device.mac.fed + device.unread)
    {
      hide GetFramed, Unseal, KeepsLength;
      ghost var before := device.unread;
      var ok, et := device.Read(1);
      if !ok {
        return NextError;
      }
      assert et[0] == before[0] && before == et + before[1..];
      if !KnownKind(et[0]) {
        return NextAbort;
      }
      var entity := ReadEntity(et[0]);
      if entity.None? {
        return NextError;
      }
      if !justCheck {
        entities := entities + [entity.value];
      }
      return NextEntity(entity.value);
    }

    /** What has been read and what is still to be read together make up the whole. */
    ghost predicate Midway(whole: Entities, list: seq<Entity>, left: nat, file: seq<byte>)
      reads this, device, device.mac
    {
      && device.Following() && !device.eof && device.mac.fed + device.unread == file
      && whole == Prepend(list, SecretsImage.ReadEntities(engine, junk, device.unread, left))
    }

    lemma MidwayAtEnds(whole: Entities, list: seq<Entity>, n: nat, file: seq<byte>)
      requires device.Following() && !device.eof && file == device.mac.fed + device.unread
      ensures whole == SecretsImage.ReadEntities(engine, junk, device.unread, n) ==> Midway(whole, [], n, file)
      ensures Midway(whole, list, 0, file) ==> whole == Entities(list, device.unread)
    {
      PrependNone(SecretsImage.ReadEntities(engine, junk, device.unread, n));
      assert list + [] == list;
    }

    lemma MidwayFollows(whole: Entities, list: seq<Entity>, n: nat, file: seq<byte>)
      requires Midway(whole, list, n, file)
      ensures device.Following() && !device.eof && device.mac.fed + device.unread == file
    {
    }

    /** One entity of those counted. */
    method ReadCountedOne(justCheck: bool, ghost whole: Entities, ghost list: seq<Entity>, ghost left: nat, ghost file: seq<byte>)
        returns (next: Next)
      requires KeepsLength(engine) && left > 0 && Midway(whole, list, left, file)
      modifies device`unread, device`eof, device.mac`fed, `entities
      ensures device.Following()
      ensures match next
              case NextError => whole == ReadError
              case NextAbort => whole == Abort
              case NextEntity(e) =>
                && Midway(whole, list + [e], left - 1, file)
                && entities == (if justCheck then old(entities) else old(entities) + [e])
    {
      hide NextOf, AfterNext, KeepsLength, SecretsImage.ReadEntities;
      ReadOneMore(engine, junk, list, device.unread, left);
      next := ReadNextEntity(justCheck);
    }

    method ReadCounted(count: nat, justCheck: bool) returns (r: Status)
      requires KeepsLength(engine) && device.Following() && !device.eof
      modifies device`unread, device`eof, device.mac`fed, `entities
      ensures device.Following()
      ensures match SecretsImage.ReadEntities(engine, junk, old(device.unread), count)
              case ReadError => r == EntitiesReadError
              case Abort => r == Aborted
              case Entities(list, rest) =>
                && r == Ok && device.unread == rest && !device.eof
                && entities == (if justCheck then old(entities) else old(entities) + list)
                && device.mac.fed + rest == old(device.mac.fed + device.unread)
    {
      hide KeepsLength, Midway, SecretsImage.ReadEntities;
      var entityCount := count;
      ghost var list: seq<Entity> := [];
      ghost var file := device.mac.fed + device.unread;
      ghost var whole := SecretsImage.ReadEntities(engine, junk, device.unread, count);
      MidwayAtEnds(whole, [], count, file);
      while entityCount > 0
        invariant Midway(whole, list, entityCount, file)
        invariant entities == if justCheck then old(entities) else old(entities) + list
        decreases entityCount
      {
        var next := ReadCountedOne(justCheck, whole, list, entityCount, file);
        entityCount := entityCount - 1;
        match next {
          case NextError => return EntitiesReadError;
          case NextAbort => return Aborted;
          case NextEntity(e) => list := list + [e];
        }
      }
      MidwayFollows(whole, list, 0, file);
      MidwayAtEnds(whole, list, 0, file);
      return Ok;
    }

    /** The count, and that many entities. */
    method ReadEntities(justCheck: bool) returns (r: Status)
      requires KeepsLength(engine) && device.Following() && !device.eof
      modifies device`unread, device`eof, device.mac`fed, `entities
      ensures device.Following()
      ensures match Counted(engine, junk, old(device.unread))
              case ReadError => r == EntitiesReadError
              case Abort => r == Aborted
              case Entities(list, rest) =>
                && r == Ok && device.unread == rest && !device.eof
                && entities == (if justCheck then old(entities) else list)
                && device.mac.fed + rest == old(device.mac.fed + device.unread)
    {
      hide SecretsImage.ReadEntities, KeepsLength, FromLe, PutSize, Counted;
      CountedByParts(engine, junk, device.unread);
      if !justCheck {
        entities := [];
      }
      ghost var before := device.unread;
      var ok, data := device.Read(WIDTH);
      if !ok {
        return EntitiesReadError;
      }
      JoinParts(before, WIDTH);
      r := ReadCounted(FromLe(data), justCheck);
    }

    /** Stops the code, reads the one in the file and compares. */
    method ReadCheckMac() returns (ok: bool)
      requires device.Following() && !device.eof
      modifies device`unread, device`eof, device.mac`fed, device.mac`ignoreUpdates
      ensures ok <==> CheckMac(device.mac.auth, old(device.mac.fed), old(device.unread))
      ensures ok ==> !device.eof
    {
      hide FromLe, PutSize;
      device.mac.Stop();
      var data: seq<byte>;
      ok, data := device.Read(WIDTH);
      if !ok {
        return false;
      }
      ok, data := device.Read(FromLe(data));
      if !ok {
        return false;
      }
      ok := device.mac.Verify(data);
    }

    /** The entities and the code, of a file whose header has been read. */
    method CheckContents(justCheck: bool, ghost file: seq<byte>) returns (r: Status)
      requires KeepsLength(engine) && device.Following() && !device.eof
      requires file == device.mac.fed + device.unread
      modifies device`unread, device`eof, device.mac`fed, device.mac`ignoreUpdates, `entities
      ensures device.mac.Valid()
      ensures var opening := OpenContents(engine, device.mac.auth, junk, file, old(device.unread));
              && r == opening.status
              && (r.Ok? ==> entities == (if justCheck then old(entities) else opening.list) && !device.eof)
    {
      hide Counted, KeepsLength, CheckMac, Before;
      r := ReadEntities(justCheck);
      if r != Ok {
        return;
      }
      BeforeIs(device.mac.fed, device.unread);
      var ok := ReadCheckMac();
      if !ok {
        return IntegrityCheckFailed;
      }
    }

    /** Everything from the header on, if the code has been set up. */
    method ReadAndCheck(justCheck: bool) returns (r: Status)
      requires KeepsLength(engine) && device.mac.Valid()
      requires device.mac.valid && !device.mac.needInit ==> device.mac.fed == [] && !device.mac.ignoreUpdates
      modifies `fileHead, `entities, device`unread, device`eof, device.mac`fed, device.mac`ignoreUpdates
      ensures device.mac.Valid()
      ensures var opening := Open(engine, device.mac.auth, junk, old(device.unread));
              && r == (if old(device.eof) || !device.mac.valid || device.mac.needInit then CannotReadHeader else opening.status)
              && (r.Ok? ==> entities == (if justCheck then old(entities) else opening.list))
              && (r.Ok? ==> |old(device.unread)| >= HEAD && fileHead == old(device.unread)[..HEAD] && !device.eof)
    {
      hide OpenContents, KeepsLength, HasMagic;
      ghost var file := device.unread;
      var ok, head := device.Read(HEAD);
      if !ok {
        return CannotReadHeader;
      }
      fileHead := head;
      HeadHasMagic(file);
      if !HasMagic(fileHead) {
        return UnknownHeader;
      }
      r := CheckContents(justCheck, file);
    }

    /**
     Opens the file at the path, if there is one, and checks it. The result is that of `Open`
     on its bytes, unless an earlier short read left its mark or the code cannot be set up.
     */
    method OpenAndCheck(file: Option<seq<byte>>, lockFile: bool, lockWorks: bool, justCheck: bool) returns (r: Status)
      requires KeepsLength(engine) && device.mac.Valid()
      modifies `fileHead, `entities, `locked, device, device.mac
      ensures device.mac.Valid()
      ensures var opening := Open(engine, device.mac.auth, junk, if file.Some? then file.value else []);
              && r == (if file.None? then CannotOpenFile
                       else if lockFile && !lockWorks then CannotLockFile
                       else if old(device.eof) || !device.mac.valid || (old(device.mac.needInit) && !device.mac.keyFound) then CannotReadHeader
                       else opening.status)
              && (r.Ok? ==> entities == (if justCheck then old(entities) else opening.list))
              && (r.Ok? ==> fileHead == file.value[..HEAD] && !device.eof)
      ensures device.written == old(device.written) && device.room == old(device.room)
      ensures device.mac.needInit == (old(device.mac.needInit) && !(device.mac.valid && device.mac.keyFound))
      ensures file.None? && device.mac.valid && !device.mac.needInit ==> device.mac.fed == []
    {
      hide OpenContents, KeepsLength, Open;
      var keyed := device.mac.Reset();
      if file.None? {
        return CannotOpenFile;
      }
      device.unread := file.value;
      if lockFile {
        locked := true;
        if !lockWorks {
          return CannotLockFile;
        }
      }
      keyed := device.mac.Reset();
      r := ReadAndCheck(justCheck);
    }

    // ----- Saving -----

    /** `os << str` */
    method PutString(buffer: CryptBuffer, s: Text, ghost text: Text)
      requires buffer.Holds(text)
      modifies buffer, buffer.decrypted
      ensures buffer.Holds(text + PrintString(s)) && buffer.start == old(buffer.start)
      ensures buffer.decrypted == old(buffer.decrypted) || fresh(buffer.decrypted)
    {
      hide CryptBuffer.Holds, Decimal;
      buffer.Put([SPACE], text);
      buffer.Put(Decimal(|s|), text + [SPACE]);
      buffer.Put([COLON], text + [SPACE] + Decimal(|s|));
      buffer.Put(s, text + [SPACE] + Decimal(|s|) + [COLON]);
      assert text + [SPACE] + Decimal(|s|) + [COLON] + s == text + PrintString(s);
    }

    /** The text of an entity, in an empty buffer. */
    method Serialize(e: Entity, buffer: CryptBuffer) returns (ok: bool)
      requires buffer.Empty()
      modifies buffer
      ensures ok <==> Serializable(e)
      ensures ok ==> buffer.Holds(Serialized(e).value) && buffer.start == 0
    {
      hide CryptBuffer.Holds, Decimal, PrintString;
      EmptyHolds(buffer);
      match e
      case Directory(entries) =>
        buffer.Put([SPACE], []);
        buffer.Put(Decimal(|entries|), [] + [SPACE]);
        ghost var text := [] + [SPACE] + Decimal(|entries|);
        assert text + PrintStrings(entries) == PrintDirectory(entries);
        for i := 0 to |entries|
          invariant buffer.Holds(text) && buffer.start == 0 && (buffer.decrypted == null || fresh(buffer.decrypted))
          invariant text + PrintStrings(entries[i..]) == PrintDirectory(entries)
        {
          PutString(buffer, entries[i], text);
          assert entries[i..][0] == entries[i] && entries[i..][1..] == entries[i + 1..];
          text := text + PrintString(entries[i]);
        }
        assert text == PrintDirectory(entries);
        return true;
      case Collection(name, count) =>
        PutString(buffer, name, []);
        buffer.Put([SPACE], [] + PrintString(name));
        buffer.Put(Decimal(count), [] + PrintString(name) + [SPACE]);
        assert [] + PrintString(name) + [SPACE] + Decimal(count) == PrintCollection(name, count);
        return true;
      case _ =>
        return false;
    }

    /** The type, then the entity encrypted. */
    method SaveEntity(e: Entity, noise: Noise) returns (ok: bool)
      requires KeepsLength(engine) && device.Following()
      modifies device`written, device`room, device.mac`fed
      ensures device.Following()
      ensures |device.written| + device.room == |old(device.written)| + old(device.room)
      ensures ok <==> Serializable(e) && |SealedBytes(Seal(engine, noise, e))| <= old(device.room)
      ensures ok ==> device.written == old(device.written) + SealedBytes(Seal(engine, noise, e))
      ensures ok ==> device.mac.fed == old(device.mac.fed) + SealedBytes(Seal(engine, noise, e))
    {
      hide Framed, Encoded, KeepsLength, Serialized, Kind, Seal, SealedBytes, CryptBuffer.Holds;
      if Serializable(e) {
        SealIs(engine, noise, e);
        ghost var sealed := Framed(Encoded(engine, noise, 0, Serialized(e).value));
        Regroup(device.written, [Kind(e)], sealed);
        Regroup(device.mac.fed, [Kind(e)], sealed);
      }
      ok := device.Write([Kind(e)]);
      if !ok {
        return false;
      }
      var buffer := new CryptBuffer(engine, noise);
      ok := Serialize(e, buffer);
      if !ok {
        return false;
      }
      ok := buffer.Write(device, Serialized(e).value);
    }

    /** Stops the code and writes it behind its length. */
    method SaveMac() returns (ok: bool)
      requires device.Following()
      modifies device`written, device`room, device.mac`fed, device.mac`ignoreUpdates
      ensures var code := Framed(device.mac.auth.code(old(device.mac.fed)));
              && (ok <==> |code| <= old(device.room))
              && (ok ==> device.written == old(device.written) + code)
      ensures device.mac.Valid()
    {
      hide PutSize;
      device.mac.Stop();
      var buf := device.mac.Read();
      ok := device.Write(PutSize(|buf.value|));
      if !ok {
        return false;
      }
      ok := device.Write(buf.value);
    }

    /** The entities one after the other; those before have been written. */
    method SaveEntities(noises: nat -> Noise) returns (ok: bool)
      requires KeepsLength(engine) && device.Following()
      modifies device`written, device`room, device.mac`fed
      ensures device.Following()
      ensures |device.written| + device.room == |old(device.written)| + old(device.room)
      ensures ok <==> AllSerializable(entities) && |AllSealed(SealAll(engine, noises, entities))| <= old(device.room)
      ensures ok ==> device.written == old(device.written) + AllSealed(SealAll(engine, noises, entities))
      ensures ok ==> device.mac.fed == old(device.mac.fed) + AllSealed(SealAll(engine, noises, entities))
    {
      hide Seal, SealedBytes, KeepsLength, AllSealed, SealAll, AllSerializable;
      NothingSealed(engine, noises, entities);
      ghost var done: seq<Sealed> := [];
      for i := 0 to |entities|
        invariant device.Following()
        invariant |device.written| + device.room == |old(device.written)| + old(device.room)
        invariant AllSerializable(entities[..i]) && done == SealAll(engine, noises, entities[..i])
        invariant device.written == old(device.written) + AllSealed(done)
        invariant device.mac.fed == old(device.mac.fed) + AllSealed(done)
      {
        ok := SaveEntity(entities[i], noises(i));
        if !ok {
          NotAll(entities, i);
          if AllSerializable(entities) {
            SealedUpTo(engine, noises, entities, i);
          }
          return false;
        }
        SealNext(engine, noises, entities, i);
        ghost var next := SealedBytes(Seal(engine, noises(i), entities[i]));
        Regroup(old(device.written), AllSealed(done), next);
        Regroup(old(device.mac.fed), AllSealed(done), next);
        AllSealedAppend(done, Seal(engine, noises(i), entities[i]));
        done := SealAll(engine, noises, entities[..i + 1]);
      }
      assert entities[..|entities|] == entities;
      return true;
    }

    /** Header, count and entities. */
    method WriteBody(noises: nat -> Noise) returns (ok: bool)
      requires KeepsLength(engine) && device.Following() && device.written == device.mac.fed == []
      modifies device`written, device`room, device.mac`fed
      ensures device.Following()
      ensures |device.written| + device.room == old(device.room)
      ensures ok <==> AllSerializable(entities) && |Body(fileHead, SealAll(engine, noises, entities))| <= old(device.room)
      ensures ok ==> device.written == device.mac.fed == Body(fileHead, SealAll(engine, noises, entities))
    {
      hide KeepsLength, AllSealed, PutSize, AllSerializable, SealAll, Body;
      if AllSerializable(entities) {
        BodyIs(fileHead, SealAll(engine, noises, entities));
      }
      ok := device.Write(fileHead);
      if !ok {
        return false;
      }
      ok := device.Write(PutSize(|entities|));
      if !ok {
        return false;
      }
      ok := SaveEntities(noises);
    }

    /**
     Writes everything to the temporary file. It succeeds exactly if the file and the key are
     there, every entity can be serialized and the disk takes it all; then it is the image.
     */
    method WriteTemp(tempOpens: bool, room: nat, noises: nat -> Noise) returns (ok: bool)
      requires KeepsLength(engine) && device.mac.Valid()
      modifies device`written, device`room, device.mac
      ensures device.mac.Valid() && (ok ==> !device.mac.needInit)
      ensures ok <==> tempOpens && device.mac.valid && (old(device.mac.needInit) ==> device.mac.keyFound)
                      && AllSerializable(entities)
                      && |Image(device.mac.auth, fileHead, SealAll(engine, noises, entities))| <= room
      ensures ok ==> device.written == Image(device.mac.auth, fileHead, SealAll(engine, noises, entities))
    {
      hide KeepsLength, Body, Framed, AllSerializable, SealAll;
      if !tempOpens {
        return false;
      }
      device.written, device.room := [], room;
      ok := device.mac.Reset();
      if !ok {
        return false;
      }
      ok := WriteBody(noises);
      if !ok {
        return false;
      }
      ok := SaveMac();
    }

    /** Moves the file to the backup and the temporary file, which holds an image, in its place. */
    method BackupAndReplace(image: Content, backupWorks: bool, moveWorks: bool, ghost committed: Content)
        returns (ok: bool, ghost steps: seq<Step>)
      requires disk.temp == Some(image)
      modifies `disk
      ensures ok <==> old(disk.path).Some? && backupWorks && moveWorks
      ensures disk == if old(disk.path).None? || !backupWorks then old(disk)
                      else if !moveWorks then Disk(None, old(disk.path), Some(image))
                      else Disk(Some(image), old(disk.path), None)
      ensures Took(old(disk).(temp := None), steps, disk, committed)
    {
      var s := State(disk.(temp := None), Idle, committed);
      RunWritten(s, image);
      if disk.path.None? || !backupWorks {
        RunAppend(s, [OpenTemp(image), Append(image), Finish], [Stop]);
        return false, [OpenTemp(image), Append(image), Finish] + [Stop];
      }
      RunToBackUp(s, image);
      disk := Disk(None, disk.path, disk.temp);
      if !moveWorks {
        TakeStep(Run(s, ToBackUp(image)), Stop, []);
        RunAppend(s, ToBackUp(image), [Stop]);
        return false, ToBackUp(image) + [Stop];
      }
      disk := Disk(disk.temp, disk.backup, None);
      TakeStep(Run(s, ToBackUp(image)), MoveTemp, []);
      RunAppend(s, ToBackUp(image), [MoveTemp]);
      return true, ToBackUp(image) + [MoveTemp];
    }

    /** Whether a file passes the check. */
    predicate Opens(file: Content) {
      Open(engine, device.mac.auth, junk, file).status.Ok?
    }

    /**
     A save: the temporary file, the two renames, and opening the result. Whatever goes wrong,
     the files are as some run of the steps leaves them.
     */
    method Save(tempOpens: bool, room: nat, noises: nat -> Noise, linkReads: bool, backupWorks: bool, moveWorks: bool,
                lockWorks: bool, ghost committed: Content)
        returns (ok: bool, ghost steps: seq<Step>)
      requires KeepsLength(engine) && device.mac.Valid()
      modifies this, device, device.mac
      ensures device.mac.Valid()
      ensures Took(old(disk).(temp := None), steps, disk, committed) || (!tempOpens && disk == old(disk))
      ensures var auth := device.mac.auth;
              ok <==> && tempOpens && linkReads && backupWorks && moveWorks && old(disk.path).Some?
                      && device.mac.valid && (old(device.mac.needInit) ==> device.mac.keyFound)
                      && AllSerializable(old(entities))
                      && (var image := Image(auth, old(fileHead), SealAll(engine, noises, old(entities)));
                          && |image| <= room && !old(device.eof) && (old(locked) ==> lockWorks)
                          && Open(engine, auth, junk, image).status.Ok?)
      ensures var written := tempOpens && device.mac.valid && (old(device.mac.needInit) ==> device.mac.keyFound)
                             && AllSerializable(old(entities))
                             && |Image(device.mac.auth, old(fileHead), SealAll(engine, noises, old(entities)))| <= room;
              && (written ==> device.written == Image(device.mac.auth, old(fileHead), SealAll(engine, noises, old(entities))))
              && disk == if !tempOpens then old(disk)
                         else if !written || !linkReads || old(disk.path).None? || !backupWorks then old(disk).(temp := Some(device.written))
                         else if !moveWorks then Disk(None, old(disk.path), Some(device.written))
                         else Disk(Some(device.written), old(disk.path), None)
      ensures ok ==> entities == old(entities)
      ensures old(disk.path).Some? && Opens(old(disk.path).value) ==> Recoverable(Opens, disk)
      ensures ok ==> disk.path.Some? && Opens(disk.path.value)
    {
      hide KeepsLength, Image, Open, SealAll, AllSerializable, Took;
      ok := WriteTemp(tempOpens, room, noises);
      if !tempOpens {
        return false, [];
      }
      var image := device.written;
      ghost var before := disk;
      disk := disk.(temp := Some(image));
      if !ok || !linkReads {
        ToppedOff(before.(temp := None), image, committed);
        return false, [OpenTemp(image), Append(image), Stop];
      }
      ok, steps := BackupAndReplace(image, backupWorks, moveWorks, committed);
      if !ok {
        return;
      }
      var status := OpenAndCheck(disk.path, locked, lockWorks, true);
      ok := status.Ok?;
    }
  }

  lemma EmptyHolds(buffer: CryptBuffer)
    requires buffer.Empty()
    ensures buffer.Holds([])
  {
  }

  lemma {:induction false} AllSealedSplit(a: seq<Sealed>, b: seq<Sealed>)
    ensures AllSealed(a + b) == AllSealed(a) + AllSealed(b)
    decreases |a|
  {
    hide SealedBytes;
    if a == [] {
      assert a + b == b;
    } else {
      assert (a + b)[1..] == a[1..] + b;
      AllSealedSplit(a[1..], b);
    }
  }

  lemma NotAll(es: seq<Entity>, i: nat)
    requires i < |es|
    ensures !Serializable(es[i]) ==> !AllSerializable(es)
  {
  }

  lemma NothingSealed(engine: Engine, noises: nat -> Noise, es: seq<Entity>)
    ensures AllSerializable(es[..0]) && SealAll(engine, noises, es[..0]) == [] && AllSealed([]) == []
  {
  }

  lemma SealNext(engine: Engine, noises: nat -> Noise, es: seq<Entity>, i: nat)
    requires i < |es| && AllSerializable(es[..i]) && Serializable(es[i])
    ensures AllSerializable(es[..i + 1])
    ensures SealAll(engine, noises, es[..i + 1]) == SealAll(engine, noises, es[..i]) + [Seal(engine, noises(i), es[i])]
  {
    hide Seal, Serializable;
    assert es[..i + 1] == es[..i] + [es[i]];
  }

  /** The whole is longer than the part up to any entity. */
  lemma SealedUpTo(engine: Engine, noises: nat -> Noise, es: seq<Entity>, i: nat)
    requires AllSerializable(es) && i < |es|
    ensures |AllSealed(SealAll(engine, noises, es))| >=
            |AllSealed(SealAll(engine, noises, es[..i]))| + |SealedBytes(Seal(engine, noises(i), es[i]))|
  {
    hide Seal, SealedBytes;
    var all := SealAll(engine, noises, es);
    assert SealAll(engine, noises, es[..i]) == all[..i];
    assert all == all[..i] + all[i..];
    AllSealedSplit(all[..i], all[i..]);
  }

  // ----- Creating -----

  /** What a write returns that the disk may cut short: -1 once nothing more fits. */
  function Wrote(n: nat, room: nat): int {
    if n > 0 && room == 0 then -1 else if n < room then n else room
  }

  /** What the disk takes of some bytes. */
  function Cut(data: seq<byte>, room: nat): (r: seq<byte>)
    ensures r <= data && |r| == if |data| < room then |data| else room
  {
    if |data| < room then data else data[..room]
  }

  lemma CutAppend(done: seq<byte>, data: seq<byte>, room: nat)
    ensures Cut(done, room) + Cut(data, room - |Cut(done, room)|) == Cut(done + data, room)
  {
  }

  /** No space left on the device. */
  const ENOSPC: int := 28

  /** The `errno` after a write: set by one that failed, and left alone by one that was cut short. */
  function ErrnoAfter(wrote: int, before: int): int {
    if wrote < 0 then ENOSPC else before
  }

  /** What becomes of the header and the count: 0, or the `errno` after a write that was not complete. */
  function BodyCode(errno: nat -> int, room: nat): int {
    if room < HEAD then ErrnoAfter(Wrote(HEAD, room), errno(0))
    else if room < HEAD + WIDTH then ErrnoAfter(Wrote(WIDTH, room - HEAD), errno(1))
    else 0
  }

  /** The header and the count. `ok` tells whether the source goes on to the code. */
  method CreateBody(mac: MAC, head: seq<byte>, room: nat, errno: nat -> int) returns (ok: bool, rc: int, file: seq<byte>)
    requires |head| == HEAD && mac.valid && !mac.needInit && !mac.ignoreUpdates && mac.fed == []
    modifies mac`fed
    ensures ok <==> HEAD + WIDTH <= room
    ensures rc == BodyCode(errno, room)
    ensures file == Cut(Body(head, []), room)
    ensures ok ==> file == mac.fed == Body(head, [])
  {
    hide PutSize, Cut, Body;
    EmptyBody(head);
    file := Cut(head, room);
    var count := PutSize(0);
    CutAppend(head, count, room);
    var wrote := Wrote(|head|, room);
    if wrote != |head| {
      NothingMore(count, room - |file|);
      return false, ErrnoAfter(wrote, errno(0)), file;
    }
    var keyed := mac.Update(head);
    file := file + Cut(count, room - |file|);
    wrote := Wrote(|count|, room - |head|);
    if wrote != |count| {
      return false, ErrnoAfter(wrote, errno(1)), file;
    }
    keyed := mac.Update(count);
    return true, 0, file;
  }

  lemma NothingMore(data: seq<byte>, room: nat)
    ensures room == 0 ==> Cut(data, room) == [] && forall file: seq<byte> :: file + Cut(data, room) == file
  {
  }

  /** The code behind its length, of which only that the writes were not empty is checked. */
  method CreateCode(mac: MAC, body: seq<byte>, room: nat) returns (rc: int, file: seq<byte>)
    requires !mac.needInit && mac.fed == body && |body| <= room
    ensures rc == if mac.auth.code(body) == [] then -1 else 0
    ensures file == Cut(body + Framed(mac.auth.code(body)), room)
  {
    hide PutSize;
    var m := mac.Read();
    var len := PutSize(|m.value|);
    file := body;
    var left := room - |file|;
    CutAppend(body, len, room);
    file := file + Cut(len, left);
    if Wrote(|len|, left) == 0 {
      return -1, file;
    }
    left := room - |file|;
    CutAppend(body + len, m.value, room);
    assert body + len + m.value == body + Framed(m.value);
    file := file + Cut(m.value, left);
    return if Wrote(|m.value|, left) == 0 then -1 else 0, file;
  }

  /**
   Creates an empty store; `error` is what opening the new file sets `errno` to, 0 if it works.
   As much of the image is written as the disk takes. The code returned is 0, which setting up
   takes for success, once the header and the count are there, though the code behind them may be
   cut short; and also if the header or the count was cut short while `errno` was 0.
   */
  method Create(mac: MAC, error: int, errno: nat -> int, room: nat, magicEnd: byte, salt: seq<byte>, iv: seq<byte>)
      returns (rc: int, file: seq<byte>)
    requires |salt| == SALT_SIZE && |iv| == IV_SIZE && mac.Valid()
    modifies mac
    ensures var head := MAGIC + [magicEnd] + salt + iv;
            var keyed := mac.valid && (old(mac.needInit) ==> mac.keyFound);
            && rc == (if error != 0 then error
                      else if !keyed then -1
                      else if room < HEAD + WIDTH then BodyCode(errno, room)
                      else if mac.auth.code(Body(head, [])) == [] then -1
                      else 0)
            && file == if error == 0 && keyed then Cut(Image(mac.auth, head, []), room) else []
  {
    hide Body, Framed, PutSize, BodyCode, Cut;
    file := [];
    if error != 0 {
      return error, file;
    }
    var keyed := mac.Reset();
    if !keyed {
      return -1, file;
    }
    var head := MAGIC + [magicEnd] + salt + iv;
    EmptyBody(head);
    var ok;
    ok, rc, file := CreateBody(mac, head, room, errno);
    if ok {
      rc, file := CreateCode(mac, file, room);
    } else {
      CutInside(Body(head, []), Framed(mac.auth.code(Body(head, []))), room);
    }
  }

  lemma EmptyBody(head: seq<byte>)
    ensures Body(head, []) == head + PutSize(0)
  {
  }

  lemma CutInside(a: seq<byte>, b: seq<byte>, room: nat)
    requires room <= |a|
    ensures Cut(a + b, room) == Cut(a, room)
  {
  }

  /**
   Setting up takes a created file for good exactly if it got as far as the count, or was cut
   short in the header or the count, not in front of them, while `errno` was 0.
   */
  lemma CreationReported(errno: nat -> int, room: nat)
    ensures BodyCode(errno, room) == 0 <==>
            room >= HEAD + WIDTH || (0 < room < HEAD && errno(0) == 0) || (HEAD < room < HEAD + WIDTH && errno(1) == 0)
  {
  }

  /** What was created opens, as an empty store, exactly if the disk took all of it. */
  lemma CreatedOpensIff(engine: Engine, auth: Authenticator, junk: nat, head: seq<byte>, room: nat)
    requires Header(head) && Sound(auth)
    ensures var file := Cut(Image(auth, head, []), room);
            && (Open(engine, auth, junk, file).status.Ok? <==> |Image(auth, head, [])| <= room)
            && (Open(engine, auth, junk, file).status.Ok? ==> Open(engine, auth, junk, file) == Opening(Ok, []))
  {
    hide Framed, Open, MadeOf;
    var code := auth.code(Body(head, []));
    var image := Image(auth, head, []);
    if |image| <= room {
      assert image == Body(head, []) + Framed(code) + [];
      MadeOfOpens(engine, auth, junk, image, [], head, [], code, []) by {
        MadeOfNothing(engine, auth, junk, head);
      }
    } else if Open(engine, auth, junk, Cut(image, room)).status.Ok? {
      var head', es, code', rest := OpenedIsMade(engine, auth, junk, Cut(image, room));
      PartOfImage(engine, auth, junk, head, Cut(image, room), Open(engine, auth, junk, Cut(image, room)).list, head', es, code', rest);
    }
  }

  lemma MadeOfNothing(engine: Engine, auth: Authenticator, junk: nat, head: seq<byte>)
    requires Header(head) && Sound(auth)
    ensures MadeOf(engine, auth, junk, Image(auth, head, []), [], head, [], auth.code(Body(head, [])), [])
  {
    hide Framed, Body;
    assert Image(auth, head, []) + [] == Image(auth, head, []);
  }

  /** A part of the image of an empty store that can be opened is all of it. */
  lemma PartOfImage(engine: Engine, auth: Authenticator, junk: nat, head: seq<byte>, file: seq<byte>, list: seq<Entity>,
                    head': seq<byte>, es: seq<Sealed>, code: seq<byte>, rest: seq<byte>)
    requires |head| == HEAD && Sound(auth) && file <= Image(auth, head, [])
    requires MadeOf(engine, auth, junk, file, list, head', es, code, rest)
    ensures |file| >= |Image(auth, head, [])|
  {
    hide PutSize, Unseal, KnownKind;
    var mine := auth.code(Body(head, []));
    EmptyBody(head);
    var k := AllSealed(es) + Framed(code) + rest;
    assert file == head' + PutSize(|es|) + k;
    assert file[HEAD..HEAD + WIDTH] == PutSize(|es|);
    assert Image(auth, head, [])[HEAD..HEAD + WIDTH] == PutSize(0);
    SameSize(|es|, 0);
    assert es == [];
    assert file[HEAD + WIDTH..HEAD + WIDTH + WIDTH] == PutSize(|code|);
    assert Image(auth, head, [])[HEAD + WIDTH..HEAD + WIDTH + WIDTH] == PutSize(|mine|);
    SameSize(|code|, |mine|);
  }

  lemma SameSize(m: nat, n: nat)
    requires Fits(m) && Fits(n) && PutSize(m) == PutSize(n)
    ensures m == n
  {
    hide PutSize, GetSize;
    assert PutSize(m) + [] == PutSize(n) + [];
    SizeInverse(PutSize(m) + [], m, []);
    SizeInverse(PutSize(m) + [], n, []);
  }
}
