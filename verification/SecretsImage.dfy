/**
 The secrets file on values: a header, the number of entities, each entity's type and encrypted
 text, and an authentication code over all of that.
 */
module SecretsImage {
  import opened Bytes
  import opened Options
  import opened HostSize
  import opened SecretsDevice
  import opened CryptBuffer
  import opened TextCodec

  /** "ksecrets" */
  const MAGIC: seq<byte> := [0x6b, 0x73, 0x65, 0x63, 0x72, 0x65, 0x74, 0x73]
  const MAGIC_FIELD: nat := 9
  const SALT_SIZE: nat := 56
  const IV_SIZE: nat := 8
  const HEAD: nat := MAGIC_FIELD + SALT_SIZE + IV_SIZE

  // ----- Entities -----

  datatype Entity = Directory(entries: seq<Text>) | Item | Collection(name: Text, count: nat) | Eof

  function Kind(e: Entity): byte {
    match e
    case Directory(_) => 1
    case Item => 2
    case Collection(_, _) => 3
    case Eof => 4
  }

  predicate KnownKind(kind: byte) {
    kind == 1 || kind == 2 || kind == 3 || kind == 4
  }

  /** Items and end marks cannot be serialized yet. */
  function Serialized(e: Entity): (r: Option<Text>)
    ensures r.Some? ==> r.value != []
  {
    match e
    case Directory(entries) => Some(PrintDirectory(entries))
    case Collection(name, count) => Some(PrintCollection(name, count))
    case _ => None
  }

  /** Nor deserialized. `junk` is what numbers hold before they are read. */
  function Deserialized(kind: byte, text: Text, junk: nat): (r: Option<Entity>)
    ensures r.Some? ==> Kind(r.value) == kind
  {
    if kind == 1 then
      match ReadDirectory(In(text, true), junk)
      case None => None
      case Some(entries) => Some(Directory(entries))
    else if kind == 3 then
      var c := ReadCollection(In(text, true), Named([], junk));
      Some(Collection(c.name, c.count))
    else None
  }

  /** An entity as it is in the file. */
  datatype Sealed = Sealed(kind: byte, payload: seq<byte>)

  function Plain(engine: Engine, payload: seq<byte>): Text {
    if payload != [] && engine.dec(payload).Some? then engine.dec(payload).value else []
  }

  function Unseal(engine: Engine, junk: nat, s: Sealed): (r: Option<Entity>)
    ensures r.Some? ==> Kind(r.value) == s.kind
  {
    Deserialized(s.kind, Plain(engine, s.payload), junk)
  }

  predicate Serializable(e: Entity) {
    Serialized(e).Some?
  }

  function Seal(engine: Engine, noise: Noise, e: Entity): Sealed
    requires Serializable(e)
  {
    Sealed(Kind(e), Encoded(engine, noise, 0, Serialized(e).value))
  }

  // ----- Reading -----

  datatype Entities = Entities(list: seq<Entity>, rest: seq<byte>) | ReadError | Abort

  /** Entities one after the other; an unknown type ends the program. */
  function ReadEntities(engine: Engine, junk: nat, s: seq<byte>, n: nat): Entities
    decreases n
  {
    if n == 0 then Entities([], s)
    else if s == [] then ReadError
    else if !KnownKind(s[0]) then Abort
    else
      match GetFramed(s[1..])
      case Short => ReadError
      case Parsed(payload, rest) =>
        match Unseal(engine, junk, Sealed(s[0], payload))
        case None => ReadError
        case Some(e) =>
          match ReadEntities(engine, junk, rest, n - 1)
          case Entities(list, after) => Entities([e] + list, after)
          case failed => failed
  }

  datatype Status =
    Ok | CannotOpenFile | CannotLockFile | CannotReadHeader | UnknownHeader | EntitiesReadError | IntegrityCheckFailed | Aborted

  datatype Opening = Opening(status: Status, list: seq<Entity>)

  function CheckMac(auth: Authenticator, body: seq<byte>, rest: seq<byte>): bool {
    var m := GetFramed(rest);
    m.Parsed? && auth.accepts(body, m.value)
  }

  predicate HasMagic(head: seq<byte>) {
    |head| >= |MAGIC| && head[..|MAGIC|] == MAGIC
  }

  /** What opening makes of a file's bytes. */
  function Open(engine: Engine, auth: Authenticator, junk: nat, file: seq<byte>): Opening {
    if |file| < HEAD then Opening(CannotReadHeader, [])
    else if !HasMagic(file) then Opening(UnknownHeader, [])
    else OpenContents(engine, auth, junk, file, file[HEAD..])
  }

  /** What follows the header. */
  function OpenContents(engine: Engine, auth: Authenticator, junk: nat, file: seq<byte>, contents: seq<byte>): Opening {
    match Counted(engine, junk, contents)
    case ReadError => Opening(EntitiesReadError, [])
    case Abort => Opening(Aborted, [])
    case Entities(list, rest) =>
      Opening(if CheckMac(auth, Before(file, rest), rest) then Ok else IntegrityCheckFailed, list)
  }

  /** The count, and that many entities. */
  function Counted(engine: Engine, junk: nat, contents: seq<byte>): Entities {
    match GetSize(contents)
    case Short => ReadError
    case Parsed(n, s) => ReadEntities(engine, junk, s, n)
  }

  /** The bytes of a file in front of its last ones. */
  function Before(file: seq<byte>, rest: seq<byte>): seq<byte> {
    if |rest| <= |file| then file[..|file| - |rest|] else []
  }

  lemma BeforeIs(body: seq<byte>, rest: seq<byte>)
    ensures Before(body + rest, rest) == body
  {
  }

  // ----- Images -----

  function SealedBytes(s: Sealed): (r: seq<byte>)
    ensures r != []
  {
    [s.kind] + Framed(s.payload)
  }

  function AllSealed(es: seq<Sealed>): seq<byte>
    decreases |es|
  {
    if es == [] then [] else SealedBytes(es[0]) + AllSealed(es[1..])
  }

  /** What the code covers. */
  function Body(head: seq<byte>, es: seq<Sealed>): seq<byte> {
    head + PutSize(|es|) + AllSealed(es)
  }

  function Image(auth: Authenticator, head: seq<byte>, es: seq<Sealed>): seq<byte> {
    Body(head, es) + Framed(auth.code(Body(head, es)))
  }

  ghost predicate Header(head: seq<byte>) {
    |head| == 9 + 56 + 8 && head[..8] == [0x6b, 0x73, 0x65, 0x63, 0x72, 0x65, 0x74, 0x73]
  }

  ghost predicate AllFit(es: seq<Sealed>) {
    Fits(|es|) && forall k :: 0 <= k < |es| ==> Fits(|es[k].payload|)
  }

  /** Each sealed entity opens to the one in the list. */
  ghost predicate OpensTo(engine: Engine, junk: nat, es: seq<Sealed>, list: seq<Entity>) {
    |es| == |list| && forall k :: 0 <= k < |es| ==> Unseal(engine, junk, es[k]) == Some(list[k])
  }

  lemma {:induction false} KnownWhenOpened(engine: Engine, junk: nat, s: Sealed)
    ensures Unseal(engine, junk, s).Some? ==> KnownKind(s.kind)
  {
  }

  lemma OpensToRest(engine: Engine, junk: nat, es: seq<Sealed>, list: seq<Entity>)
    requires OpensTo(engine, junk, es, list) && es != []
    ensures list != [] && Unseal(engine, junk, es[0]) == Some(list[0])
    ensures OpensTo(engine, junk, es[1..], list[1..])
  {
    hide Unseal;
  }

  lemma FirstRead(es: seq<Sealed>, rest: seq<byte>)
    requires es != [] && Fits(|es[0].payload|)
    ensures var s := AllSealed(es) + rest;
            && s != [] && s[0] == es[0].kind
            && GetFramed(s[1..]) == Parsed(es[0].payload, AllSealed(es[1..]) + rest)
  {
    hide Framed, GetFramed;
    var more := AllSealed(es[1..]) + rest;
    var s := AllSealed(es) + rest;
    assert s == [es[0].kind] + (Framed(es[0].payload) + more);
    assert s[1..] == Framed(es[0].payload) + more;
    FrameInverse(s[1..], es[0].payload, more);
  }

  lemma LengthsAgree(engine: Engine, junk: nat, es: seq<Sealed>, list: seq<Entity>)
    requires OpensTo(engine, junk, es, list)
    ensures |es| == |list|
  {
  }

  /** Entities written one after the other are read back in order. */
  lemma {:induction false} ReadsAllSealed(engine: Engine, junk: nat, es: seq<Sealed>, list: seq<Entity>, rest: seq<byte>)
    requires AllFit(es) && OpensTo(engine, junk, es, list)
    ensures ReadEntities(engine, junk, AllSealed(es) + rest, |es|) == Entities(list, rest)
    decreases |es|
  {
    hide Unseal, Framed, GetFramed, KnownKind, OpensTo;
    if es == [] {
      assert list == [] by {
        LengthsAgree(engine, junk, es, list);
      }
    } else {
      FirstRead(es, rest);
      KnownWhenOpened(engine, junk, es[0]);
      OpensToRest(engine, junk, es, list);
      ReadsAllSealed(engine, junk, es[1..], list[1..], rest);
      assert [list[0]] + list[1..] == list;
    }
  }

  /** What is read is sealed entities, and opens to what was read. */
  lemma {:induction false} ReadIsSealed(engine: Engine, junk: nat, s: seq<byte>, n: nat) returns (es: seq<Sealed>)
    requires ReadEntities(engine, junk, s, n).Entities?
    ensures |es| == n && forall k :: 0 <= k < |es| ==> Fits(|es[k].payload|)
    ensures var r := ReadEntities(engine, junk, s, n); s == AllSealed(es) + r.rest && OpensTo(engine, junk, es, r.list)
    decreases n
  {
    hide Unseal, Framed, GetFramed, KnownKind;
    if n == 0 {
      es := [];
    } else {
      var frame := GetFramed(s[1..]);
      FrameTaken(s[1..]);
      FrameFits(s[1..]);
      var more := ReadIsSealed(engine, junk, frame.rest, n - 1);
      var first := Sealed(s[0], frame.value);
      es := [first] + more;
      assert es[1..] == more;
      assert s == [s[0]] + s[1..];
      assert s == SealedBytes(first) + AllSealed(more) + ReadEntities(engine, junk, s, n).rest;
    }
  }

  lemma FrameFits(s: seq<byte>)
    ensures GetFramed(s).Parsed? ==> Fits(|GetFramed(s).value|)
  {
    SizeFits(s);
  }

  /** A type that is none of the four ends the program, behind any entities that can be read. */
  lemma {:induction false} UnknownTypeAborts(engine: Engine, junk: nat, es: seq<Sealed>, list: seq<Entity>, kind: byte, rest: seq<byte>, more: nat)
    requires AllFit(es) && OpensTo(engine, junk, es, list) && kind != 1 && kind != 2 && kind != 3 && kind != 4
    ensures ReadEntities(engine, junk, AllSealed(es) + [kind] + rest, |es| + 1 + more) == Abort
    decreases |es|
  {
    hide Unseal, Framed, GetFramed, OpensTo;
    var s := AllSealed(es) + [kind] + rest;
    if es == [] {
      assert s[0] == kind;
    } else {
      assert s == AllSealed(es) + ([kind] + rest);
      FirstRead(es, [kind] + rest);
      KnownWhenOpened(engine, junk, es[0]);
      OpensToRest(engine, junk, es, list);
      assert AllSealed(es[1..]) + ([kind] + rest) == AllSealed(es[1..]) + [kind] + rest;
      UnknownTypeAborts(engine, junk, es[1..], list[1..], kind, rest, more);
    }
  }

  lemma FirstUnreadable(engine: Engine, junk: nat, s: Sealed, rest: seq<byte>, more: nat)
    requires (s.kind == 2 || s.kind == 4) && Fits(|s.payload|)
    ensures ReadEntities(engine, junk, SealedBytes(s) + rest, 1 + more) == ReadError
  {
    NotDeserialized(engine, junk, s);
    hide Unseal, Framed, GetFramed, SealedBytes, KnownKind;
    OneSealed(s, rest);
  }

  lemma OneSealed(s: Sealed, rest: seq<byte>)
    requires Fits(|s.payload|)
    ensures var b := SealedBytes(s) + rest; b != [] && b[0] == s.kind && GetFramed(b[1..]) == Parsed(s.payload, rest)
  {
    hide Framed, GetFramed;
    var b := SealedBytes(s) + rest;
    assert b[1..] == Framed(s.payload) + rest;
    FrameInverse(b[1..], s.payload, rest);
  }

  lemma NotDeserialized(engine: Engine, junk: nat, s: Sealed)
    requires s.kind == 2 || s.kind == 4
    ensures Unseal(engine, junk, s) == None && KnownKind(s.kind)
  {
  }

  /** A type that is known but cannot be read, an item or an end mark, is an error instead. */
  lemma {:induction false} UnreadableTypeFails(engine: Engine, junk: nat, es: seq<Sealed>, list: seq<Entity>, s: Sealed,
                                               rest: seq<byte>, more: nat)
    requires AllFit(es) && OpensTo(engine, junk, es, list) && (s.kind == 2 || s.kind == 4) && Fits(|s.payload|)
    ensures ReadEntities(engine, junk, AllSealed(es) + (SealedBytes(s) + rest), |es| + 1 + more) == ReadError
    decreases |es|
  {
    hide Unseal, Framed, GetFramed, OpensTo, SealedBytes;
    if es == [] {
      FirstUnreadable(engine, junk, s, rest, more);
      assert AllSealed(es) + (SealedBytes(s) + rest) == SealedBytes(s) + rest;
    } else {
      FirstRead(es, SealedBytes(s) + rest);
      KnownWhenOpened(engine, junk, es[0]);
      OpensToRest(engine, junk, es, list);
      UnreadableTypeFails(engine, junk, es[1..], list[1..], s, rest, more);
    }
  }

  /** What is wrong with a header: too short, another magic, or nothing behind it. */
  lemma HeaderErrors(engine: Engine, auth: Authenticator, junk: nat, file: seq<byte>)
    ensures var status := Open(engine, auth, junk, file).status;
      && (status == CannotReadHeader <==> |file| < 73)
      && (status == UnknownHeader <==> |file| >= 73 && file[..8] != [0x6b, 0x73, 0x65, 0x63, 0x72, 0x65, 0x74, 0x73])
      && (status in {EntitiesReadError, IntegrityCheckFailed, Aborted, Ok} <==>
            |file| >= 73 && file[..8] == [0x6b, 0x73, 0x65, 0x63, 0x72, 0x65, 0x74, 0x73])
      && (73 <= |file| < 73 + 8 && status != UnknownHeader ==> status == EntitiesReadError)
  {
    hide ReadEntities, CheckMac, Before;
  }

  /** How a file is made up when it can be opened. */
  ghost predicate MadeOf(engine: Engine, auth: Authenticator, junk: nat, file: seq<byte>, list: seq<Entity>,
                         head: seq<byte>, es: seq<Sealed>, code: seq<byte>, rest: seq<byte>) {
    && Header(head) && AllFit(es) && Fits(|code|) && OpensTo(engine, junk, es, list)
    && file == Body(head, es) + Framed(code) + rest
    && auth.accepts(Body(head, es), code)
  }

  lemma Parted<T>(a: seq<T>, b: seq<T>, k: nat)
    requires k <= |a|
    ensures (a + b)[..k] == a[..k] && (a + b)[|a|..] == b
  {
  }

  lemma RegroupAll<T>(a: seq<T>, b: seq<T>, c: seq<T>, d: seq<T>)
    ensures a + b + c + d == a + (b + (c + d))
  {
  }

  /** A body and what follows it, taken apart as opening does. */
  lemma BodyParts(head: seq<byte>, es: seq<Sealed>, last: seq<byte>)
    requires |head| == HEAD
    ensures var file := Body(head, es) + last;
            && |file| >= HEAD && file[..|MAGIC|] == head[..|MAGIC|]
            && file[HEAD..] == PutSize(|es|) + (AllSealed(es) + last)
            && Before(file, last) == Body(head, es)
  {
    hide PutSize, AllSealed, Before;
    BeforeIs(Body(head, es), last);
    var more := PutSize(|es|) + (AllSealed(es) + last);
    RegroupAll(head, PutSize(|es|), AllSealed(es), last);
    Parted(head, more, |MAGIC|);
  }

  lemma CountedIs(engine: Engine, junk: nat, n: nat, s: seq<byte>)
    requires Fits(n)
    ensures Counted(engine, junk, PutSize(n) + s) == ReadEntities(engine, junk, s, n)
  {
    hide PutSize, GetSize, ReadEntities;
    SizeInverse(PutSize(n) + s, n, s);
  }

  lemma MadeOfOpens(engine: Engine, auth: Authenticator, junk: nat, file: seq<byte>, list: seq<Entity>,
                    head: seq<byte>, es: seq<Sealed>, code: seq<byte>, rest: seq<byte>)
    requires MadeOf(engine, auth, junk, file, list, head, es, code, rest)
    ensures Open(engine, auth, junk, file) == Opening(Ok, list)
  {
    hide ReadEntities, Counted, Framed, GetFramed, PutSize, Body, AllSealed, OpensTo, Before;
    var last := Framed(code) + rest;
    assert file == Body(head, es) + last;
    BodyParts(head, es, last);
    CountedIs(engine, junk, |es|, AllSealed(es) + last);
    ReadsAllSealed(engine, junk, es, list, last);
    FrameInverse(last, code, rest);
  }

  lemma OpenedIsMade(engine: Engine, auth: Authenticator, junk: nat, file: seq<byte>)
      returns (head: seq<byte>, es: seq<Sealed>, code: seq<byte>, rest: seq<byte>)
    requires Open(engine, auth, junk, file).status.Ok?
    ensures MadeOf(engine, auth, junk, file, Open(engine, auth, junk, file).list, head, es, code, rest)
  {
    hide ReadEntities, Framed, GetFramed, PutSize, GetSize, OpensTo, AllSealed, Before;
    head := file[..HEAD];
    var contents := file[HEAD..];
    SizeFits(contents);
    var n, s := GetSize(contents).value, GetSize(contents).rest;
    SizeInverse(contents, n, s);
    es := ReadIsSealed(engine, junk, s, n);
    var last := ReadEntities(engine, junk, s, n).rest;
    FrameFits(last);
    FrameTaken(last);
    code, rest := GetFramed(last).value, GetFramed(last).rest;
    assert file == Body(head, es) + last;
    BeforeIs(Body(head, es), last);
    assert file == Body(head, es) + Framed(code) + rest;
  }

  /**
   A file is accepted, with a list of entities, exactly when it is made up of a header with the
   magic, the number of entities, entities that open to those of the list in order, and a code
   accepted for precisely these bytes. What follows is never looked at.
   */
  lemma AcceptedIffImage(engine: Engine, auth: Authenticator, junk: nat, file: seq<byte>, list: seq<Entity>)
    ensures Open(engine, auth, junk, file) == Opening(Ok, list) <==>
            exists head, es, code, rest :: MadeOf(engine, auth, junk, file, list, head, es, code, rest)
  {
    if Open(engine, auth, junk, file) == Opening(Ok, list) {
      var head, es, code, rest := OpenedIsMade(engine, auth, junk, file);
    }
    forall head, es, code, rest | MadeOf(engine, auth, junk, file, list, head, es, code, rest)
      ensures Open(engine, auth, junk, file) == Opening(Ok, list)
    {
      MadeOfOpens(engine, auth, junk, file, list, head, es, code, rest);
    }
  }

  // ----- Saving and opening -----

  /** Sizes a `size_t` can hold. */
  ghost predicate Small(e: Entity) {
    match e
    case Directory(entries) => |entries| <= SIZE_MAX && forall k :: 0 <= k < |entries| ==> |entries[k]| <= SIZE_MAX
    case Collection(name, count) => |name| <= SIZE_MAX && count < SIZE_MAX
    case _ => true
  }

  function Tail(noise: Noise, text: Text): seq<byte> {
    Garbage(noise, |text|, RoundUp(|text|))
  }

  ghost predicate Faithful(noise: Noise, e: Entity)
    requires Serializable(e)
  {
    var tail := Tail(noise, Serialized(e).value);
    match e
    case Directory(entries) => entries != [] || Survives(0, tail)
    case Collection(_, count) => Survives(count, tail)
    case _ => true
  }

  /** A sealed entity opens to what it was exactly if no number ran into the random bytes. */
  lemma UnsealSeal(engine: Engine, noise: Noise, junk: nat, e: Entity)
    requires Ready(engine) && Serializable(e) && Small(e)
    ensures Unseal(engine, junk, Seal(engine, noise, e)) == Some(e) <==> Faithful(noise, e)
  {
    hide ReadDirectory, ReadCollection, PrintDirectory, PrintCollection, RoundUp, Survives, Placed, Ready;
    var text := Serialized(e).value;
    EngineIsReady(engine, Placed(noise, 0, text));
    PlacedFirst(noise, text);
    assert Plain(engine, Seal(engine, noise, e).payload) == text + Tail(noise, text);
    var tail := Tail(noise, text);
    match e
    case Directory(entries) =>
      if entries == [] {
        EmptyDirectoryRoundTrip(tail, junk);
      } else {
        DirectoryRoundTrip(entries, tail, junk);
      }
    case Collection(name, count) =>
      CollectionRoundTrip(name, count, tail, Named([], junk));
  }

  predicate AllSerializable(es: seq<Entity>) {
    forall k :: 0 <= k < |es| ==> Serializable(es[k])
  }

  /** Entities sealed in order, each with random bytes of its own. */
  function SealAll(engine: Engine, noises: nat -> Noise, es: seq<Entity>): (r: seq<Sealed>)
    requires AllSerializable(es)
    ensures |r| == |es| && forall k :: 0 <= k < |es| ==> r[k] == Seal(engine, noises(k), es[k])
  {
    seq(|es|, k requires 0 <= k < |es| => Seal(engine, noises(k), es[k]))
  }

  /**
   A saved file opens to the very entities that were saved exactly if every one of them is
   faithful; directories that are not empty always are.
   */
  lemma OpenSaved(engine: Engine, auth: Authenticator, junk: nat, noises: nat -> Noise, head: seq<byte>, es: seq<Entity>)
    requires Ready(engine) && Sound(auth) && Header(head)
    requires AllSerializable(es) && forall k :: 0 <= k < |es| ==> Small(es[k])
    requires AllFit(SealAll(engine, noises, es))
    ensures Open(engine, auth, junk, Image(auth, head, SealAll(engine, noises, es))) == Opening(Ok, es) <==>
            forall k :: 0 <= k < |es| ==> Faithful(noises(k), es[k])
  {
    hide Unseal, Seal, Framed, Faithful, Open;
    var sealed := SealAll(engine, noises, es);
    var body := Body(head, sealed);
    var code := auth.code(body);
    var file := Image(auth, head, sealed);
    assert file == body + Framed(code) + [];
    forall k | 0 <= k < |es|
      ensures Unseal(engine, junk, sealed[k]) == Some(es[k]) <==> Faithful(noises(k), es[k])
    {
      UnsealSeal(engine, noises(k), junk, es[k]);
    }
    if OpensTo(engine, junk, sealed, es) {
      MadeOfOpens(engine, auth, junk, file, es, head, sealed, code, []);
    }
    if Open(engine, auth, junk, file) == Opening(Ok, es) {
      OpenedSaved(engine, auth, junk, head, sealed, es);
    }
  }

  /** If an image opens, it is to what its own entities open to. */
  lemma OpenedSaved(engine: Engine, auth: Authenticator, junk: nat, head: seq<byte>, sealed: seq<Sealed>, list: seq<Entity>)
    requires Header(head) && AllFit(sealed)
    requires Open(engine, auth, junk, Image(auth, head, sealed)) == Opening(Ok, list)
    ensures OpensTo(engine, junk, sealed, list)
  {
    hide ReadEntities, Counted, Framed, GetFramed, PutSize, Body, AllSealed, OpensTo, Before;
    var last := Framed(auth.code(Body(head, sealed)));
    BodyParts(head, sealed, last);
    CountedIs(engine, junk, |sealed|, AllSealed(sealed) + last);
    ReadOnlyTo(engine, junk, sealed, last);
  }

  lemma {:induction false} ReadOnlyTo(engine: Engine, junk: nat, es: seq<Sealed>, rest: seq<byte>)
    requires AllFit(es)
    requires ReadEntities(engine, junk, AllSealed(es) + rest, |es|).Entities?
    ensures OpensTo(engine, junk, es, ReadEntities(engine, junk, AllSealed(es) + rest, |es|).list)
    decreases |es|
  {
    hide Unseal, Framed, GetFramed, KnownKind;
    if es == [] {
    } else {
      FirstRead(es, rest);
      ReadOnlyTo(engine, junk, es[1..], rest);
    }
  }

  /** The entities that sealed ones open to, where they do. */
  function Unsealed(engine: Engine, junk: nat, es: seq<Sealed>): (list: seq<Entity>)
    requires forall k :: 0 <= k < |es| ==> Unseal(engine, junk, es[k]).Some?
    ensures |list| == |es| && forall k :: 0 <= k < |es| ==> Unseal(engine, junk, es[k]) == Some(list[k])
  {
    seq(|es|, k requires 0 <= k < |es| => Unseal(engine, junk, es[k]).value)
  }

  /** An image opens at all exactly if each of its entities can be read, whatever to. */
  lemma ImageOpensIff(engine: Engine, auth: Authenticator, junk: nat, head: seq<byte>, sealed: seq<Sealed>)
    requires Header(head) && AllFit(sealed) && Sound(auth)
    ensures Open(engine, auth, junk, Image(auth, head, sealed)).status.Ok? <==>
            forall k :: 0 <= k < |sealed| ==> Unseal(engine, junk, sealed[k]).Some?
  {
    hide Unseal, Framed, Open, Body;
    var file := Image(auth, head, sealed);
    var code := auth.code(Body(head, sealed));
    assert file == Body(head, sealed) + Framed(code) + [];
    if forall k :: 0 <= k < |sealed| ==> Unseal(engine, junk, sealed[k]).Some? {
      MadeOfOpens(engine, auth, junk, file, Unsealed(engine, junk, sealed), head, sealed, code, []);
    }
    var opening := Open(engine, auth, junk, file);
    if opening.status.Ok? {
      assert opening == Opening(Ok, opening.list);
      OpenedSaved(engine, auth, junk, head, sealed, opening.list);
    }
  }

  /** An empty directory can be read at all only if what its tail makes of its length can. */
  predicate Readable(noise: Noise, junk: nat, e: Entity) {
    e == Directory([]) ==> ReadDirectory(In(PrintDirectory([]) + Tail(noise, PrintDirectory([])), true), junk).Some?
  }

  lemma SealedReadable(engine: Engine, noise: Noise, junk: nat, e: Entity)
    requires Ready(engine) && Serializable(e) && Small(e)
    ensures Unseal(engine, junk, Seal(engine, noise, e)).Some? <==> Readable(noise, junk, e)
  {
    hide ReadDirectory, ReadCollection, PrintDirectory, PrintCollection, RoundUp, Placed, Ready;
    var text := Serialized(e).value;
    EngineIsReady(engine, Placed(noise, 0, text));
    PlacedFirst(noise, text);
    assert Plain(engine, Seal(engine, noise, e).payload) == text + Tail(noise, text);
    if e.Directory? && e.entries != [] {
      DirectoryRoundTrip(e.entries, Tail(noise, text), junk);
    }
  }

  /**
   What is saved with a ready engine opens exactly if every empty directory in it can be read
   with its random tail. Nothing else can go wrong: other directories are read back, and
   collections are read to something.
   */
  lemma SavedOpensIff(engine: Engine, auth: Authenticator, junk: nat, noises: nat -> Noise, head: seq<byte>, es: seq<Entity>)
    requires Ready(engine) && Sound(auth) && Header(head)
    requires AllSerializable(es) && forall k :: 0 <= k < |es| ==> Small(es[k])
    requires AllFit(SealAll(engine, noises, es))
    ensures Open(engine, auth, junk, Image(auth, head, SealAll(engine, noises, es))).status.Ok? <==>
            forall k :: 0 <= k < |es| ==> Readable(noises(k), junk, es[k])
  {
    hide Seal, Unseal, Readable, Open, Image;
    var sealed := SealAll(engine, noises, es);
    forall k | 0 <= k < |es| ensures Unseal(engine, junk, sealed[k]).Some? <==> Readable(noises(k), junk, es[k]) {
      SealedReadable(engine, noises(k), junk, es[k]);
    }
    ImageOpensIff(engine, auth, junk, head, sealed);
  }

  /** An opened file has the types of its sealed entities, in order. */
  lemma KindsInOrder(engine: Engine, junk: nat, es: seq<Sealed>, list: seq<Entity>)
    requires OpensTo(engine, junk, es, list)
    ensures forall k :: 0 <= k < |es| ==> Kind(list[k]) == es[k].kind
  {
    hide Kind;
    forall k | 0 <= k < |es| ensures Kind(list[k]) == es[k].kind {
      assert Unseal(engine, junk, es[k]) == Some(list[k]);
    }
  }
}
