/**
 The wallet file on values: what `sync` prints, what `openInternal` reads, and the proof that
 the second undoes the first.
 */
module WalletFormat {
  import opened Bytes
  import opened Feistel
  import opened QtStream
  import Sha1

  /** An MD5 digest. */
  type Digest = d: seq<byte> | |d| == 16 witness seq(16, _ => 0)

  /** A wallet entry; `key` is the name it carries inside, `kind` the entry type. */
  datatype Entry = Entry(key: QString, kind: int, value: seq<byte>)

  type EntryMap = map<QString, Entry>
  type FolderMap = map<QString, EntryMap>
  type HashMap = map<Digest, seq<Digest>>

  /** The entry types that are written and read: password, stream and map. */
  predicate KnownKind(kind: int) { 1 <= kind <= 3 }

  /** A folder as it is iterated over. */
  datatype Folder = Folder(name: QString, entries: seq<(QString, Entry)>)

  /** The items of a map in some order, each once. */
  ghost predicate Lists<K, V>(items: seq<(K, V)>, m: map<K, V>) {
    && (forall i, j :: 0 <= i < j < |items| ==> items[i].0 != items[j].0)
    && (forall i :: 0 <= i < |items| ==> items[i].0 in m && m[items[i].0] == items[i].1)
    && (forall k :: k in m ==> exists i :: 0 <= i < |items| && items[i].0 == k)
  }

  /** The folders of a wallet in some order, each with its entries in some order. */
  ghost predicate ListsWallet(fs: seq<Folder>, m: FolderMap) {
    && (forall i, j :: 0 <= i < j < |fs| ==> fs[i].name != fs[j].name)
    && (forall i :: 0 <= i < |fs| ==> fs[i].name in m && Lists(fs[i].entries, m[fs[i].name]))
    && (forall f :: f in m ==> exists i :: 0 <= i < |fs| && fs[i].name == f)
  }

  // ----- Printing -----

  function PrintEntry(e: (QString, Entry)): seq<byte> {
    PutString(e.0) + PutI32(e.1.kind) + PutBytes(e.1.value)
  }

  function PrintEntries(es: seq<(QString, Entry)>): (s: seq<byte>)
    ensures |s| >= 12 * |es|
  {
    if es == [] then [] else PrintEntry(es[0]) + PrintEntries(es[1..])
  }

  function PrintFolder(f: Folder): (s: seq<byte>)
    ensures s != []
  {
    PutString(f.name) + PutU32(|f.entries|) + PrintEntries(f.entries)
  }

  function PrintFolders(fs: seq<Folder>): (s: seq<byte>) {
    if fs == [] then [] else PrintFolder(fs[0]) + PrintFolders(fs[1..])
  }

  // ----- Reading -----

  /** `n` entries, added to `em`. The value of an entry of unknown type is not skipped. */
  function ReadEntries(s: seq<byte>, n: nat, em: EntryMap): (r: Read<EntryMap>)
    ensures |r.rest| <= |s|
    decreases n
  {
    if n == 0 then Read(em, s)
    else
      var key := GetString(s);
      var kind := GetI32(key.rest);
      if !KnownKind(kind.value) then ReadEntries(kind.rest, n - 1, em)
      else
        var a := GetBytes(kind.rest);
        ReadEntries(a.rest, n - 1, em[key.value := Entry(key.value, kind.value, a.value)])
  }

  /** Folders to the end of the stream, each replacing a folder of the same name. */
  function ReadFolders(s: seq<byte>, m: FolderMap): FolderMap
    decreases |s|
  {
    if s == [] then m
    else
      var name := GetString(s);
      var n := GetU32(name.rest);
      var em := ReadEntries(n.rest, n.value, map[]);
      ReadFolders(em.rest, m[name.value := em.value])
  }

  // ----- Reading what was printed -----

  /** Entries added one after the other, each filed under its key and carrying it. */
  function Collect(es: seq<(QString, Entry)>, em: EntryMap): EntryMap {
    if es == [] then em else Collect(es[1..], em[es[0].0 := es[0].1.(key := es[0].0)])
  }

  function CollectFolders(fs: seq<Folder>, m: FolderMap): FolderMap {
    if fs == [] then m else CollectFolders(fs[1..], m[fs[0].name := Collect(fs[0].entries, map[])])
  }

  ghost predicate KnownEntries(es: seq<(QString, Entry)>) {
    forall i :: 0 <= i < |es| ==> KnownKind(es[i].1.kind)
  }

  lemma EntryRoundTrip(e: (QString, Entry), rest: seq<byte>)
    requires |PrintEntry(e)| < 0x8000_0000 && KnownKind(e.1.kind)
    ensures var key := GetString(PrintEntry(e) + rest);
      && key.value == e.0
      && GetI32(key.rest) == Read(e.1.kind, PutBytes(e.1.value) + rest)
      && GetBytes(PutBytes(e.1.value) + rest) == Read(e.1.value, rest)
  {
    hide PutString, PutI32, PutBytes, GetString, GetI32, GetBytes;
    assert PrintEntry(e) + rest == PutString(e.0) + (PutI32(e.1.kind) + (PutBytes(e.1.value) + rest));
    StringRoundTrip(e.0, PutI32(e.1.kind) + (PutBytes(e.1.value) + rest));
    I32RoundTrip(e.1.kind, PutBytes(e.1.value) + rest);
    BytesRoundTrip(e.1.value, rest);
  }

  lemma {:induction false} EntriesRoundTrip(es: seq<(QString, Entry)>, rest: seq<byte>, em: EntryMap)
    requires |PrintEntries(es)| < 0x8000_0000 && KnownEntries(es)
    ensures ReadEntries(PrintEntries(es) + rest, |es|, em) == Read(Collect(es, em), rest)
  {
    hide PrintEntry, GetString, GetI32, GetBytes, PutBytes;
    if es == [] {
      assert PrintEntries(es) + rest == rest;
    } else {
      var tail := PrintEntries(es[1..]) + rest;
      assert PrintEntries(es) + rest == PrintEntry(es[0]) + tail;
      EntryRoundTrip(es[0], tail);
      EntriesRoundTrip(es[1..], rest, em[es[0].0 := es[0].1.(key := es[0].0)]);
    }
  }

  /** A printed entry of type 1, 2 or 3 is read whole, and filed under its key. */
  lemma KnownEntryRead(e: (QString, Entry), rest: seq<byte>, n: nat, em: EntryMap)
    requires |PrintEntry(e)| < 0x8000_0000 && (e.1.kind == 1 || e.1.kind == 2 || e.1.kind == 3)
    ensures ReadEntries(PrintEntry(e) + rest, n + 1, em) == ReadEntries(rest, n, em[e.0 := Entry(e.0, e.1.kind, e.1.value)])
  {
    hide PrintEntry, GetString, GetI32, GetBytes, PutBytes;
    EntryRoundTrip(e, rest);
  }

  /**
   A printed entry of an unknown type takes part of what follows with it: only its key and type
   are read, and the bytes of its value are read on as the next entry.
   */
  lemma UnknownEntryRead(e: (QString, Entry), rest: seq<byte>, n: nat, em: EntryMap)
    requires |PrintEntry(e)| < 0x8000_0000 && -0x8000_0000 <= e.1.kind < 0x8000_0000 && (e.1.kind < 1 || e.1.kind > 3)
    ensures ReadEntries(PrintEntry(e) + rest, n + 1, em) == ReadEntries(PutBytes(e.1.value) + rest, n, em)
  {
    hide PutString, PutI32, PutBytes, GetString, GetI32, GetBytes;
    assert PrintEntry(e) + rest == PutString(e.0) + (PutI32(e.1.kind) + (PutBytes(e.1.value) + rest));
    StringRoundTrip(e.0, PutI32(e.1.kind) + (PutBytes(e.1.value) + rest));
    I32RoundTrip(e.1.kind, PutBytes(e.1.value) + rest);
  }

  ghost predicate KnownFolders(fs: seq<Folder>) {
    forall i :: 0 <= i < |fs| ==> KnownEntries(fs[i].entries)
  }

  lemma FolderRoundTrip(f: Folder, rest: seq<byte>)
    requires |PrintFolder(f)| < 0x8000_0000 && KnownEntries(f.entries)
    ensures var name := GetString(PrintFolder(f) + rest);
      && name.value == f.name
      && GetU32(name.rest) == Read(|f.entries|, PrintEntries(f.entries) + rest)
      && ReadEntries(PrintEntries(f.entries) + rest, |f.entries|, map[]) == Read(Collect(f.entries, map[]), rest)
  {
    hide PutString, PutU32, GetString, GetU32, ReadEntries, Collect;
    assert PrintFolder(f) + rest == PutString(f.name) + (PutU32(|f.entries|) + (PrintEntries(f.entries) + rest));
    StringRoundTrip(f.name, PutU32(|f.entries|) + (PrintEntries(f.entries) + rest));
    U32RoundTrip(|f.entries|, PrintEntries(f.entries) + rest);
    EntriesRoundTrip(f.entries, rest, map[]);
  }

  /** The parser undoes the printer, in whatever order the maps were iterated. */
  lemma {:induction false} FoldersRoundTrip(fs: seq<Folder>, m: FolderMap)
    requires |PrintFolders(fs)| < 0x8000_0000 && KnownFolders(fs)
    ensures ReadFolders(PrintFolders(fs), m) == CollectFolders(fs, m)
  {
    hide PrintFolder, GetString, GetU32, ReadEntries, Collect;
    if fs == [] {
    } else {
      FolderRoundTrip(fs[0], PrintFolders(fs[1..]));
      FoldersRoundTrip(fs[1..], m[fs[0].name := Collect(fs[0].entries, map[])]);
    }
  }

  // ----- What comes back, as a map -----

  /** The entries with each carrying the name it is filed under. */
  function Refiled(em: EntryMap): (r: EntryMap)
    ensures r.Keys == em.Keys
  {
    map k | k in em :: em[k].(key := k)
  }

  function RefiledFolders(m: FolderMap): (r: FolderMap)
    ensures r.Keys == m.Keys
  {
    map f | f in m :: Refiled(m[f])
  }

  /** Same folders, same keys, same types and values. */
  ghost predicate SameContents(a: FolderMap, b: FolderMap) {
    && a.Keys == b.Keys
    && forall f :: f in a ==>
         && a[f].Keys == b[f].Keys
         && forall k :: k in a[f] ==> a[f][k].kind == b[f][k].kind && a[f][k].value == b[f][k].value
  }

  ghost predicate AllKnown(m: FolderMap) {
    forall f, k :: f in m && k in m[f] ==> KnownKind(m[f][k].kind)
  }

  lemma {:induction false} CollectAdds(es: seq<(QString, Entry)>, em: EntryMap)
    requires forall i, j :: 0 <= i < j < |es| ==> es[i].0 != es[j].0
    ensures var r := Collect(es, em);
      && (forall i :: 0 <= i < |es| ==> es[i].0 in r && r[es[i].0] == es[i].1.(key := es[i].0))
      && (forall k :: k in em ==> k in r)
      && (forall k :: k in r && (forall i :: 0 <= i < |es| ==> es[i].0 != k) ==> k in em && r[k] == em[k])
  {
    if es == [] {
    } else {
      var first := em[es[0].0 := es[0].1.(key := es[0].0)];
      CollectAdds(es[1..], first);
      var r := Collect(es, em);
      assert forall i :: 1 <= i < |es| ==> es[i] == es[1..][i - 1];
      assert forall i :: 0 <= i < |es[1..]| ==> es[1..][i].0 != es[0].0;
    }
  }

  lemma CollectIsRefiled(es: seq<(QString, Entry)>, em: EntryMap)
    requires Lists(es, em)
    ensures Collect(es, map[]) == Refiled(em)
  {
    CollectAdds(es, map[]);
  }

  lemma {:induction false} CollectFoldersAdds(fs: seq<Folder>, m: FolderMap)
    requires forall i, j :: 0 <= i < j < |fs| ==> fs[i].name != fs[j].name
    ensures var r := CollectFolders(fs, m);
      && (forall i :: 0 <= i < |fs| ==> fs[i].name in r && r[fs[i].name] == Collect(fs[i].entries, map[]))
      && (forall f :: f in m ==> f in r)
      && (forall f :: f in r && (forall i :: 0 <= i < |fs| ==> fs[i].name != f) ==> f in m && r[f] == m[f])
  {
    hide Collect;
    if fs == [] {
    } else {
      var first := m[fs[0].name := Collect(fs[0].entries, map[])];
      CollectFoldersAdds(fs[1..], first);
      assert forall i :: 1 <= i < |fs| ==> fs[i] == fs[1..][i - 1];
      assert forall i :: 0 <= i < |fs[1..]| ==> fs[1..][i].name != fs[0].name;
    }
  }

  lemma FolderComesBack(fs: seq<Folder>, m: FolderMap, m0: FolderMap, f: QString)
    requires ListsWallet(fs, m)
    ensures var r := CollectFolders(fs, m0);
      && (f in r <==> f in m || f in m0)
      && (f in m ==> r[f] == Refiled(m[f]))
      && (f !in m && f in m0 ==> r[f] == m0[f])
  {
    hide Collect, CollectFolders;
    CollectFoldersAdds(fs, m0);
    if f in m {
      var i :| 0 <= i < |fs| && fs[i].name == f;
      CollectIsRefiled(fs[i].entries, m[f]);
    }
  }

  /** Reading into `m0` replaces the folders that were printed and leaves the others. */
  lemma CollectFoldersIsRefiled(fs: seq<Folder>, m: FolderMap, m0: FolderMap)
    requires ListsWallet(fs, m)
    ensures CollectFolders(fs, m0) == m0 + RefiledFolders(m)
  {
    hide CollectFolders, ListsWallet;
    var r, x := CollectFolders(fs, m0), m0 + RefiledFolders(m);
    forall f
      ensures f in r <==> f in x
      ensures f in r ==> r[f] == x[f]
    {
      FolderComesBack(fs, m, m0, f);
    }
  }

  lemma {:induction false} ReadEntriesKnown(s: seq<byte>, n: nat, em: EntryMap)
    requires forall k :: k in em ==> KnownKind(em[k].kind)
    ensures forall k :: k in ReadEntries(s, n, em).value ==> KnownKind(ReadEntries(s, n, em).value[k].kind)
    decreases n
  {
    hide GetString, GetI32, GetBytes;
    if n == 0 {
    } else {
      var key := GetString(s);
      var kind := GetI32(key.rest);
      if !KnownKind(kind.value) {
        ReadEntriesKnown(kind.rest, n - 1, em);
      } else {
        var a := GetBytes(kind.rest);
        ReadEntriesKnown(a.rest, n - 1, em[key.value := Entry(key.value, kind.value, a.value)]);
      }
    }
  }

  /** Whatever the bytes, nothing of unknown type is ever read. */
  lemma {:induction false} ReadFoldersKnown(s: seq<byte>, m: FolderMap)
    requires AllKnown(m)
    ensures AllKnown(ReadFolders(s, m))
    decreases |s|
  {
    hide GetString, GetU32, ReadEntries;
    if s == [] {
    } else {
      var name := GetString(s);
      var n := GetU32(name.rest);
      ReadEntriesKnown(n.rest, n.value, map[]);
      var em := ReadEntries(n.rest, n.value, map[]);
      ReadFoldersKnown(em.rest, m[name.value := em.value]);
    }
  }

  lemma KnownInListing(fs: seq<Folder>, m: FolderMap)
    requires ListsWallet(fs, m) && AllKnown(m)
    ensures KnownFolders(fs)
  {
  }

  /**
   The data section comes back as it was exactly when every entry is of a known type: the
   parser does not skip the value of any other entry, and never builds one.
   */
  lemma DataRoundTrip(fs: seq<Folder>, m: FolderMap)
    requires ListsWallet(fs, m) && |PrintFolders(fs)| < 0x8000_0000
    ensures AllKnown(m) ==> ReadFolders(PrintFolders(fs), map[]) == RefiledFolders(m)
    ensures SameContents(ReadFolders(PrintFolders(fs), map[]), m) <==> AllKnown(m)
  {
    hide ReadFolders, PrintFolders, CollectFolders, ListsWallet;
    ReadFoldersKnown(PrintFolders(fs), map[]);
    if AllKnown(m) {
      KnownInListing(fs, m);
      FoldersRoundTrip(fs, map[]);
      CollectFoldersIsRefiled(fs, m, map[]);
      assert map[] + RefiledFolders(m) == RefiledFolders(m);
    }
  }
}
