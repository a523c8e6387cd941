/**
 The operations that change a wallet, on values, and the digest index they keep beside the
 folders. The index answers whether a folder or an entry exists without decrypting.
 */
module WalletIndex {
  import opened Bytes
  import opened QtStream
  import opened WalletFormat
  import Feistel
  import WalletFile

  datatype Wallet = Wallet(open: bool, folder: QString, entries: FolderMap, hashes: HashMap)

  type Md5 = QString -> Digest

  /** QList::removeAll. */
  function RemoveAll(list: seq<Digest>, d: Digest): (r: seq<Digest>)
    ensures forall x :: x in r <==> x in list && x != d
  {
    if list == [] then []
    else if list[0] == d then RemoveAll(list[1..], d)
    else [list[0]] + RemoveAll(list[1..], d)
  }

  /** `_entries[f]`: what a lookup through the map's index operator finds, or makes. */
  function FolderOf(w: Wallet, f: QString): EntryMap {
    if f in w.entries then w.entries[f] else map[]
  }

  // ----- Operations -----

  function CreateFolder(md5: Md5, w: Wallet, f: QString): (Wallet, bool) {
    if f in w.entries then (w, false)
    else (w.(entries := w.entries[f := map[]], hashes := w.hashes[md5(f) := []]), true)
  }

  /** Files an entry under a new name; the entry itself still carries the old one. */
  function RenameEntry(md5: Md5, w: Wallet, oldName: QString, newName: QString): (Wallet, int) {
    var em := FolderOf(w, w.folder);
    if oldName in em && newName !in em then
      var moved := (em - {oldName})[newName := em[oldName]];
      var h := md5(w.folder);
      (w.(entries := w.entries[w.folder := moved],
          hashes := if h in w.hashes then w.hashes[h := RemoveAll(w.hashes[h], md5(oldName)) + [md5(newName)]] else w.hashes),
       0)
    else (w.(entries := w.entries[w.folder := em]), -1)
  }

  /** Adds or overwrites; the digest is appended either way. */
  function WriteEntry(md5: Md5, w: Wallet, e: Entry): Wallet {
    if !w.open then w
    else
      var h := md5(w.folder);
      w.(entries := w.entries[w.folder := FolderOf(w, w.folder)[e.key := e]],
         hashes := if h in w.hashes then w.hashes[h := w.hashes[h] + [md5(e.key)]] else w.hashes)
  }

  function RemoveEntry(md5: Md5, w: Wallet, key: QString): (Wallet, bool)
    requires w.open ==> w.folder in w.entries
  {
    if !w.open then (w, false)
    else
      var em := w.entries[w.folder];
      if key in em then
        var h := md5(w.folder);
        (w.(entries := w.entries[w.folder := em - {key}],
            hashes := if h in w.hashes then w.hashes[h := RemoveAll(w.hashes[h], md5(key))] else w.hashes),
         true)
      else (w, false)
  }

  function RemoveFolder(md5: Md5, w: Wallet, f: QString): (Wallet, bool) {
    if !w.open || f !in w.entries then (w, false)
    else
      (w.(folder := if w.folder == f then [] else w.folder, entries := w.entries - {f}, hashes := w.hashes - {md5(f)}), true)
  }

  /** `readEntryList`: looks the current folder up with the index operator, and so makes it. */
  function ReadEntryList(w: Wallet): Wallet {
    if !w.open then w else w.(entries := w.entries[w.folder := FolderOf(w, w.folder)])
  }

  /** A close that is not stopped by a failed save. The index stays. */
  function Close(w: Wallet): Wallet {
    w.(open := false, entries := map[])
  }

  /** Opening where there is no file: whatever folders and index there are stay. */
  function OpenNew(w: Wallet): Wallet {
    w.(open := true)
  }

  /** Opening a file of any content; an open wallet refuses. */
  function OpenFile(setup: WalletFile.Setup, w: Wallet, key: seq<byte>, file: seq<byte>, stale: WalletFile.Stale): Wallet
    requires setup.Valid() && |file| >= WalletFile.SMALLEST
  {
    if w.open then w
    else
      var r := WalletFile.LoadFile(setup, key, file, w.hashes, w.entries, stale);
      Wallet(r.rc == 0, w.folder, r.entries, r.hashes)
  }

  function FolderDoesNotExist(md5: Md5, w: Wallet, f: QString): bool {
    md5(f) !in w.hashes
  }

  function EntryDoesNotExist(md5: Md5, w: Wallet, f: QString, key: QString): bool {
    md5(f) in w.hashes ==> md5(key) !in w.hashes[md5(f)]
  }

  // ----- Exactness -----

  /** The index answers rightly for every folder name and every entry name among `names`. */
  ghost predicate Exact(md5: Md5, w: Wallet, names: set<QString>) {
    && (forall f :: f in names ==> (FolderDoesNotExist(md5, w, f) <==> f !in w.entries))
    && (forall f, k :: f in names && k in names ==>
          (EntryDoesNotExist(md5, w, f, k) <==> !(f in w.entries && k in w.entries[f])))
  }

  /** No two of the names have one digest. */
  ghost predicate Injective(md5: Md5, names: set<QString>) {
    forall a, b :: a in names && b in names && md5(a) == md5(b) ==> a == b
  }

  lemma CreateFolderExact(md5: Md5, w: Wallet, names: set<QString>, f: QString)
    requires Exact(md5, w, names) && Injective(md5, names) && f in names
    ensures Exact(md5, CreateFolder(md5, w, f).0, names)
  {
  }

  lemma RemoveFolderExact(md5: Md5, w: Wallet, names: set<QString>, f: QString)
    requires Exact(md5, w, names) && Injective(md5, names) && f in names
    ensures Exact(md5, RemoveFolder(md5, w, f).0, names)
  {
  }

  lemma RemoveEntryExact(md5: Md5, w: Wallet, names: set<QString>, key: QString)
    requires w.open ==> w.folder in w.entries
    requires Exact(md5, w, names) && Injective(md5, names) && key in names && w.folder in names
    ensures Exact(md5, RemoveEntry(md5, w, key).0, names)
  {
    var t := RemoveEntry(md5, w, key).0;
    forall f, k | f in names && k in names
      ensures EntryDoesNotExist(md5, t, f, k) <==> !(f in t.entries && k in t.entries[f])
    {
      assert EntryDoesNotExist(md5, w, f, k) <==> !(f in w.entries && k in w.entries[f]);
      assert FolderDoesNotExist(md5, w, f) <==> f !in w.entries;
    }
    forall f | f in names ensures FolderDoesNotExist(md5, t, f) <==> f !in t.entries {
      assert FolderDoesNotExist(md5, w, f) <==> f !in w.entries;
    }
  }

  /** Writing keeps the index right exactly when the current folder exists, or the wallet is closed. */
  lemma WriteEntryExact(md5: Md5, w: Wallet, names: set<QString>, e: Entry)
    requires Exact(md5, w, names) && Injective(md5, names) && e.key in names && w.folder in names
    ensures Exact(md5, WriteEntry(md5, w, e), names) <==> (w.open ==> w.folder in w.entries)
  {
  }

  /** Renaming keeps the index right exactly when the current folder exists, even where it fails. */
  lemma RenameEntryExact(md5: Md5, w: Wallet, names: set<QString>, oldName: QString, newName: QString)
    requires Exact(md5, w, names) && Injective(md5, names)
    requires oldName in names && newName in names && w.folder in names
    ensures Exact(md5, RenameEntry(md5, w, oldName, newName).0, names) <==> w.folder in w.entries
  {
  }

  /** Listing the entries keeps it right exactly when the current folder exists, or the wallet is closed. */
  lemma ReadEntryListExact(md5: Md5, w: Wallet, names: set<QString>)
    requires Exact(md5, w, names) && w.folder in names
    ensures Exact(md5, ReadEntryList(w), names) <==> (w.open ==> w.folder in w.entries)
  {
    if w.open && w.folder !in w.entries {
      assert FolderDoesNotExist(md5, ReadEntryList(w), w.folder);
    }
  }

  /** The index knows none of the names as a folder. */
  ghost predicate KnowsNone(md5: Md5, w: Wallet, names: set<QString>) {
    forall f :: f in names ==> FolderDoesNotExist(md5, w, f)
  }

  /** After closing the index is right exactly when it knew none of the names before. */
  lemma CloseExact(md5: Md5, w: Wallet, names: set<QString>)
    ensures Exact(md5, Close(w), names) <==> KnowsNone(md5, w, names)
  {
    var v := Close(w);
    forall f | f in names ensures FolderDoesNotExist(md5, v, f) <==> FolderDoesNotExist(md5, w, f) {
    }
    if KnowsNone(md5, w, names) {
      forall f, k | f in names && k in names
        ensures EntryDoesNotExist(md5, v, f, k)
      {
        assert FolderDoesNotExist(md5, w, f);
      }
    }
  }

  /** Creating a wallet leaves the index as right or wrong as it was. */
  lemma OpenNewExact(md5: Md5, w: Wallet, names: set<QString>)
    ensures Exact(md5, OpenNew(w), names) <==> Exact(md5, w, names)
    ensures w.entries == map[] ==> (Exact(md5, OpenNew(w), names) <==> KnowsNone(md5, w, names))
  {
    var v := OpenNew(w);
    assert forall f :: FolderDoesNotExist(md5, v, f) == FolderDoesNotExist(md5, w, f);
    assert forall f, k :: EntryDoesNotExist(md5, v, f, k) == EntryDoesNotExist(md5, w, f, k);
    if w.entries == map[] {
      CloseExact(md5, w, names);
      assert Exact(md5, Close(w), names) <==> Exact(md5, w, names);
    }
  }

  /** The digests of those of the names that are in a set. */
  function DigestsOf(md5: Md5, names: set<QString>, s: set<QString>): set<Digest> {
    set f | f in names && f in s :: md5(f)
  }

  /**
   A digest block agrees with folders, as far as the names go: it has the digests of the folders
   and of no other name, and under each the digests of its keys and of no other name.
   */
  ghost predicate BlockAgrees(md5: Md5, block: HashMap, m: FolderMap, names: set<QString>) {
    var all := DigestsOf(md5, names, names);
    && block.Keys * all == DigestsOf(md5, names, m.Keys)
    && forall f :: f in names && f in m && md5(f) in block ==>
         (set d | d in block[md5(f)]) * all == DigestsOf(md5, names, m[f].Keys)
  }

  lemma DigestIn(md5: Md5, names: set<QString>, s: set<QString>, f: QString)
    requires Injective(md5, names) && f in names
    ensures md5(f) in DigestsOf(md5, names, s) <==> f in s
    ensures md5(f) in DigestsOf(md5, names, names)
  {
  }

  /** An index is right exactly when it agrees, as a digest block, with the folders. */
  lemma ExactIffAgrees(md5: Md5, w: Wallet, names: set<QString>)
    requires Injective(md5, names)
    ensures Exact(md5, w, names) <==> BlockAgrees(md5, w.hashes, w.entries, names)
  {
    hide DigestsOf;
    var all := DigestsOf(md5, names, names);
    if Exact(md5, w, names) {
      forall d ensures d in w.hashes.Keys * all <==> d in DigestsOf(md5, names, w.entries.Keys) {
        DigestsFrom(md5, names, names, d);
        DigestsFrom(md5, names, w.entries.Keys, d);
        FolderSide(md5, w, names);
      }
      forall f | f in names && f in w.entries && md5(f) in w.hashes
        ensures (set d | d in w.hashes[md5(f)]) * all == DigestsOf(md5, names, w.entries[f].Keys)
      {
        forall d ensures d in (set d | d in w.hashes[md5(f)]) * all <==> d in DigestsOf(md5, names, w.entries[f].Keys) {
          DigestsFrom(md5, names, names, d);
          DigestsFrom(md5, names, w.entries[f].Keys, d);
          KeySide(md5, w, names, f);
        }
      }
    }
    if BlockAgrees(md5, w.hashes, w.entries, names) {
      forall f | f in names
        ensures FolderDoesNotExist(md5, w, f) <==> f !in w.entries
      {
        DigestIn(md5, names, w.entries.Keys, f);
        assert md5(f) in w.hashes <==> md5(f) in w.hashes.Keys * all;
      }
      forall f, k | f in names && k in names
        ensures EntryDoesNotExist(md5, w, f, k) <==> !(f in w.entries && k in w.entries[f])
      {
        assert FolderDoesNotExist(md5, w, f) <==> f !in w.entries;
        DigestIn(md5, names, names, k);
        if f in w.entries {
          DigestIn(md5, names, w.entries[f].Keys, k);
          assert md5(k) in w.hashes[md5(f)] <==> md5(k) in (set d | d in w.hashes[md5(f)]) * all;
        }
      }
    }
  }

  lemma DigestsFrom(md5: Md5, names: set<QString>, s: set<QString>, d: Digest)
    ensures d in DigestsOf(md5, names, s) <==> exists f :: f in names && f in s && md5(f) == d
  {
  }

  lemma FolderSide(md5: Md5, w: Wallet, names: set<QString>)
    requires Exact(md5, w, names)
    ensures forall f :: f in names ==> (md5(f) in w.hashes <==> f in w.entries)
  {
    forall f | f in names ensures md5(f) in w.hashes <==> f in w.entries {
      assert FolderDoesNotExist(md5, w, f) <==> f !in w.entries;
    }
  }

  lemma KeySide(md5: Md5, w: Wallet, names: set<QString>, f: QString)
    requires Exact(md5, w, names) && f in names && f in w.entries && md5(f) in w.hashes
    ensures forall k :: k in names ==> (md5(k) in w.hashes[md5(f)] <==> k in w.entries[f])
  {
    forall k | k in names ensures md5(k) in w.hashes[md5(f)] <==> k in w.entries[f] {
      assert EntryDoesNotExist(md5, w, f, k) <==> !(f in w.entries && k in w.entries[f]);
    }
  }

  lemma BlockOfNothing(md5: Md5, block: HashMap, names: set<QString>)
    ensures BlockAgrees(md5, block, map[], names) <==> forall f :: f in names ==> md5(f) !in block
  {
    var all, none := DigestsOf(md5, names, names), DigestsOf(md5, names, {});
    assert none == {};
    if f :| f in names && md5(f) in block {
      assert md5(f) in block.Keys * all;
    }
    if d :| d in block.Keys * all {
      DigestsFrom(md5, names, names, d);
    }
  }

  /**
   Opening any file on a closed wallet, by what stands in front of the payload and what the key
   makes of the rest. A file that is not a wallet's leaves the index as it was; one with too many
   folders leaves none; any other leaves its digest block, which has to agree with the folders in
   memory, and those in the payload if it is accepted.
   */
  lemma OpenFileExact(setup: WalletFile.Setup, w: Wallet, key: seq<byte>, file: seq<byte>, stale: WalletFile.Stale, names: set<QString>)
    requires setup.Valid() && |file| >= WalletFile.SMALLEST && !w.open && Injective(setup.digest, names)
    ensures var v := OpenFile(setup, w, key, file, stale);
      match WalletFile.ReadFront(file, stale)
      case NotWallet(_) => !v.open && (Exact(setup.digest, v, names) <==> Exact(setup.digest, w, names))
      case TooMany => !v.open && (Exact(setup.digest, v, names) <==> forall f :: f in names ==> f !in w.entries)
      case Digests(block) =>
        var u := WalletFile.Unlock(setup, key, block, stale);
        && v.open == (u.rc == 0)
        && (Exact(setup.digest, v, names) <==> BlockAgrees(setup.digest, block.hashes, w.entries + u.folders, names))
        && (!v.open ==> v.entries == w.entries)
        && (!v.open && w.entries == map[] ==>
              (Exact(setup.digest, v, names) <==> forall f :: f in names ==> setup.digest(f) !in block.hashes))
  {
    hide WalletFile.LoadFile, WalletFile.ReadFront, WalletFile.Unlock, BlockAgrees, Exact, Injective;
    var md5, v := setup.digest, OpenFile(setup, w, key, file, stale);
    WalletFile.LoadedIs(setup, key, file, w.hashes, w.entries, stale);
    ExactIffAgrees(md5, v, names);
    assert w.entries + map[] == w.entries;
    match WalletFile.ReadFront(file, stale)
    case NotWallet(_) => SameIndex(md5, v, w, names);
    case TooMany => NoIndex(md5, v, names);
    case Digests(block) => BlockOfNothing(md5, block.hashes, names);
  }

  lemma SameIndex(md5: Md5, v: Wallet, w: Wallet, names: set<QString>)
    requires v.hashes == w.hashes && v.entries == w.entries
    ensures Exact(md5, v, names) <==> Exact(md5, w, names)
  {
    assert forall f :: FolderDoesNotExist(md5, v, f) == FolderDoesNotExist(md5, w, f);
    assert forall f, k :: EntryDoesNotExist(md5, v, f, k) == EntryDoesNotExist(md5, w, f, k);
  }

  lemma NoIndex(md5: Md5, v: Wallet, names: set<QString>)
    requires v.hashes == map[]
    ensures Exact(md5, v, names) <==> forall f :: f in names ==> f !in v.entries
  {
    assert forall f :: FolderDoesNotExist(md5, v, f);
    assert forall f, k :: EntryDoesNotExist(md5, v, f, k);
  }

  /** Behind a wallet's header, opening forgets the index of before; and no key changes the new one. */
  lemma OldIndexForgotten(setup: WalletFile.Setup, w: Wallet, hashes: HashMap, key: seq<byte>, other: seq<byte>,
                          file: seq<byte>, stale: WalletFile.Stale)
    requires setup.Valid() && |file| >= WalletFile.SMALLEST && !w.open
    requires !WalletFile.ReadFront(file, stale).NotWallet?
    ensures OpenFile(setup, w.(hashes := hashes), key, file, stale) == OpenFile(setup, w, key, file, stale)
    ensures OpenFile(setup, w, other, file, stale).hashes == OpenFile(setup, w, key, file, stale).hashes
  {
    hide WalletFile.LoadFile, WalletFile.ReadFront, WalletFile.Unlock;
    WalletFile.LoadedIs(setup, key, file, w.hashes, w.entries, stale);
    WalletFile.LoadedIs(setup, key, file, hashes, w.entries, stale);
    WalletFile.LoadedIs(setup, other, file, w.hashes, w.entries, stale);
  }

  // ----- Runs -----

  datatype Op =
    | OpSelect(f: QString)
    | OpCreate(f: QString)
    | OpRemoveFolder(f: QString)
    | OpWrite(e: Entry)
    | OpRename(oldName: QString, newName: QString)
    | OpRemove(key: QString)
    | OpReadList
    | OpClose
    | OpOpenNew
    | OpOpenFile(passhash: seq<byte>, file: seq<byte>, stale: WalletFile.Stale)

  /**
   `removeEntry` looks into the current folder without checking that it is there; anything
   shorter than a wallet file is not opened as one.
   */
  predicate Defined(w: Wallet, op: Op) {
    && (op.OpRemove? && w.open ==> w.folder in w.entries)
    && (op.OpOpenFile? ==> |op.file| >= WalletFile.SMALLEST)
  }

  function Apply(setup: WalletFile.Setup, w: Wallet, op: Op): Wallet
    requires setup.Valid() && Defined(w, op)
  {
    var md5 := setup.digest;
    match op
    case OpSelect(f) => w.(folder := f)
    case OpCreate(f) => CreateFolder(md5, w, f).0
    case OpRemoveFolder(f) => RemoveFolder(md5, w, f).0
    case OpWrite(e) => WriteEntry(md5, w, e)
    case OpRename(a, b) => RenameEntry(md5, w, a, b).0
    case OpRemove(key) => RemoveEntry(md5, w, key).0
    case OpReadList => ReadEntryList(w)
    case OpClose => Close(w)
    case OpOpenNew => OpenNew(w)
    case OpOpenFile(passhash, file, stale) => OpenFile(setup, w, passhash, file, stale)
  }

  /** Which states have to have a right index: all of them, or those in which the wallet is open. */
  datatype Scope = EveryState | OpenStates

  ghost predicate Right(scope: Scope, md5: Md5, w: Wallet, names: set<QString>) {
    scope.EveryState? || w.open ==> Exact(md5, w, names)
  }

  /**
   What the wallet and the call tell before a step. A write, a rename or a listing has its
   folder. Where closed wallets count, a close finds an index that knows none of the names;
   where they do not, a creation finds a right one. A file that is opened has digests that agree
   with its folders and those in memory; where closed wallets count, a refused one has digests
   that agree with those in memory.
   */
  ghost predicate Guarded(scope: Scope, setup: WalletFile.Setup, w: Wallet, op: Op, names: set<QString>)
    requires setup.Valid() && Defined(w, op)
  {
    match op
    case OpWrite(_) => w.open ==> w.folder in w.entries
    case OpRename(_, _) => scope.EveryState? || w.open ==> w.folder in w.entries
    case OpReadList => w.open ==> w.folder in w.entries
    case OpClose => scope.EveryState? ==> KnowsNone(setup.digest, w, names)
    case OpOpenNew => scope.OpenStates? && !w.open ==> Exact(setup.digest, w, names)
    case OpOpenFile(passhash, file, stale) => w.open || FileAgrees(scope, setup, w.entries, passhash, file, stale, names)
    case _ => true
  }

  ghost predicate FileAgrees(scope: Scope, setup: WalletFile.Setup, entries: FolderMap, key: seq<byte>, file: seq<byte>,
                             stale: WalletFile.Stale, names: set<QString>)
    requires setup.Valid() && |file| >= WalletFile.SMALLEST
  {
    match WalletFile.ReadFront(file, stale)
    case NotWallet(_) => true
    case TooMany => scope.EveryState? ==> forall f :: f in names ==> f !in entries
    case Digests(block) =>
      var u := WalletFile.Unlock(setup, key, block, stale);
      if u.rc == 0 then BlockAgrees(setup.digest, block.hashes, entries + u.folders, names)
      else scope.EveryState? ==> BlockAgrees(setup.digest, block.hashes, entries, names)
  }

  predicate OpNamed(op: Op, names: set<QString>) {
    match op
    case OpSelect(f) => f in names
    case OpCreate(f) => f in names
    case OpRemoveFolder(f) => f in names
    case OpWrite(e) => e.key in names
    case OpRename(a, b) => a in names && b in names
    case OpRemove(key) => key in names
    case _ => true
  }

  predicate DefinedRun(setup: WalletFile.Setup, w: Wallet, ops: seq<Op>)
    requires setup.Valid()
    decreases |ops|
  {
    ops != [] ==> Defined(w, ops[0]) && DefinedRun(setup, Apply(setup, w, ops[0]), ops[1..])
  }

  ghost predicate GuardedRun(scope: Scope, setup: WalletFile.Setup, w: Wallet, ops: seq<Op>, names: set<QString>)
    requires setup.Valid() && DefinedRun(setup, w, ops)
    decreases |ops|
  {
    ops != [] ==>
      Guarded(scope, setup, w, ops[0], names) && GuardedRun(scope, setup, Apply(setup, w, ops[0]), ops[1..], names)
  }

  /** The index is right in every state of the run that counts, the first and the last included. */
  ghost predicate RightRun(scope: Scope, setup: WalletFile.Setup, w: Wallet, ops: seq<Op>, names: set<QString>)
    requires setup.Valid() && DefinedRun(setup, w, ops)
    decreases |ops|
  {
    && Right(scope, setup.digest, w, names)
    && (ops != [] ==> RightRun(scope, setup, Apply(setup, w, ops[0]), ops[1..], names))
  }

  lemma StepRight(scope: Scope, setup: WalletFile.Setup, w: Wallet, op: Op, names: set<QString>)
    requires setup.Valid() && Defined(w, op) && Right(scope, setup.digest, w, names) && Injective(setup.digest, names)
    requires w.folder in names && OpNamed(op, names)
    ensures Right(scope, setup.digest, Apply(setup, w, op), names) <==> Guarded(scope, setup, w, op, names)
  {
    hide Exact, Injective, BlockAgrees, KnowsNone, WalletFile.LoadFile, WalletFile.ReadFront, WalletFile.Unlock;
    var md5 := setup.digest;
    match op
    case OpOpenNew => OpenNewExact(md5, w, names);
    case OpOpenFile(passhash, file, stale) =>
      if !w.open {
        OpenFileExact(setup, w, passhash, file, stale, names);
        assert w.entries + map[] == w.entries;
      }
    case _ =>
      if scope.EveryState? || w.open {
        StepExact(setup, w, op, names);
      }
  }

  /** The steps that open nothing. */
  lemma StepExact(setup: WalletFile.Setup, w: Wallet, op: Op, names: set<QString>)
    requires setup.Valid() && Defined(w, op) && Exact(setup.digest, w, names) && Injective(setup.digest, names)
    requires w.folder in names && OpNamed(op, names) && !op.OpOpenNew? && !op.OpOpenFile?
    ensures Exact(setup.digest, Apply(setup, w, op), names) <==> Guarded(EveryState, setup, w, op, names)
  {
    hide Exact, Injective, BlockAgrees, KnowsNone;
    var md5 := setup.digest;
    match op
    case OpSelect(f) => SameIndex(md5, w.(folder := f), w, names);
    case OpCreate(f) => CreateFolderExact(md5, w, names, f);
    case OpRemoveFolder(f) => RemoveFolderExact(md5, w, names, f);
    case OpWrite(e) => WriteEntryExact(md5, w, names, e);
    case OpRename(a, b) => RenameEntryExact(md5, w, names, a, b);
    case OpRemove(key) => RemoveEntryExact(md5, w, names, key);
    case OpReadList => ReadEntryListExact(md5, w, names);
    case OpClose => CloseExact(md5, w, names);
  }

  lemma StepFolder(setup: WalletFile.Setup, w: Wallet, op: Op, names: set<QString>)
    requires setup.Valid() && Defined(w, op) && w.folder in names && [] in names && OpNamed(op, names)
    ensures Apply(setup, w, op).folder in names
  {
    hide WalletFile.LoadFile;
  }

  /**
   Over every run of operations, closings and openings included, with names no two of which
   share a digest: the index answers rightly in every state that counts exactly when it does so
   in the first, if that counts, and every step is guarded.
   */
  lemma {:induction false} IndexIsExactOverRuns(scope: Scope, setup: WalletFile.Setup, w: Wallet, ops: seq<Op>, names: set<QString>)
    requires setup.Valid() && DefinedRun(setup, w, ops) && Injective(setup.digest, names)
    requires w.folder in names && [] in names
    requires forall i :: 0 <= i < |ops| ==> OpNamed(ops[i], names)
    ensures RightRun(scope, setup, w, ops, names) <==>
            Right(scope, setup.digest, w, names) && GuardedRun(scope, setup, w, ops, names)
    decreases |ops|
  {
    hide Right, Apply, Guarded, Injective;
    if ops == [] {
    } else if Right(scope, setup.digest, w, names) {
      StepRight(scope, setup, w, ops[0], names);
      StepFolder(setup, w, ops[0], names);
      IndexIsExactOverRuns(scope, setup, Apply(setup, w, ops[0]), ops[1..], names);
    }
  }

  // ----- How an index goes wrong -----

  /** A new object has nothing to be wrong about. */
  lemma NewObjectExact(md5: Md5, names: set<QString>)
    ensures Exact(md5, Wallet(false, [], map[], map[]), names)
  {
  }

  /** A folder that was there when the wallet was closed is still in the index of a new wallet. */
  lemma ClosedFolderLingers(setup: WalletFile.Setup, w: Wallet, names: set<QString>, f: QString)
    requires setup.Valid() && f in names && f !in w.entries
    ensures var v := Apply(setup, Apply(setup, Apply(setup, w, OpCreate(f)), OpClose), OpOpenNew);
            v.open && v.entries == map[] && !FolderDoesNotExist(setup.digest, v, f) && !Exact(setup.digest, v, names)
  {
    var v := Apply(setup, Apply(setup, Apply(setup, w, OpCreate(f)), OpClose), OpOpenNew);
    assert !FolderDoesNotExist(setup.digest, v, f) && f !in v.entries;
  }

  /** Writing, renaming or listing where the current folder is missing makes it, unknown to the index. */
  lemma MissingFolderAppears(setup: WalletFile.Setup, w: Wallet, op: Op, names: set<QString>)
    requires setup.Valid() && w.open && w.folder in names && w.folder !in w.entries
    requires op.OpWrite? || op.OpRename? || op.OpReadList?
    requires FolderDoesNotExist(setup.digest, w, w.folder)
    ensures var v := Apply(setup, w, op);
            w.folder in v.entries && FolderDoesNotExist(setup.digest, v, w.folder) && !Exact(setup.digest, v, names)
  {
    var v := Apply(setup, w, op);
    assert FolderDoesNotExist(setup.digest, v, w.folder) && w.folder in v.entries;
  }

  // ----- The index of a file -----

  lemma {:induction false} KeyDigestsHold(md5: Md5, es: seq<(QString, Entry)>, d: Digest)
    ensures d in WalletFile.KeyDigests(md5, es) <==> exists i :: 0 <= i < |es| && md5(es[i].0) == d
  {
    if es == [] {
    } else {
      KeyDigestsHold(md5, es[1..], d);
      if d in WalletFile.KeyDigests(md5, es[1..]) {
        var i :| 0 <= i < |es[1..]| && md5(es[1..][i].0) == d;
        assert md5(es[i + 1].0) == d;
      }
      if i :| 0 <= i < |es| && md5(es[i].0) == d {
        if i > 0 {
          assert md5(es[1..][i - 1].0) == d;
        }
      }
    }
  }

  /** The last of the folders whose name has the digest: the one the index keeps. */
  ghost predicate LastWith(md5: Md5, fs: seq<Folder>, d: Digest, i: int) {
    0 <= i < |fs| && md5(fs[i].name) == d && forall j :: i < j < |fs| ==> md5(fs[j].name) != d
  }

  lemma LastExists(md5: Md5, fs: seq<Folder>, d: Digest, i: nat) returns (last: nat)
    requires i < |fs| && md5(fs[i].name) == d
    ensures LastWith(md5, fs, d, last)
    decreases |fs| - i
  {
    last := i;
    if j :| i < j < |fs| && md5(fs[j].name) == d {
      last := LastExists(md5, fs, d, j);
    }
  }

  lemma {:induction false} IndexKept(md5: Md5, fs: seq<Folder>, hashes: HashMap, d: Digest)
    requires forall i :: 0 <= i < |fs| ==> md5(fs[i].name) != d
    ensures var r := WalletFile.IndexOf(md5, fs, hashes); (d in r <==> d in hashes) && (d in r ==> r[d] == hashes[d])
  {
    hide WalletFile.KeyDigests;
    if fs == [] {
    } else {
      IndexKept(md5, fs[1..], hashes[md5(fs[0].name) := WalletFile.KeyDigests(md5, fs[0].entries)], d);
    }
  }

  lemma {:induction false} IndexOfLast(md5: Md5, fs: seq<Folder>, hashes: HashMap, d: Digest, i: int)
    requires LastWith(md5, fs, d, i)
    ensures var r := WalletFile.IndexOf(md5, fs, hashes); d in r && r[d] == WalletFile.KeyDigests(md5, fs[i].entries)
  {
    hide WalletFile.KeyDigests;
    var first := hashes[md5(fs[0].name) := WalletFile.KeyDigests(md5, fs[0].entries)];
    assert forall j :: 1 <= j < |fs| ==> fs[j] == fs[1..][j - 1];
    if i == 0 {
      IndexKept(md5, fs[1..], first, d);
    } else {
      IndexOfLast(md5, fs[1..], first, d, i - 1);
    }
  }

  /** Some folder's name has the digest. */
  ghost predicate FolderWith(md5: Md5, m: FolderMap, d: Digest) {
    exists g :: g in m && md5(g) == d
  }

  /** Some key of the listed folder has the digest. */
  ghost predicate KeyWith(md5: Md5, fs: seq<Folder>, m: FolderMap, i: int, e: Digest) {
    0 <= i < |fs| && fs[i].name in m && exists j :: j in m[fs[i].name] && md5(j) == e
  }

  /**
   Digests under which the folders of a wallet were listed serve for looking its names up: a name
   has the digest of some folder exactly if it is a folder, and under the last folder with that
   digest the digest of some key exactly if it is a key.
   */
  ghost predicate Serves(mine: Md5, theirs: Md5, fs: seq<Folder>, m: FolderMap, names: set<QString>) {
    && (forall f :: f in names ==> (f in m <==> FolderWith(theirs, m, mine(f))))
    && (forall f, k, i :: f in names && k in names && f in m && LastWith(theirs, fs, mine(f), i) ==>
          (k in m[f] <==> KeyWith(theirs, fs, m, i, mine(k))))
  }

  /** Same folders with the same keys. */
  predicate SameNames(a: FolderMap, b: FolderMap) {
    a.Keys == b.Keys && forall f :: f in a ==> a[f].Keys == b[f].Keys
  }

  lemma ListedFolder(theirs: Md5, fs: seq<Folder>, m: FolderMap, d: Digest)
    requires ListsWallet(fs, m)
    ensures d in WalletFile.IndexOf(theirs, fs, map[]) <==> FolderWith(theirs, m, d)
    ensures d in WalletFile.IndexOf(theirs, fs, map[]) <==> exists i :: LastWith(theirs, fs, d, i)
  {
    hide WalletFile.IndexOf, Lists;
    if i :| 0 <= i < |fs| && theirs(fs[i].name) == d {
      assert fs[i].name in m;
      var last := LastExists(theirs, fs, d, i);
      IndexOfLast(theirs, fs, map[], d, last);
    } else {
      IndexKept(theirs, fs, map[], d);
      forall g | g in m ensures theirs(g) != d {
        var i :| 0 <= i < |fs| && fs[i].name == g;
      }
    }
  }

  lemma ListedKey(theirs: Md5, fs: seq<Folder>, m: FolderMap, d: Digest, i: int, e: Digest)
    requires ListsWallet(fs, m) && LastWith(theirs, fs, d, i)
    ensures var r := WalletFile.IndexOf(theirs, fs, map[]);
            d in r && (e in r[d] <==> KeyWith(theirs, fs, m, i, e))
  {
    hide WalletFile.IndexOf, WalletFile.KeyDigests;
    IndexOfLast(theirs, fs, map[], d, i);
    var es, em := fs[i].entries, m[fs[i].name];
    KeyDigestsHold(theirs, es, e);
    if j :| j in em && theirs(j) == e {
      var n :| 0 <= n < |es| && es[n].0 == j;
    }
  }

  /** The index of a listing is right for the wallet listed exactly when its digests serve. */
  lemma ListingExact(mine: Md5, theirs: Md5, fs: seq<Folder>, m: FolderMap, w: Wallet, names: set<QString>)
    requires ListsWallet(fs, m) && SameNames(w.entries, m) && w.hashes == WalletFile.IndexOf(theirs, fs, map[])
    ensures Exact(mine, w, names) <==> Serves(mine, theirs, fs, m, names)
  {
    hide WalletFile.IndexOf, ListsWallet, LastWith, FolderWith, KeyWith;
    if Exact(mine, w, names) {
      forall f | f in names
        ensures f in m <==> FolderWith(theirs, m, mine(f))
      {
        ListedFolder(theirs, fs, m, mine(f));
        assert FolderDoesNotExist(mine, w, f) <==> f !in w.entries;
      }
      forall f, k, i | f in names && k in names && f in m && LastWith(theirs, fs, mine(f), i)
        ensures k in m[f] <==> KeyWith(theirs, fs, m, i, mine(k))
      {
        ListedKey(theirs, fs, m, mine(f), i, mine(k));
        assert EntryDoesNotExist(mine, w, f, k) <==> !(f in w.entries && k in w.entries[f]);
      }
    }
    if Serves(mine, theirs, fs, m, names) {
      forall f | f in names
        ensures FolderDoesNotExist(mine, w, f) <==> f !in w.entries
      {
        ListedFolder(theirs, fs, m, mine(f));
      }
      forall f, k | f in names && k in names
        ensures EntryDoesNotExist(mine, w, f, k) <==> !(f in w.entries && k in w.entries[f])
      {
        ListedFolder(theirs, fs, m, mine(f));
        if f in m {
          var i :| LastWith(theirs, fs, mine(f), i);
          ListedKey(theirs, fs, m, mine(f), i, mine(k));
        }
      }
    }
  }

  lemma OwnDigestsServe(md5: Md5, fs: seq<Folder>, m: FolderMap, names: set<QString>)
    requires ListsWallet(fs, m) && Injective(md5, names)
    requires forall f :: f in m ==> f in names
    requires forall f, k :: f in m && k in m[f] ==> k in names
    ensures Serves(md5, md5, fs, m, names)
  {
    forall f, g | f in names && g in m && md5(g) == md5(f) ensures f == g {
    }
    forall f, i | f in names && LastWith(md5, fs, md5(f), i) ensures 0 <= i < |fs| && fs[i].name == f {
      assert fs[i].name in m;
    }
    hide LastWith, ListsWallet;
    forall f, k, j | f in m && k in names && j in m[f] && md5(j) == md5(k) ensures k == j {
    }
  }

  /** Opening a file that `sync` wrote gives an exact index. */
  lemma OpenedWalletExact(md5: Md5, fs: seq<Folder>, m: FolderMap, folder: QString, names: set<QString>)
    requires ListsWallet(fs, m) && Injective(md5, names)
    requires forall f :: f in m ==> f in names
    requires forall f, k :: f in m && k in m[f] ==> k in names
    ensures Exact(md5, Wallet(true, folder, RefiledFolders(m), WalletFile.IndexOf(md5, fs, map[])), names)
  {
    hide WalletFile.IndexOf, ListsWallet, Exact, Serves;
    OwnDigestsServe(md5, fs, m, names);
    ListingExact(md5, md5, fs, m, Wallet(true, folder, RefiledFolders(m), WalletFile.IndexOf(md5, fs, map[])), names);
  }

  /** The bytes that `sync` writes for a wallet listed so, under a key and with random bytes. */
  ghost predicate Synced(setup: WalletFile.Setup, fs: seq<Folder>, m: FolderMap, key: seq<byte>, random: seq<byte>, file: seq<byte>)
    requires setup.Valid()
  {
    && key != [] && ListsWallet(fs, m) && |m| <= WalletFile.MOST_FOLDERS
    && |PrintFolders(fs)| < 0x7fff_ffd0 && |random| == 8 + WalletFile.Delta(|PrintFolders(fs)|)
    && file == WalletFile.Image(setup, fs, key, random) && |file| >= WalletFile.SMALLEST
  }

  /** What is left of a synced file when it is opened, under any key, on a closed wallet. */
  lemma SyncedIndex(mine: WalletFile.Setup, theirs: WalletFile.Setup, fs: seq<Folder>, m: FolderMap, sealedWith: seq<byte>,
                    random: seq<byte>, file: seq<byte>, w: Wallet, key: seq<byte>, stale: WalletFile.Stale)
    requires mine.Valid() && theirs.Valid() && !w.open && Synced(theirs, fs, m, sealedWith, random, file)
    ensures var v := OpenFile(mine, w, key, file, stale);
            && v.hashes == WalletFile.IndexOf(theirs.digest, fs, map[])
            && (!v.open ==> v.entries == w.entries)
            && (key == [] ==> !v.open)
  {
    hide OpenFile, WalletFile.IndexOf, WalletFile.ReadFront, WalletFile.Image, PrintFolders, ListsWallet;
    SyncedFront(theirs, fs, m, sealedWith, random, file, stale);
    BehindFront(mine, file, w, key, stale);
  }

  lemma BehindFront(setup: WalletFile.Setup, file: seq<byte>, w: Wallet, key: seq<byte>, stale: WalletFile.Stale)
    requires setup.Valid() && !w.open && |file| >= WalletFile.SMALLEST && WalletFile.ReadFront(file, stale).Digests?
    ensures var v := OpenFile(setup, w, key, file, stale);
            && v.hashes == WalletFile.ReadFront(file, stale).block.hashes
            && (!v.open ==> v.entries == w.entries)
            && (key == [] ==> !v.open)
  {
    hide WalletFile.LoadFile, WalletFile.ReadFront, WalletFile.Unlock;
    WalletFile.LoadedIs(setup, key, file, w.hashes, w.entries, stale);
    NoKeyRefused(setup, WalletFile.ReadFront(file, stale).block, stale);
    assert w.entries + map[] == w.entries;
  }

  lemma SyncedFront(setup: WalletFile.Setup, fs: seq<Folder>, m: FolderMap, key: seq<byte>, random: seq<byte>, file: seq<byte>,
                    stale: WalletFile.Stale)
    requires setup.Valid() && Synced(setup, fs, m, key, random, file)
    ensures var f := WalletFile.ReadFront(file, stale);
            f.Digests? && f.block.hashes == WalletFile.IndexOf(setup.digest, fs, map[])
  {
    hide WalletFile.ReadFront, WalletFile.IndexOf, WalletFile.Image, PrintFolders, ListsWallet;
    WalletFile.NamesCount(fs, m);
    WalletFile.ImageFront(setup, fs, key, random, stale);
  }

  lemma NoKeyRefused(setup: WalletFile.Setup, block: WalletFile.DigestBlock, stale: WalletFile.Stale)
    requires setup.Valid()
    ensures WalletFile.Unlock(setup, [], block, stale).rc != 0
  {
    hide Feistel.KeySchedule, Feistel.DecryptBlocks, Feistel.Strong, WalletFile.UnlockPayload;
  }

  /**
   After any attempt to open a file that `sync` wrote, with the key or with any other, both
   queries answer for the wallet in the file.
   */
  lemma QueriesAnswerForFile(setup: WalletFile.Setup, fs: seq<Folder>, m: FolderMap, sealedWith: seq<byte>, random: seq<byte>,
                             file: seq<byte>, w: Wallet, key: seq<byte>, stale: WalletFile.Stale, names: set<QString>)
    requires setup.Valid() && !w.open && Injective(setup.digest, names)
    requires Synced(setup, fs, m, sealedWith, random, file)
    requires forall f :: f in m ==> f in names
    requires forall f, k :: f in m && k in m[f] ==> k in names
    ensures var v := OpenFile(setup, w, key, file, stale);
            && (forall f :: f in names ==> (FolderDoesNotExist(setup.digest, v, f) <==> f !in m))
            && (forall f, k :: f in names && k in names ==>
                  (EntryDoesNotExist(setup.digest, v, f, k) <==> !(f in m && k in m[f])))
  {
    hide WalletFile.Image, WalletFile.LoadFile, WalletFile.IndexOf, PrintFolders, ListsWallet, Injective, Serves;
    SyncedIndex(setup, setup, fs, m, sealedWith, random, file, w, key, stale);
    var v := OpenFile(setup, w, key, file, stale);
    OwnDigestsServe(setup.digest, fs, m, names);
    ListingExact(setup.digest, setup.digest, fs, m, v.(entries := m), names);
    assert forall f :: FolderDoesNotExist(setup.digest, v, f) == FolderDoesNotExist(setup.digest, v.(entries := m), f);
    assert forall f, k :: EntryDoesNotExist(setup.digest, v, f, k) == EntryDoesNotExist(setup.digest, v.(entries := m), f, k);
  }

  /**
   A key that a file refuses leaves a closed wallet with the file's index, which is wrong for a
   wallet without folders as soon as one of the names is a folder in the file. Having no key is
   one that every file refuses.
   */
  lemma WrongKeyLeavesIndex(setup: WalletFile.Setup, fs: seq<Folder>, m: FolderMap, sealedWith: seq<byte>, random: seq<byte>,
                            file: seq<byte>, w: Wallet, key: seq<byte>, stale: WalletFile.Stale, names: set<QString>)
    requires setup.Valid() && !w.open && w.entries == map[]
    requires Synced(setup, fs, m, sealedWith, random, file)
    ensures var v := OpenFile(setup, w, key, file, stale);
            && (key == [] ==> !v.open)
            && (!v.open ==>
                  && v.entries == map[] && v.hashes == WalletFile.IndexOf(setup.digest, fs, map[])
                  && (Exact(setup.digest, v, names) <==>
                      forall f, g :: f in names && g in m ==> setup.digest(f) != setup.digest(g))
                  && ((exists f :: f in names && f in m) ==> !Exact(setup.digest, v, names)))
  {
    hide WalletFile.Image, WalletFile.LoadFile, WalletFile.IndexOf, PrintFolders, ListsWallet;
    SyncedIndex(setup, setup, fs, m, sealedWith, random, file, w, key, stale);
    var v := OpenFile(setup, w, key, file, stale);
    if !v.open {
      CloseExact(setup.digest, v, names);
      SameIndex(setup.digest, Close(v), v, names);
      forall f | f in names
        ensures FolderDoesNotExist(setup.digest, v, f) <==> forall g :: g in m ==> setup.digest(f) != setup.digest(g)
      {
        ListedFolder(setup.digest, fs, m, setup.digest(f));
      }
    }
  }

  // ----- A digest block that is not the payload's -----

  /** Reading takes the digests as they are: they are never compared with the names. */
  lemma DigestsUnchecked(mine: WalletFile.Setup, theirs: WalletFile.Setup, key: seq<byte>, file: seq<byte>,
                         hashes: HashMap, entries: FolderMap, stale: WalletFile.Stale)
    requires mine.Valid() && theirs.Valid() && mine.constants == theirs.constants && |file| >= WalletFile.SMALLEST
    ensures WalletFile.LoadFile(mine, key, file, hashes, entries, stale) ==
            WalletFile.LoadFile(theirs, key, file, hashes, entries, stale)
  {
    hide WalletFile.ReadFront, WalletFile.LoadPayload, WalletFile.Usable, Feistel.KeySchedule, Feistel.DecryptBlocks;
  }

  /**
   A wallet file whose digests are of other names than its folders opens with code 0, and the
   folders are all there; the index is right exactly when the digests serve all the same.
   */
  lemma ForeignDigestsOpen(mine: WalletFile.Setup, theirs: WalletFile.Setup, fs: seq<Folder>, m: FolderMap, key: seq<byte>,
                           random: seq<byte>, file: seq<byte>, w: Wallet, stale: WalletFile.Stale, names: set<QString>)
    requires mine.Valid() && theirs.Valid() && mine.constants == theirs.constants && WalletFile.Usable(mine.constants, key)
    requires Synced(theirs, fs, m, key, random, file) && AllKnown(m)
    requires !w.open && w.entries == map[]
    ensures var v := OpenFile(mine, w, key, file, stale);
            && v.open && v.entries == RefiledFolders(m) && v.hashes == WalletFile.IndexOf(theirs.digest, fs, map[])
            && (Exact(mine.digest, v, names) <==> Serves(mine.digest, theirs.digest, fs, m, names))
  {
    hide WalletFile.Image, WalletFile.LoadFile, WalletFile.IndexOf, PrintFolders, AllKnown, Serves, Exact,
         RefiledFolders, ListsWallet, WalletFile.Delta, Feistel.Strong, Feistel.KeySchedule;
    WalletFile.ReopenSynced(theirs, fs, m, key, random, w.hashes, w.entries, stale);
    DigestsUnchecked(mine, theirs, key, file, w.hashes, w.entries, stale);
    assert map[] + RefiledFolders(m) == RefiledFolders(m);
    RefiledNames(m);
    ListingExact(mine.digest, theirs.digest, fs, m, OpenFile(mine, w, key, file, stale), names);
  }

  /** A synced file opened with its key where there are no folders always has digests that agree. */
  lemma SyncedFileAgrees(scope: Scope, setup: WalletFile.Setup, fs: seq<Folder>, m: FolderMap, key: seq<byte>,
                         random: seq<byte>, file: seq<byte>, stale: WalletFile.Stale, names: set<QString>)
    requires setup.Valid() && WalletFile.Usable(setup.constants, key) && Injective(setup.digest, names)
    requires Synced(setup, fs, m, key, random, file) && AllKnown(m)
    requires forall f :: f in m ==> f in names
    requires forall f, k :: f in m && k in m[f] ==> k in names
    ensures FileAgrees(scope, setup, map[], key, file, stale, names)
  {
    hide OpenFile, ListsWallet, AllKnown, Injective, BlockAgrees, Exact, Serves, RefiledFolders, PrintFolders,
         WalletFile.ReadFront, WalletFile.Unlock, WalletFile.Image, WalletFile.IndexOf, WalletFile.Usable;
    var w := Wallet(false, [], map[], map[]);
    ForeignDigestsOpen(setup, setup, fs, m, key, random, file, w, stale, names);
    OwnDigestsServe(setup.digest, fs, m, names);
    OpenFileExact(setup, w, key, file, stale, names);
  }

  lemma RefiledNames(m: FolderMap)
    ensures SameNames(RefiledFolders(m), m)
  {
  }
}
