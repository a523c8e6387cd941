/**
 What reading a wallet gives after its operations, told key by key: a wallet seen as the answers
 it gives, without maps, and the proof that every run of operations answers so.
 */
module WalletReading {
  import opened Bytes
  import opened Options
  import opened QtStream
  import opened WalletFormat
  import opened WalletIndex
  import WalletFile

  /** The entry filed under a key of a folder. */
  function Lookup(m: FolderMap, f: QString, key: QString): Option<Entry> {
    if f in m && key in m[f] then Some(m[f][key]) else None
  }

  /** A wallet as it answers: which folders there are, and what is read under a key of a folder. */
  datatype Answers = Answers(open: bool, folder: QString, has: QString -> bool, read: (QString, QString) -> Option<Entry>)

  ghost predicate Gives(w: Wallet, a: Answers) {
    && w.open == a.open && w.folder == a.folder
    && (forall f :: f in w.entries <==> a.has(f))
    && (forall f, k :: Lookup(w.entries, f, k) == a.read(f, k))
  }

  /** The answers after an operation, in terms of those before it. */
  function Told(setup: WalletFile.Setup, a: Answers, op: Op): Answers
    requires setup.Valid() && (op.OpOpenFile? ==> |op.file| >= WalletFile.SMALLEST)
  {
    var cur := a.folder;
    var withCur := (f: QString) => f == cur || a.has(f);
    match op
    case OpSelect(f) => a.(folder := f)
    case OpCreate(f) => a.(has := g => g == f || a.has(g))
    case OpRemoveFolder(f) =>
      if !a.open || !a.has(f) then a
      else Answers(true, if cur == f then [] else cur, g => g != f && a.has(g), (g, k) => if g == f then None else a.read(g, k))
    case OpWrite(e) =>
      if !a.open then a
      else a.(has := withCur, read := (f, k) => if f == cur && k == e.key then Some(e) else a.read(f, k))
    case OpRename(oldName, newName) =>
      if a.read(cur, oldName).None? || a.read(cur, newName).Some? then a.(has := withCur)
      else
        a.(has := withCur,
           read := (f, k) => if f != cur then a.read(f, k) else if k == newName then a.read(cur, oldName)
                             else if k == oldName then None else a.read(f, k))
    case OpRemove(key) =>
      if !a.open then a else a.(read := (f, k) => if f == cur && k == key then None else a.read(f, k))
    case OpReadList => if !a.open then a else a.(has := withCur)
    case OpClose => Answers(false, cur, _ => false, (_, _) => None)
    case OpOpenNew => a.(open := true)
    case OpOpenFile(key, file, stale) => if a.open then a else ToldByFile(setup, a, key, file, stale)
  }

  /** A file that opens answers for its own folders; what was in memory, for the others. */
  function ToldByFile(setup: WalletFile.Setup, a: Answers, key: seq<byte>, file: seq<byte>, stale: WalletFile.Stale): Answers
    requires setup.Valid() && |file| >= WalletFile.SMALLEST
  {
    match WalletFile.ReadFront(file, stale)
    case Digests(block) =>
      var u := WalletFile.Unlock(setup, key, block, stale);
      if u.rc != 0 then a
      else Answers(true, a.folder, f => f in u.folders || a.has(f),
                   (f, k) => if f in u.folders then Lookup(u.folders, f, k) else a.read(f, k))
    case _ => a
  }

  lemma LaidOver(m: FolderMap, n: FolderMap, f: QString, key: QString)
    ensures Lookup(m + n, f, key) == if f in n then Lookup(n, f, key) else Lookup(m, f, key)
  {
  }

  lemma FileGives(setup: WalletFile.Setup, w: Wallet, a: Answers, key: seq<byte>, file: seq<byte>, stale: WalletFile.Stale)
    requires setup.Valid() && |file| >= WalletFile.SMALLEST && Gives(w, a)
    ensures Gives(OpenFile(setup, w, key, file, stale), if a.open then a else ToldByFile(setup, a, key, file, stale))
  {
    hide WalletFile.LoadFile, WalletFile.ReadFront, WalletFile.Unlock, Lookup;
    if !w.open {
      WalletFile.LoadedIs(setup, key, file, w.hashes, w.entries, stale);
      assert w.entries + map[] == w.entries;
      var v, b := OpenFile(setup, w, key, file, stale), ToldByFile(setup, a, key, file, stale);
      var front := WalletFile.ReadFront(file, stale);
      if front.Digests? && WalletFile.Unlock(setup, key, front.block, stale).rc == 0 {
        var u := WalletFile.Unlock(setup, key, front.block, stale);
        forall f, k ensures Lookup(v.entries, f, k) == b.read(f, k) {
          LaidOver(w.entries, u.folders, f, k);
        }
      } else {
        assert v.entries == w.entries && !v.open && b == a;
      }
    }
  }

  lemma FolderStepGives(setup: WalletFile.Setup, w: Wallet, a: Answers, op: Op)
    requires setup.Valid() && Defined(w, op) && Gives(w, a)
    requires op.OpCreate? || op.OpReadList? || op.OpRemoveFolder?
    ensures Gives(Apply(setup, w, op), Told(setup, a, op))
  {
  }

  lemma EntryStepGives(setup: WalletFile.Setup, w: Wallet, a: Answers, op: Op)
    requires setup.Valid() && Defined(w, op) && Gives(w, a)
    requires op.OpWrite? || op.OpRemove?
    ensures Gives(Apply(setup, w, op), Told(setup, a, op))
  {
  }

  /** What a renaming does to what is read, on the wallet's side. */
  lemma Renamed(md5: Md5, w: Wallet, oldName: QString, newName: QString, f: QString, k: QString)
    ensures var v := RenameEntry(md5, w, oldName, newName).0; var cur := w.folder;
      && (f in v.entries <==> f == cur || f in w.entries)
      && Lookup(v.entries, f, k) ==
         if Lookup(w.entries, cur, oldName).None? || Lookup(w.entries, cur, newName).Some? || f != cur then Lookup(w.entries, f, k)
         else if k == newName then Lookup(w.entries, cur, oldName)
         else if k == oldName then None
         else Lookup(w.entries, f, k)
  {
  }

  lemma RenameGives(setup: WalletFile.Setup, w: Wallet, a: Answers, oldName: QString, newName: QString)
    requires setup.Valid() && Gives(w, a)
    ensures Gives(Apply(setup, w, OpRename(oldName, newName)), Told(setup, a, OpRename(oldName, newName)))
  {
    hide RenameEntry, Lookup;
    var v := Apply(setup, w, OpRename(oldName, newName));
    var b := Told(setup, a, OpRename(oldName, newName));
    assert v.open == w.open && v.folder == w.folder by {
      RenameKeeps(setup.digest, w, oldName, newName);
    }
    forall f ensures f in v.entries <==> b.has(f) {
      Renamed(setup.digest, w, oldName, newName, f, oldName);
    }
    forall f, k ensures Lookup(v.entries, f, k) == b.read(f, k) {
      Renamed(setup.digest, w, oldName, newName, f, k);
    }
  }

  lemma RenameKeeps(md5: Md5, w: Wallet, oldName: QString, newName: QString)
    ensures var v := RenameEntry(md5, w, oldName, newName).0; v.open == w.open && v.folder == w.folder
  {
  }

  /** Every operation changes the answers as told. */
  lemma StepGives(setup: WalletFile.Setup, w: Wallet, a: Answers, op: Op)
    requires setup.Valid() && Defined(w, op) && Gives(w, a)
    ensures Gives(Apply(setup, w, op), Told(setup, a, op))
  {
    match op
    case OpRename(oldName, newName) => RenameGives(setup, w, a, oldName, newName);
    case OpOpenFile(key, file, stale) =>
      hide OpenFile, ToldByFile, Gives;
      FileGives(setup, w, a, key, file, stale);
    case OpSelect(_) =>
    case OpClose =>
    case OpOpenNew =>
    case OpWrite(_) => EntryStepGives(setup, w, a, op);
    case OpRemove(_) => EntryStepGives(setup, w, a, op);
    case _ => FolderStepGives(setup, w, a, op);
  }

  function Final(setup: WalletFile.Setup, w: Wallet, ops: seq<Op>): Wallet
    requires setup.Valid() && DefinedRun(setup, w, ops)
    decreases |ops|
  {
    if ops == [] then w else Final(setup, Apply(setup, w, ops[0]), ops[1..])
  }

  function ToldRun(setup: WalletFile.Setup, a: Answers, ops: seq<Op>): Answers
    requires setup.Valid() && forall i :: 0 <= i < |ops| ==> (ops[i].OpOpenFile? ==> |ops[i].file| >= WalletFile.SMALLEST)
    decreases |ops|
  {
    if ops == [] then a else ToldRun(setup, Told(setup, a, ops[0]), ops[1..])
  }

  /** After every run of operations, reading gives what the run tells. */
  lemma {:induction false} RunGives(setup: WalletFile.Setup, w: Wallet, a: Answers, ops: seq<Op>)
    requires setup.Valid() && DefinedRun(setup, w, ops) && Gives(w, a)
    requires forall i :: 0 <= i < |ops| ==> (ops[i].OpOpenFile? ==> |ops[i].file| >= WalletFile.SMALLEST)
    ensures Gives(Final(setup, w, ops), ToldRun(setup, a, ops))
    decreases |ops|
  {
    hide Gives, Apply, Told;
    if ops == [] {
    } else {
      StepGives(setup, w, a, ops[0]);
      RunGives(setup, Apply(setup, w, ops[0]), Told(setup, a, ops[0]), ops[1..]);
    }
  }

  // ----- In particular -----

  /** What is written is read, and nothing else changes. */
  lemma WrittenIsRead(setup: WalletFile.Setup, w: Wallet, e: Entry)
    requires setup.Valid() && w.open
    ensures var v := Apply(setup, w, OpWrite(e));
            && Lookup(v.entries, w.folder, e.key) == Some(e)
            && forall f, k :: (f, k) != (w.folder, e.key) ==> Lookup(v.entries, f, k) == Lookup(w.entries, f, k)
  {
  }

  /** A step that may change what is read under a key of a folder. */
  predicate Touches(setup: WalletFile.Setup, w: Wallet, op: Op, f: QString, key: QString)
    requires setup.Valid() && Defined(w, op)
  {
    match op
    case OpRemoveFolder(g) => w.open && g == f
    case OpWrite(e) => w.open && w.folder == f && e.key == key
    case OpRename(a, b) => w.folder == f && (a == key || b == key)
    case OpRemove(k) => w.open && w.folder == f && k == key
    case OpClose => true
    case OpOpenFile(_, _, _) => !w.open
    case _ => false
  }

  ghost predicate Untouched(setup: WalletFile.Setup, w: Wallet, ops: seq<Op>, f: QString, key: QString)
    requires setup.Valid() && DefinedRun(setup, w, ops)
    decreases |ops|
  {
    ops != [] ==> !Touches(setup, w, ops[0], f, key) && Untouched(setup, Apply(setup, w, ops[0]), ops[1..], f, key)
  }

  lemma StepUntouched(setup: WalletFile.Setup, w: Wallet, op: Op, f: QString, key: QString)
    requires setup.Valid() && Defined(w, op) && !Touches(setup, w, op, f, key)
    ensures Lookup(Apply(setup, w, op).entries, f, key) == Lookup(w.entries, f, key)
  {
    hide WalletFile.LoadFile;
  }

  lemma {:induction false} StaysAsRead(setup: WalletFile.Setup, w: Wallet, ops: seq<Op>, f: QString, key: QString)
    requires setup.Valid() && DefinedRun(setup, w, ops) && Untouched(setup, w, ops, f, key)
    ensures Lookup(Final(setup, w, ops).entries, f, key) == Lookup(w.entries, f, key)
    decreases |ops|
  {
    hide Lookup, Apply, Touches;
    if ops == [] {
    } else {
      StepUntouched(setup, w, ops[0], f, key);
      StaysAsRead(setup, Apply(setup, w, ops[0]), ops[1..], f, key);
    }
  }

  /** Reading gives the last entry written, unless it was removed, renamed, closed or read anew since. */
  lemma LastWriteIsRead(setup: WalletFile.Setup, w: Wallet, e: Entry, later: seq<Op>)
    requires setup.Valid() && w.open
    requires var v := Apply(setup, w, OpWrite(e));
             DefinedRun(setup, v, later) && Untouched(setup, v, later, w.folder, e.key)
    ensures Lookup(Final(setup, Apply(setup, w, OpWrite(e)), later).entries, w.folder, e.key) == Some(e)
  {
    hide Apply, Untouched, Lookup;
    WrittenIsRead(setup, w, e);
    StaysAsRead(setup, Apply(setup, w, OpWrite(e)), later, w.folder, e.key);
  }

  /** What the operations return. */
  lemma ReturnValues(md5: Md5, w: Wallet, f: QString, key: QString, oldName: QString, newName: QString)
    ensures CreateFolder(md5, w, f).1 <==> f !in w.entries
    ensures RemoveFolder(md5, w, f).1 <==> w.open && f in w.entries
    ensures (w.open ==> w.folder in w.entries) ==>
              (RemoveEntry(md5, w, key).1 <==> w.open && Lookup(w.entries, w.folder, key).Some?)
    ensures RenameEntry(md5, w, oldName, newName).1 ==
              if Lookup(w.entries, w.folder, oldName).Some? && Lookup(w.entries, w.folder, newName).None? then 0 else -1
  {
  }
}
