/**
 The wallet object: folders and entries, the digest index, the password hash, and the file at
 its path. `Sync` prints the wallet, `OpenInternal` reads it back.
 */
module WalletBackend {
  import opened Bytes
  import opened Options
  import opened Feistel
  import opened QtStream
  import opened WalletFormat
  import opened WalletFile
  import opened WalletIndex
  import opened WalletReading
  import Blowfish
  import Cbc
  import Chaining
  import PasswordHash
  import Sha1

  /** What is found at the wallet's path. */
  datatype Disk = Missing | Present(bytes: seq<byte>)

  /** How the calls `sync` makes to the outside turn out. */
  datatype SyncIo = SyncIo(opens: bool, writesHeader: bool, haveRandom: bool, random: nat -> seq<byte>, writesBody: bool) {
    ghost predicate Valid() { forall n :: |random(n)| == n }
  }

  /** The object with the file at its path. */
  datatype Session = Session(wallet: Wallet, passhash: seq<byte>, disk: Disk)

  class Backend {
    const setup: Setup
    var disk: Disk
    var open: bool
    var folder: QString
    var entries: FolderMap
    var hashes: HashMap
    var passhash: seq<byte>

    function State(): Wallet
      reads this
    {
      Wallet(open, folder, entries, hashes)
    }

    function Now(): Session
      reads this
    {
      Session(State(), passhash, disk)
    }

    constructor (s: Setup, d: Disk)
      requires s.Valid()
      ensures setup == s && disk == d && State() == Wallet(false, [], map[], map[]) && passhash == []
    {
      setup := s;
      disk := d;
      open := false;
      folder, entries, hashes, passhash := [], map[], map[], [];
    }

    // ----- Folders and entries -----

    method CreateFolder(f: QString) returns (ok: bool)
      modifies this
      ensures (State(), ok) == WalletIndex.CreateFolder(setup.digest, old(State()), f)
      ensures disk == old(disk) && passhash == old(passhash)
    {
      if f in entries {
        return false;
      }
      entries := entries[f := map[]];
      hashes := hashes[setup.digest(f) := []];
      return true;
    }

    method RenameEntry(oldName: QString, newName: QString) returns (rc: int)
      modifies this
      ensures (State(), rc) == WalletIndex.RenameEntry(setup.digest, old(State()), oldName, newName)
      ensures disk == old(disk) && passhash == old(passhash)
    {
      if folder !in entries {
        entries := entries[folder := map[]];
      }
      var emap := entries[folder];
      if oldName in emap && newName !in emap {
        var e := emap[oldName];
        emap := emap - {oldName};
        emap := emap[newName := e];
        entries := entries[folder := emap];
        assert entries == old(entries)[folder := emap];
        var h := setup.digest(folder);
        if h in hashes {
          var list := RemoveAll(hashes[h], setup.digest(oldName));
          list := list + [setup.digest(newName)];
          hashes := hashes[h := list];
        }
        return 0;
      }
      assert entries == old(entries)[folder := emap];
      return -1;
    }

    function HasEntry(key: QString): bool
      reads this
    {
      folder in entries && key in entries[folder]
    }

    method WriteEntry(e: Entry)
      modifies this
      ensures State() == WalletIndex.WriteEntry(setup.digest, old(State()), e)
      ensures disk == old(disk) && passhash == old(passhash)
    {
      if !open {
        return;
      }
      if !HasEntry(e.key) {
        if folder !in entries {
          entries := entries[folder := map[]];
        }
      }
      entries := entries[folder := entries[folder][e.key := e]];
      var h := setup.digest(folder);
      if h in hashes {
        hashes := hashes[h := hashes[h] + [setup.digest(e.key)]];
      }
    }

    /** The entry filed under a key of the current folder; the folder is not made. */
    method ReadEntry(key: QString) returns (e: Option<Entry>)
      ensures e == if open then Lookup(entries, folder, key) else None
    {
      if open && HasEntry(key) {
        return Some(entries[folder][key]);
      }
      return None;
    }

    /** The entries of the current folder whose keys match, in the order of the listing. */
    method ReadEntryList(matches: QString -> bool) returns (rc: seq<Entry>, ghost es: seq<(QString, Entry)>)
      modifies `entries
      ensures State() == WalletIndex.ReadEntryList(old(State()))
      ensures !open ==> rc == []
      ensures open ==> Lists(es, entries[folder]) && rc == Matching(es, matches)
    {
      if !open {
        return [], [];
      }
      if folder !in entries {
        entries := entries[folder := map[]];
      }
      assert entries == old(entries)[folder := entries[folder]];
      rc, es := MatchEntries(entries[folder], matches);
    }

    static method MatchEntries(em: EntryMap, matches: QString -> bool) returns (rc: seq<Entry>, ghost es: seq<(QString, Entry)>)
      ensures Lists(es, em) && rc == Matching(es, matches)
    {
      hide ListsKeys, Lists;
      rc, es := [], [];
      var todo := em.Keys;
      ghost var done: set<QString> := {};
      NoKeys(em);
      while todo != {}
        invariant done !! todo && em.Keys == done + todo
        invariant ListsKeys(es, em, done) && rc == Matching(es, matches)
        decreases |todo|
      {
        var k :| k in todo;
        KeyListed(es, em, done, k);
        MatchingAppend(es, (k, em[k]), matches);
        es := es + [(k, em[k])];
        if matches(k) {
          rc := rc + [em[k]];
        }
        todo, done := todo - {k}, done + {k};
      }
      assert done == em.Keys;
      KeysAll(es, em);
    }

    /** The current folder has to exist: it is looked into before it is checked. */
    method RemoveEntry(key: QString) returns (ok: bool)
      requires open ==> folder in entries
      modifies this
      ensures (State(), ok) == WalletIndex.RemoveEntry(setup.digest, old(State()), key)
      ensures disk == old(disk) && passhash == old(passhash)
    {
      if !open {
        return false;
      }
      if key in entries[folder] {
        entries := entries[folder := entries[folder] - {key}];
        var h := setup.digest(folder);
        if h in hashes {
          hashes := hashes[h := RemoveAll(hashes[h], setup.digest(key))];
        }
        return true;
      }
      return false;
    }

    method RemoveFolder(f: QString) returns (ok: bool)
      modifies this
      ensures (State(), ok) == WalletIndex.RemoveFolder(setup.digest, old(State()), f)
      ensures disk == old(disk) && passhash == old(passhash)
    {
      if !open {
        return false;
      }
      if f in entries {
        if folder == f {
          folder := [];
        }
        entries := entries - {f};
        hashes := hashes - {setup.digest(f)};
        return true;
      }
      return false;
    }

    method FolderDoesNotExist(f: QString) returns (r: bool)
      ensures r == WalletIndex.FolderDoesNotExist(setup.digest, State(), f)
    {
      r := setup.digest(f) !in hashes;
    }

    method EntryDoesNotExist(f: QString, key: QString) returns (r: bool)
      ensures r == WalletIndex.EntryDoesNotExist(setup.digest, State(), f, key)
    {
      var h := setup.digest(f);
      if h in hashes {
        return setup.digest(key) !in hashes[h];
      }
      return true;
    }

    // ----- Writing the file -----

    /** One folder's entries, to both streams, in some order. */
    method PutEntries(em: EntryMap, dStream: seq<byte>, hashStream: seq<byte>)
      returns (d: seq<byte>, h: seq<byte>, ghost es: seq<(QString, Entry)>)
      ensures Lists(es, em)
      ensures d == dStream + PrintEntries(es)
      ensures h == hashStream + Joined(KeyDigests(setup.digest, es))
    {
      hide PrintEntries, PrintEntry, Joined, KeyDigests, ListsKeys, Lists;
      d, h, es := dStream, hashStream, [];
      NoEntries(setup.digest);
      NoKeys(em);
      var todo := em.Keys;
      ghost var done: set<QString> := {};
      while todo != {}
        invariant done !! todo && em.Keys == done + todo
        invariant ListsKeys(es, em, done)
        invariant d == dStream + PrintEntries(es)
        invariant h == hashStream + Joined(KeyDigests(setup.digest, es))
        decreases |todo|
      {
        var k :| k in todo;
        d, h := PutEntry(k, em[k], d, h);
        EntriesAppend(setup.digest, es, (k, em[k]));
        KeyListed(es, em, done, k);
        Appended(dStream, PrintEntries(es), PrintEntry((k, em[k])));
        Appended(hashStream, Joined(KeyDigests(setup.digest, es)), setup.digest(k));
        es := es + [(k, em[k])];
        todo, done := todo - {k}, done + {k};
      }
      assert done == em.Keys;
      KeysAll(es, em);
    }

    /** Key, type and value to the data stream, the digest of the key to the other. */
    method PutEntry(k: QString, e: Entry, dStream: seq<byte>, hashStream: seq<byte>) returns (d: seq<byte>, h: seq<byte>)
      ensures d == dStream + PrintEntry((k, e))
      ensures h == hashStream + setup.digest(k)
    {
      d := dStream + PutString(k);
      d := d + PutI32(e.kind);
      d := d + PutBytes(e.value);
      h := hashStream + setup.digest(k);
    }

    /** The folder count, and every folder with its entries, to both streams. */
    method PutFolders() returns (decrypted: seq<byte>, hashBlock: seq<byte>, ghost fs: seq<Folder>)
      ensures ListsWallet(fs, entries)
      ensures decrypted == PrintFolders(fs)
      ensures hashBlock == PutU32(|entries|) + PrintDigests(setup.digest, fs)
    {
      hide PrintFolders, PrintDigests, PrintEntries, Joined, KeyDigests, Lists, ListsFolders, ListsWallet;
      decrypted, hashBlock, fs := [], PutU32(|entries|), [];
      NoFolders(setup.digest);
      NoneListed(entries);
      var todo := entries.Keys;
      ghost var done: set<QString> := {};
      while todo != {}
        invariant done !! todo && entries.Keys == done + todo
        invariant ListsFolders(fs, entries, done)
        invariant decrypted == PrintFolders(fs)
        invariant hashBlock == PutU32(|entries|) + PrintDigests(setup.digest, fs)
        decreases |todo|
      {
        var f :| f in todo;
        ghost var es;
        ghost var h := hashBlock;
        decrypted, hashBlock, es := PutFolder(f, decrypted, hashBlock);
        FoldersAppend(setup.digest, fs, Folder(f, es));
        FolderListed(fs, entries, done, Folder(f, es));
        Appended(PutU32(|entries|), PrintDigests(setup.digest, fs),
                 setup.digest(f) + PutU32(|es|) + Joined(KeyDigests(setup.digest, es)));
        fs := fs + [Folder(f, es)];
        todo, done := todo - {f}, done + {f};
      }
      assert done == entries.Keys;
      FoldersAll(fs, entries);
    }

    method PutFolder(f: QString, dStream: seq<byte>, hashStream: seq<byte>)
      returns (d: seq<byte>, h: seq<byte>, ghost es: seq<(QString, Entry)>)
      requires f in entries
      ensures Lists(es, entries[f])
      ensures d == dStream + (PutString(f) + PutU32(|es|) + PrintEntries(es))
      ensures h == hashStream + (setup.digest(f) + PutU32(|es|) + Joined(KeyDigests(setup.digest, es)))
    {
      hide PrintEntries, Joined, KeyDigests, Lists, PutString, PutU32;
      d := dStream + PutString(f);
      d := d + PutU32(|entries[f]|);
      h := hashStream + setup.digest(f);
      h := h + PutU32(|entries[f]|);
      d, h, es := PutEntries(entries[f], d, h);
      ListCount(es, entries[f]);
      AppendedThree(dStream, PutString(f), PutU32(|es|), PrintEntries(es));
      AppendedThree(hashStream, setup.digest(f), PutU32(|es|), Joined(KeyDigests(setup.digest, es)));
    }

    /** A SHA-1 object that processes the data in one call. */
    method DigestOf(data: seq<byte>) returns (hash: seq<byte>)
      ensures hash == Sha1.Digest(data)
    {
      hide Sha1.Digest, Sha1.SHA1.Buffered;
      var sha := new Sha1.SHA1();
      var cnt := sha.Process(data);
      assert [] + data == data;
      hash := sha.Hash();
    }

    /** Writes `src` into the buffer at `at`, byte by byte. */
    method CopyInto(buf: array<byte>, at: nat, src: seq<byte>)
      requires at + |src| <= buf.Length
      modifies buf
      ensures buf[..at + |src|] == old(buf[..at]) + src
    {
      for i := 0 to |src|
        invariant buf[..at + i] == old(buf[..at]) + src[..i]
      {
        buf[at + i] := src[i];
      }
      assert src[..|src|] == src;
    }

    /** Random block, size, data, filler and digest, each to its own place in the buffer. */
    method FillPayload(decrypted: seq<byte>, randBlock: seq<byte>, hash: seq<byte>) returns (wholeFile: array<byte>)
      requires |randBlock| == 8 + Delta(|decrypted|)
      requires hash == Sha1.Digest(decrypted)
      ensures fresh(wholeFile) && wholeFile[..] == Payload(decrypted, randBlock)
    {
      hide Sha1.Digest, Delta, ToByte, Payload, Be32;
      var size := |decrypted|;
      var delta := |randBlock| - 8;
      var newsize := 8 + 4 + size + delta + 20;
      wholeFile := new byte[newsize];
      CopyInto(wholeFile, 0, randBlock[..8]);
      assert wholeFile[..8] == randBlock[..8];
      var field := [ToByte(size / 0x100_0000), ToByte(size / 0x1_0000), ToByte(size / 0x100), ToByte(size)];
      SizeFieldBytes(size);
      CopyInto(wholeFile, 8, field);
      assert wholeFile[..12] == randBlock[..8] + field;
      CopyInto(wholeFile, 12, decrypted);
      assert wholeFile[..12 + size] == randBlock[..8] + field + decrypted;
      CopyInto(wholeFile, 12 + size, randBlock[8..]);
      assert wholeFile[..newsize - 20] == randBlock[..8] + field + decrypted + randBlock[8..];
      CopyInto(wholeFile, newsize - 20, hash);
      assert wholeFile[..] == wholeFile[..newsize];
      PayloadIs(decrypted, randBlock);
    }

    /** The return code of `sync`. */
    static function SyncCode(isOpen: bool, io: SyncIo, usable: bool): int {
      if !isOpen then -255
      else if !io.opens then -1
      else if !io.writesHeader then -4
      else if !io.haveRandom then -3
      else if !usable then -2
      else if !io.writesBody then -4
      else 0
    }

    /**
     Writes the wallet to its path. The file is replaced as a whole at the end, so a failure
     anywhere leaves the old one.
     */
    method Sync(io: SyncIo) returns (rc: int, ghost fs: seq<Folder>)
      requires setup.Valid() && io.Valid()
      modifies `disk
      ensures rc == SyncCode(open, io, Usable(setup.constants, passhash))
      ensures rc != 0 ==> disk == old(disk)
      ensures rc == 0 ==>
        && ListsWallet(fs, entries) && passhash != []
        && disk == Present(Image(setup, fs, passhash, io.random(8 + Delta(|PrintFolders(fs)|))))
    {
      hide Image, Payload, PrintFolders, PrintDigests, ListsWallet, Delta, KeySchedule, Strong, EncryptBlocks, Sha1.Digest;
      fs := [];
      if !open {
        return -255, [];
      }
      if !io.opens {
        return -1, [];
      }
      var file := MAGIC + VERSION;
      var decrypted, hashBlock;
      decrypted, hashBlock, fs := PutFolders();
      NamesCount(fs, entries);
      file := file + hashBlock;
      if !io.writesHeader {
        return -4, fs;
      }
      if !io.haveRandom {
        return -3, fs;
      }
      var randBlock := io.random(8 + Delta(|decrypted|));
      var hash := DigestOf(decrypted);
      var wholeFile := FillPayload(decrypted, randBlock, hash);
      var ok := EncryptPayload(wholeFile);
      if !ok {
        return -2, fs;
      }
      file := file + wholeFile[..];
      if !io.writesBody {
        return -4, fs;
      }
      ImageIs(setup, fs, passhash, randBlock);
      disk := Present(file);
      rc := 0;
    }

    /** A fresh cipher and chain with the password hash as the key. */
    method KeyedChain() returns (bf: Cbc.CipherBlockChain, ok: bool)
      requires setup.Valid()
      ensures fresh(bf) && fresh(bf.cipher) && fresh(bf.cipher.S) && fresh(bf.cipher.P)
      ensures bf.Valid() && bf.State() == Chaining.Unused && bf.register == null && bf.next == null
      ensures ok == Usable(setup.constants, passhash) == bf.TheCipher().ready
      ensures ok ==> bf.TheCipher().t == KeySchedule(setup.constants, passhash)
    {
      hide KeySchedule, Strong;
      var cipher := new Blowfish.BlowFish(setup.constants);
      bf := new Cbc.CipherBlockChain(cipher);
      ok := bf.SetKey(passhash, 8 * |passhash|);
    }

    /** One call encrypts the whole buffer. */
    method EncryptPayload(wholeFile: array<byte>) returns (ok: bool)
      requires setup.Valid() && wholeFile.Length % 8 == 0
      modifies wholeFile
      ensures ok == Usable(setup.constants, passhash)
      ensures ok ==> wholeFile[..] == EncryptBlocks(KeySchedule(setup.constants, passhash), old(wholeFile[..]))
    {
      hide EncryptBlocks, KeySchedule, Strong, Chaining.Encrypted, Cbc.CipherBlockChain.State, Cbc.CipherBlockChain.TheCipher;
      var bf;
      bf, ok := KeyedChain();
      if ok {
        Chaining.FirstCallIsBlockwise(bf.TheCipher(), wholeFile[..]);
        var rc := bf.Encrypt(wholeFile, wholeFile.Length);
      }
    }

    // ----- Reading the file -----

    /** One call decrypts the whole buffer; refused by the cipher if the key was. */
    method DecryptPayload(encrypted: array<byte>) returns (rc: int)
      requires setup.Valid() && encrypted.Length % 8 == 0
      modifies encrypted
      ensures rc == if Usable(setup.constants, passhash) then encrypted.Length else -1
      ensures rc >= 0 ==> encrypted[..] == DecryptBlocks(KeySchedule(setup.constants, passhash), old(encrypted[..]))
    {
      hide DecryptBlocks, KeySchedule, Strong, Chaining.Decrypted, Cbc.CipherBlockChain.State, Cbc.CipherBlockChain.TheCipher;
      var bf, ok := KeyedChain();
      if ok {
        Chaining.FirstCallIsBlockwise(bf.TheCipher(), encrypted[..]);
      } else {
        Cbc.DecryptedIs(bf.TheCipher(), Chaining.Unused, encrypted[..], encrypted.Length);
      }
      rc := bf.Decrypt(encrypted, encrypted.Length);
    }

    /** The entry digests of one folder. */
    method ReadDigestList(s: seq<byte>, i: nat, n: nat, stale: Stale) returns (list: seq<Digest>, rest: seq<byte>)
      ensures Read(list, rest) == ReadList(s, i, 0, n, stale)
    {
      hide GetDigest;
      list, rest := [], s;
      ghost var all := ReadList(s, i, 0, n, stale);
      assert [] + all.value == all.value;
      for j := 0 to n
        invariant var tail := ReadList(rest, i, j, n, stale); all == Read(list + tail.value, tail.rest)
      {
        var d := GetDigest(rest, stale.entry(i, j));
        ghost var tail := ReadList(d.rest, i, j + 1, n, stale);
        assert list + ([d.value] + tail.value) == list + [d.value] + tail.value;
        list, rest := list + [d.value], d.rest;
      }
      assert list + [] == list;
    }

    /** Replaces the index by the one in the file. */
    method ReadDigestBlock(s: seq<byte>, n: nat, stale: Stale) returns (ok: bool, rest: seq<byte>)
      modifies `hashes
      ensures DigestBlock(ok, hashes, rest) == ReadDigests(s, 0, n, map[], stale)
    {
      hide GetDigest, GetU32, ReadList;
      hashes := map[];
      rest := s;
      for i := 0 to n
        invariant ReadDigests(rest, i, n, hashes, stale) == ReadDigests(s, 0, n, map[], stale)
      {
        if rest == [] {
          return false, rest;
        }
        var d := GetDigest(rest, stale.folder(i));
        var fsz := GetU32(d.rest);
        var list;
        list, rest := ReadDigestList(fsz.rest, i, fsz.value, stale);
        hashes := hashes[d.value := list];
      }
      ok := true;
    }

    /** The entries of one folder, into the folder, from the stream. */
    method LoadEntries(f: QString, s: seq<byte>, n: nat) returns (rest: seq<byte>)
      modifies `entries
      ensures var r := ReadEntries(s, n, map[]); entries == old(entries)[f := r.value] && rest == r.rest
    {
      hide GetString, GetI32, GetBytes, ReadEntries;
      ghost var m0 := entries;
      entries := entries[f := map[]];
      rest := s;
      for i := 0 to n
        invariant f in entries && entries == m0[f := entries[f]]
        invariant ReadEntries(rest, n - i, entries[f]) == ReadEntries(s, n, map[])
      {
        ReadEntriesStep(rest, n - i, entries[f]);
        var key := GetString(rest);
        var kind := GetI32(key.rest);
        rest := kind.rest;
        if KnownKind(kind.value) {
          var a := GetBytes(rest);
          rest := a.rest;
          UpdatedTwice(m0, f, entries[f], entries[f][key.value := Entry(key.value, kind.value, a.value)]);
          entries := entries[f := entries[f][key.value := Entry(key.value, kind.value, a.value)]];
        }
      }
      ReadEntriesNone(rest, entries[f]);
    }

    /** `while (!eStream.atEnd())`: folders to the end of the data. */
    method LoadFolders(data: seq<byte>)
      modifies `entries
      ensures entries == ReadFolders(data, old(entries))
    {
      hide GetString, GetU32, ReadEntries;
      var s := data;
      while s != []
        invariant ReadFolders(s, entries) == ReadFolders(data, old(entries))
        decreases |s|
      {
        var name := GetString(s);
        var n := GetU32(name.rest);
        s := LoadEntries(name.value, n.rest, n.value);
      }
    }

    /** `testhash[i] != encrypted[sz - 20 + i]`, byte by byte. */
    method CompareDigest(p: seq<byte>, hash: seq<byte>, stale: Stale) returns (same: bool)
      requires |hash| == 20
      ensures same == DigestMatches(p, hash, stale)
    {
      for i := 0 to 20
        invariant forall j :: 0 <= j < i ==> hash[j] == ByteAt(p, |p| - 20 + j, stale)
      {
        if hash[i] != ByteAt(p, |p| - 20 + i, stale) {
          return false;
        }
      }
      same := true;
    }

    /** The decrypted payload: size, digest, folders. */
    method OpenPayload(p: seq<byte>, stale: Stale) returns (rc: int)
      modifies `entries
      ensures Loaded(rc, hashes, entries, false) == LoadPayload(p, old(hashes), old(entries), stale)
    {
      hide SizeField, ReadFolders, DigestMatches, Sha1.Digest;
      var fsize: int := SizeField(p, stale);
      if fsize < 0 || fsize > |p| - 8 - 4 {
        return -9;
      }
      var data := p[12..12 + fsize];
      var hash := DigestOf(data);
      var same := CompareDigest(p, hash, stale);
      if !same {
        return -8;
      }
      LoadFolders(data);
      rc := 0;
    }

    /** From the header of a file that is not junk to the folders in memory. */
    method ReadFile(file: seq<byte>, stale: Stale) returns (rc: int)
      requires setup.Valid() && |file| >= SMALLEST
      modifies this
      ensures var r := LoadFile(setup, old(passhash), file, old(hashes), old(entries), stale);
        && rc == r.rc && hashes == r.hashes && entries == r.entries
        && passhash == (if r.wiped then Zeros(|old(passhash)|) else old(passhash))
      ensures disk == old(disk) && folder == old(folder) && open == (old(open) || rc == 0)
    {
      hide GetU32, ReadDigests, DecryptBlocks, KeySchedule, Strong, LoadPayload;
      if file[..12] != MAGIC {
        return -3;
      }
      if file[12] != 0 || file[13] != 0 {
        return -4;
      }
      if file[14] != 0 || file[15] != 0 {
        return -42;
      }
      hashes := map[];
      var n := GetU32(file[16..]);
      if n.value > MOST_FOLDERS {
        return -43;
      }
      var ok, rest := ReadDigestBlock(n.rest, n.value, stale);
      if !ok {
        return -43;
      }
      if |rest| % 8 != 0 {
        return -5;
      }
      var encrypted := new byte[|rest|](i requires 0 <= i < |rest| => rest[i]);
      assert encrypted[..] == rest;
      rc := DecryptPayload(encrypted);
      if rc < 0 {
        passhash := Zeros(|passhash|);
        return -6;
      }
      rc := OpenPayload(encrypted[..], stale);
      if rc == 0 {
        open := true;
      }
    }

    /**
     What opening does to a closed wallet. Where there is no file, or too short a one, a new
     wallet is written, and counts as open whether or not it could be.
     */
    static ghost predicate Opening(setup: Setup, creatable: bool, readable: bool, io: SyncIo, stale: Stale,
                                   s: Session, t: Session, rc: int, fs: seq<Folder>)
      requires setup.Valid() && io.Valid() && !s.wallet.open
    {
      var junk := s.disk.Missing? || |s.disk.bytes| < SMALLEST;
      if junk && creatable then
        && rc == 1 && t.wallet == OpenNew(s.wallet) && t.passhash == s.passhash
        && if SyncCode(true, io, Usable(setup.constants, s.passhash)) == 0 then
             && ListsWallet(fs, s.wallet.entries) && s.passhash != []
             && t.disk == Present(Image(setup, fs, s.passhash, io.random(8 + Delta(|PrintFolders(fs)|))))
           else t.disk == if s.disk.Missing? then Present([]) else s.disk
      else if junk || !readable then rc == -2 && t == s
      else
        var r := LoadFile(setup, s.passhash, s.disk.bytes, s.wallet.hashes, s.wallet.entries, stale);
        && rc == r.rc && t.wallet == OpenFile(setup, s.wallet, s.passhash, s.disk.bytes, stale)
        && t.passhash == (if r.wiped then Zeros(|s.passhash|) else s.passhash) && t.disk == s.disk
    }

    /** Called on a closed wallet only. */
    method OpenInternal(creatable: bool, readable: bool, io: SyncIo, stale: Stale) returns (rc: int, ghost fs: seq<Folder>)
      requires setup.Valid() && io.Valid() && !open
      modifies this
      ensures Opening(setup, creatable, readable, io, stale, old(Now()), Now(), rc, fs)
    {
      hide LoadFile, Image, PrintFolders, ListsWallet, Usable;
      fs := [];
      if disk.Missing? || |disk.bytes| < SMALLEST {
        if !creatable {
          return -2, [];
        }
        if disk.Missing? {
          disk := Present([]);
        }
        open := true;
        rc, fs := Sync(io);
        return 1, fs;
      }
      if !readable {
        return -2, [];
      }
      rc := ReadFile(disk.bytes, stale);
    }

    /** Derives the key from a password. */
    method SetPassword(password: seq<byte>)
      modifies `passhash
      ensures passhash == PasswordHash.PasswordKey(password)
    {
      passhash := PasswordHash.Password2Hash(password);
    }

    /** Opens under the key of a password. */
    method Open(password: seq<byte>, creatable: bool, readable: bool, io: SyncIo, stale: Stale)
      returns (rc: int, ghost fs: seq<Folder>)
      requires setup.Valid() && io.Valid()
      modifies this
      ensures if old(open) then rc == -255 && Now() == old(Now())
              else Opening(setup, creatable, readable, io, stale,
                           old(Now()).(passhash := PasswordHash.PasswordKey(password)), Now(), rc, fs)
    {
      hide Backend.Opening, PasswordHash.PasswordKey;
      if open {
        return -255, [];
      }
      SetPassword(password);
      rc, fs := OpenInternal(creatable, readable, io, stale);
    }

    /** A hash of any length a password can give is let through to the file. */
    method OpenPreHashed(hash: seq<byte>, creatable: bool, readable: bool, io: SyncIo, stale: Stale)
      returns (rc: int, ghost fs: seq<Folder>)
      requires setup.Valid() && io.Valid()
      modifies this
      ensures if old(open) then rc == -255 && Now() == old(Now())
              else if |hash| !in {20, 40, 56} then rc == -42 && Now() == old(Now())
              else Opening(setup, creatable, readable, io, stale, old(Now()).(passhash := hash), Now(), rc, fs)
    {
      hide Backend.Opening;
      if open {
        return -255, [];
      }
      if |hash| != 20 && |hash| != 40 && |hash| != 56 {
        return -42, [];
      }
      passhash := hash;
      rc, fs := OpenInternal(creatable, readable, io, stale);
    }

    /** Drops the folders and the key; the index stays. With `save`, a failed write keeps everything. */
    method Close(save: bool, io: SyncIo) returns (rc: int, ghost fs: seq<Folder>)
      requires setup.Valid() && io.Valid()
      modifies this
      ensures rc == if save then SyncCode(old(open), io, Usable(setup.constants, old(passhash))) else 0
      ensures rc != 0 ==> State() == old(State()) && passhash == old(passhash) && disk == old(disk)
      ensures rc == 0 ==>
        && State() == WalletIndex.Close(old(State())) && passhash == Zeros(|old(passhash)|)
        && (!save ==> disk == old(disk))
        && (save ==> ListsWallet(fs, old(entries)) && old(passhash) != []
                     && disk == Present(Image(setup, fs, old(passhash), io.random(8 + Delta(|PrintFolders(fs)|)))))
    {
      hide Image, PrintFolders, ListsWallet, Usable;
      fs := [];
      if save {
        rc, fs := Sync(io);
        if rc != 0 {
          return rc, fs;
        }
      }
      entries := map[];
      passhash := Zeros(|passhash|);
      open := false;
      rc := 0;
    }
  }

  /** When `sync` returns each of its codes. */
  lemma SyncCodes(isOpen: bool, io: SyncIo, usable: bool)
    ensures var rc := Backend.SyncCode(isOpen, io, usable);
      && (rc == 0 <==> isOpen && io.opens && io.writesHeader && io.haveRandom && usable && io.writesBody)
      && (rc == -255 <==> !isOpen)
      && (rc == -1 <==> isOpen && !io.opens)
      && (rc == -3 <==> isOpen && io.opens && io.writesHeader && !io.haveRandom)
      && (rc == -2 <==> isOpen && io.opens && io.writesHeader && io.haveRandom && !usable)
      && (rc != 0 && rc != -255 && rc != -1 && rc != -3 && rc != -2 ==> rc == -4)
  {
  }

  /** Every key that a password gives passes the length checks of `openPreHashed` and `setKey`. */
  lemma PasswordKeysFit(password: seq<byte>)
    ensures |PasswordHash.PasswordKey(password)| in {20, 40, 56}
    ensures 0 < 8 * |PasswordHash.PasswordKey(password)| <= 448
  {
    hide PasswordHash.Block;
  }

  /** What a new object loads from a file: the contents of a wallet, and an index that is right about all the names. */
  ghost predicate Loads(setup: Setup, key: seq<byte>, file: seq<byte>, stale: Stale, m: FolderMap, names: set<QString>)
    requires setup.Valid() && |file| >= SMALLEST
  {
    var r := LoadFile(setup, key, file, map[], map[], stale);
    && r.rc == 0 && !r.wiped && r.entries == RefiledFolders(m) && SameContents(r.entries, m)
    && Exact(setup.digest, Wallet(true, [], r.entries, r.hashes), names)
  }

  lemma IndexedLoads(setup: Setup, fs: seq<Folder>, m: FolderMap, key: seq<byte>, file: seq<byte>, stale: Stale, names: set<QString>)
    requires setup.Valid() && |file| >= SMALLEST && ListsWallet(fs, m) && Injective(setup.digest, names)
    requires forall f :: f in m ==> f in names
    requires forall f, k :: f in m && k in m[f] ==> k in names
    requires var r := LoadFile(setup, key, file, map[], map[], stale);
             && r.rc == 0 && !r.wiped && r.hashes == IndexOf(setup.digest, fs, map[])
             && r.entries == map[] + RefiledFolders(m) && SameContents(r.entries, m)
    ensures Loads(setup, key, file, stale, m, names)
  {
    hide LoadFile, ListsWallet, SameContents, Exact, Injective, RefiledFolders, IndexOf;
    OpenedWalletExact(setup.digest, fs, m, [], names);
    assert map[] + RefiledFolders(m) == RefiledFolders(m);
  }

  lemma SavedLoads(setup: Setup, fs: seq<Folder>, m: FolderMap, key: seq<byte>, random: seq<byte>, stale: Stale, names: set<QString>)
    requires setup.Valid() && Usable(setup.constants, key)
    requires ListsWallet(fs, m) && |PrintFolders(fs)| < 0x7fff_ffd0 && |random| == 8 + Delta(|PrintFolders(fs)|)
    requires |m| <= MOST_FOLDERS && AllKnown(m) && Injective(setup.digest, names)
    requires forall f :: f in m ==> f in names
    requires forall f, k :: f in m && k in m[f] ==> k in names
    ensures |Image(setup, fs, key, random)| >= SMALLEST
    ensures Loads(setup, key, Image(setup, fs, key, random), stale, m, names)
  {
    hide Image, LoadFile, PrintFolders, ListsWallet, Strong, KeySchedule, SameContents, AllKnown, Loads, Injective, RefiledFolders, IndexOf;
    ReopenSynced(setup, fs, m, key, random, map[], map[], stale);
    IndexedLoads(setup, fs, m, key, Image(setup, fs, key, random), stale, names);
  }

  /**
   What a new object is like that has opened a saved wallet: every folder, entry, type and value
   is there again, and the index answers rightly about all the names.
   */
  ghost predicate Reopened(setup: Setup, v: Wallet, rc: int, m: FolderMap, names: set<QString>) {
    && rc == 0 && v.open
    && SameContents(v.entries, m) && v.entries == RefiledFolders(m)
    && Exact(setup.digest, v, names)
  }

  lemma SavedReopens(setup: Setup, io: SyncIo, io': SyncIo, stale: Stale, names: set<QString>, m: FolderMap,
                     key: seq<byte>, fs: seq<Folder>, t: Session, rc: int, gs: seq<Folder>)
    requires setup.Valid() && io.Valid() && io'.Valid() && Usable(setup.constants, key)
    requires ListsWallet(fs, m) && |PrintFolders(fs)| < 0x7fff_ffd0
    requires |m| <= MOST_FOLDERS && AllKnown(m) && Injective(setup.digest, names)
    requires forall f :: f in m ==> f in names
    requires forall f, k :: f in m && k in m[f] ==> k in names
    requires var file := Image(setup, fs, key, io.random(8 + Delta(|PrintFolders(fs)|)));
             Backend.Opening(setup, true, true, io', stale,
                             Session(Wallet(false, [], map[], map[]), key, Present(file)), t, rc, gs)
    ensures Reopened(setup, t.wallet, rc, m, names)
  {
    hide Image, LoadFile, PrintFolders, ListsWallet, SameContents, AllKnown, Exact, Injective, RefiledFolders;
    SavedLoads(setup, fs, m, key, io.random(8 + Delta(|PrintFolders(fs)|)), stale, names);
  }

  /** Saving a wallet and opening the file with its key in a new object. */
  method SaveAndReopen(w: Backend, io: SyncIo, stale: Stale, ghost names: set<QString>) returns (v: Backend, saved: int, rc: int)
    requires w.setup.Valid() && io.Valid()
    requires forall fs :: ListsWallet(fs, w.entries) ==> |PrintFolders(fs)| < 0x7fff_ffd0
    requires |w.entries| <= MOST_FOLDERS && AllKnown(w.entries)
    requires Injective(w.setup.digest, names)
    requires forall f :: f in w.entries ==> f in names
    requires forall f, k :: f in w.entries && k in w.entries[f] ==> k in names
    modifies w`disk
    ensures fresh(v) && saved == Backend.SyncCode(w.open, io, Usable(w.setup.constants, w.passhash))
    ensures saved == 0 ==>
      if |w.passhash| in {20, 40, 56} then Reopened(w.setup, v.State(), rc, w.entries, names) else rc == -42
  {
    hide Backend.Opening, Reopened, Image, PrintFolders, ListsWallet, Usable, AllKnown, Injective;
    ghost var fs;
    saved, fs := w.Sync(io);
    v := new Backend(w.setup, w.disk);
    rc := 0;
    if saved == 0 {
      ghost var gs;
      rc, gs := v.OpenPreHashed(w.passhash, true, true, io, stale);
      if |w.passhash| in {20, 40, 56} {
        SavedReopens(w.setup, io, io, stale, names, w.entries, w.passhash, fs, v.Now(), rc, gs);
      }
    }
  }

  /** Saving a wallet under a password and opening the file with the password in a new object. */
  method SaveUnderPassword(w: Backend, password: seq<byte>, io: SyncIo, stale: Stale, ghost names: set<QString>)
    returns (v: Backend, saved: int, rc: int)
    requires w.setup.Valid() && io.Valid()
    requires forall fs :: ListsWallet(fs, w.entries) ==> |PrintFolders(fs)| < 0x7fff_ffd0
    requires |w.entries| <= MOST_FOLDERS && AllKnown(w.entries)
    requires Injective(w.setup.digest, names)
    requires forall f :: f in w.entries ==> f in names
    requires forall f, k :: f in w.entries && k in w.entries[f] ==> k in names
    modifies w`passhash, w`disk
    ensures fresh(v)
    ensures saved == Backend.SyncCode(w.open, io, Usable(w.setup.constants, PasswordHash.PasswordKey(password)))
    ensures saved == 0 ==> Reopened(w.setup, v.State(), rc, w.entries, names)
  {
    hide Backend.Opening, Reopened, Image, PrintFolders, ListsWallet, Usable, AllKnown, Injective, PasswordHash.PasswordKey;
    w.SetPassword(password);
    ghost var fs;
    saved, fs := w.Sync(io);
    v := new Backend(w.setup, w.disk);
    rc := 0;
    if saved == 0 {
      ghost var gs;
      rc, gs := v.Open(password, true, true, io, stale);
      SavedReopens(w.setup, io, io, stale, names, w.entries, w.passhash, fs, v.Now(), rc, gs);
    }
  }

  lemma SizeFieldBytes(n: nat)
    ensures Be32(n) == [ToByte(n / 0x100_0000), ToByte(n / 0x1_0000), ToByte(n / 0x100), ToByte(n)]
  {
  }

  lemma PayloadIs(data: seq<byte>, random: seq<byte>)
    requires |random| == 8 + Delta(|data|)
    ensures Payload(data, random) == random[..8] + Be32(|data|) + data + random[8..] + Sha1.Digest(data)
  {
  }

  lemma ImageIs(setup: Setup, fs: seq<Folder>, key: seq<byte>, random: seq<byte>)
    requires setup.Valid() && key != []
    requires |random| == 8 + Delta(|PrintFolders(fs)|)
    ensures Image(setup, fs, key, random)
         == MAGIC + VERSION + (PutU32(|fs|) + PrintDigests(setup.digest, fs))
            + EncryptBlocks(KeySchedule(setup.constants, key), Payload(PrintFolders(fs), random))
  {
    hide EncryptBlocks, KeySchedule, Payload, PrintFolders, PrintDigests, PutU32;
  }

  // ----- Listings as they grow -----

  /** The items listed so far are those of the keys done. */
  ghost predicate ListsKeys(es: seq<(QString, Entry)>, em: EntryMap, done: set<QString>) {
    && (forall i, j :: 0 <= i < j < |es| ==> es[i].0 != es[j].0)
    && (forall i :: 0 <= i < |es| ==> es[i].0 in done && es[i].0 in em && em[es[i].0] == es[i].1)
    && (forall k :: k in done ==> exists i :: 0 <= i < |es| && es[i].0 == k)
  }

  ghost predicate ListsFolders(fs: seq<Folder>, m: FolderMap, done: set<QString>) {
    && (forall i, j :: 0 <= i < j < |fs| ==> fs[i].name != fs[j].name)
    && (forall i :: 0 <= i < |fs| ==> fs[i].name in done && fs[i].name in m && Lists(fs[i].entries, m[fs[i].name]))
    && (forall f :: f in done ==> exists i :: 0 <= i < |fs| && fs[i].name == f)
  }

  lemma NoKeys(em: EntryMap)
    ensures ListsKeys([], em, {})
  {
  }

  lemma KeyListed(es: seq<(QString, Entry)>, em: EntryMap, done: set<QString>, k: QString)
    requires ListsKeys(es, em, done) && k in em && k !in done
    ensures ListsKeys(es + [(k, em[k])], em, done + {k})
  {
    var es' := es + [(k, em[k])];
    forall x | x in done + {k}
      ensures exists i :: 0 <= i < |es'| && es'[i].0 == x
    {
      if x in done {
        var i :| 0 <= i < |es| && es[i].0 == x;
        assert es'[i].0 == x;
      } else {
        assert es'[|es|].0 == x;
      }
    }
  }

  lemma KeysAll(es: seq<(QString, Entry)>, em: EntryMap)
    requires ListsKeys(es, em, em.Keys)
    ensures Lists(es, em)
  {
  }

  /** The entries of a listing whose keys match, in its order. */
  function Matching(es: seq<(QString, Entry)>, matches: QString -> bool): seq<Entry>
    decreases |es|
  {
    if es == [] then []
    else (if matches(es[0].0) then [es[0].1] else []) + Matching(es[1..], matches)
  }

  /** Where a listing has keys that match. */
  function Places(es: seq<(QString, Entry)>, matches: QString -> bool): set<nat> {
    set i: nat | i < |es| && matches(es[i].0)
  }

  lemma PlacesAppend(es: seq<(QString, Entry)>, e: (QString, Entry), matches: QString -> bool)
    ensures Places(es + [e], matches) == Places(es, matches) + if matches(e.0) then {|es|} else {}
    ensures |es| !in Places(es, matches)
  {
  }

  /** The list has an entry for each place with a matching key, and no other. */
  lemma {:induction false} MatchingHolds(es: seq<(QString, Entry)>, matches: QString -> bool)
    ensures forall e :: e in Matching(es, matches) <==> exists i :: i in Places(es, matches) && es[i].1 == e
    ensures |Matching(es, matches)| == |Places(es, matches)|
    decreases |es|
  {
    hide Places;
    if es == [] {
      assert Places(es, matches) == {} by {
        NoPlaces(matches);
      }
    } else {
      var k := |es| - 1;
      var u, last := es[..k], es[k];
      assert es == u + [last];
      MatchingHolds(u, matches);
      MatchingAppend(u, last, matches);
      PlacesAppend(u, last, matches);
      PlacesBelow(u, matches);
    }
  }

  lemma NoPlaces(matches: QString -> bool)
    ensures Places([], matches) == {}
  {
  }

  lemma PlacesBelow(es: seq<(QString, Entry)>, matches: QString -> bool)
    ensures forall i :: i in Places(es, matches) ==> i < |es|
  {
  }

  lemma ThreeLists(a: seq<Entry>, b: seq<Entry>, c: seq<Entry>)
    ensures a + (b + c) == a + b + c
  {
  }

  lemma {:induction false} MatchingAppend(es: seq<(QString, Entry)>, e: (QString, Entry), matches: QString -> bool)
    ensures Matching(es + [e], matches) == Matching(es, matches) + if matches(e.0) then [e.1] else []
    decreases |es|
  {
    if es == [] {
      assert es + [e] == [e];
      assert [e][1..] == [];
    } else {
      assert (es + [e])[1..] == es[1..] + [e];
      MatchingAppend(es[1..], e, matches);
      ThreeLists(if matches(es[0].0) then [es[0].1] else [], Matching(es[1..], matches), if matches(e.0) then [e.1] else []);
    }
  }

  lemma NoneListed(m: FolderMap)
    ensures ListsFolders([], m, {})
  {
  }

  lemma FolderListed(fs: seq<Folder>, m: FolderMap, done: set<QString>, f: Folder)
    requires ListsFolders(fs, m, done) && f.name in m && f.name !in done && Lists(f.entries, m[f.name])
    ensures ListsFolders(fs + [f], m, done + {f.name})
  {
    hide Lists;
    var fs' := fs + [f];
    forall x | x in done + {f.name}
      ensures exists i :: 0 <= i < |fs'| && fs'[i].name == x
    {
      if x in done {
        var i :| 0 <= i < |fs| && fs[i].name == x;
        assert fs'[i].name == x;
      } else {
        assert fs'[|fs|].name == x;
      }
    }
  }

  lemma FoldersAll(fs: seq<Folder>, m: FolderMap)
    requires ListsFolders(fs, m, m.Keys)
    ensures ListsWallet(fs, m)
  {
    hide Lists;
  }

  lemma ReadEntriesStep(s: seq<byte>, n: nat, em: EntryMap)
    requires n > 0
    ensures var key := GetString(s); var kind := GetI32(key.rest); var a := GetBytes(kind.rest);
            ReadEntries(s, n, em) ==
            if KnownKind(kind.value) then ReadEntries(a.rest, n - 1, em[key.value := Entry(key.value, kind.value, a.value)])
            else ReadEntries(kind.rest, n - 1, em)
  {
  }

  lemma ReadEntriesNone(s: seq<byte>, em: EntryMap)
    ensures ReadEntries(s, 0, em) == Read(em, s)
  {
  }

  lemma UpdatedTwice<K, V>(m: map<K, V>, k: K, a: V, b: V)
    ensures m[k := a][k := b] == m[k := b]
  {
  }

  lemma NoEntries(digest: QString -> Digest)
    ensures PrintEntries([]) == [] && Joined(KeyDigests(digest, [])) == []
  {
  }

  lemma NoFolders(digest: QString -> Digest)
    ensures PrintFolders([]) == [] && PrintDigests(digest, []) == []
  {
  }

  lemma Appended(a: seq<byte>, b: seq<byte>, c: seq<byte>)
    ensures a + b + c == a + (b + c)
  {
  }

  lemma AloneIs(a: seq<byte>)
    ensures a + [] == a && [] + a == a
  {
  }

  lemma AppendedThree(a: seq<byte>, b: seq<byte>, c: seq<byte>, d: seq<byte>)
    ensures a + b + c + d == a + (b + c + d)
  {
  }

  lemma {:induction false} EntriesAppend(digest: QString -> Digest, es: seq<(QString, Entry)>, e: (QString, Entry))
    ensures PrintEntries(es + [e]) == PrintEntries(es) + PrintEntry(e)
    ensures Joined(KeyDigests(digest, es + [e])) == Joined(KeyDigests(digest, es)) + digest(e.0)
  {
    hide PrintEntry;
    if es == [] {
      assert [e][1..] == [];
      assert KeyDigests(digest, [e]) == [digest(e.0)];
    } else {
      assert (es + [e])[1..] == es[1..] + [e];
      EntriesAppend(digest, es[1..], e);
    }
  }

  /** A folder's part of the digest block. */
  function PrintDigest(digest: QString -> Digest, f: Folder): seq<byte> {
    digest(f.name) + PutU32(|f.entries|) + Joined(KeyDigests(digest, f.entries))
  }

  lemma FirstFolder(digest: QString -> Digest, fs: seq<Folder>)
    requires fs != []
    ensures PrintFolders(fs) == PrintFolder(fs[0]) + PrintFolders(fs[1..])
    ensures PrintDigests(digest, fs) == PrintDigest(digest, fs[0]) + PrintDigests(digest, fs[1..])
  {
    hide PutU32, Joined, KeyDigests, PrintFolder;
  }

  lemma {:induction false} FoldersAppend(digest: QString -> Digest, fs: seq<Folder>, f: Folder)
    ensures PrintFolders(fs + [f]) == PrintFolders(fs) + PrintFolder(f)
    ensures PrintDigests(digest, fs + [f]) == PrintDigests(digest, fs) + PrintDigest(digest, f)
  {
    hide PrintFolder, PrintDigest, PrintFolders, PrintDigests;
    FirstFolder(digest, fs + [f]);
    NoFolders(digest);
    if fs == [] {
      assert fs + [f] == [f] && [f][1..] == [];
      AloneIs(PrintFolder(f));
      AloneIs(PrintDigest(digest, f));
    } else {
      assert (fs + [f])[1..] == fs[1..] + [f];
      FoldersAppend(digest, fs[1..], f);
      FirstFolder(digest, fs);
      Appended(PrintFolder(fs[0]), PrintFolders(fs[1..]), PrintFolder(f));
      Appended(PrintDigest(digest, fs[0]), PrintDigests(digest, fs[1..]), PrintDigest(digest, f));
    }
  }

  lemma {:induction false} ListCount(es: seq<(QString, Entry)>, em: EntryMap)
    requires Lists(es, em)
    ensures |es| == |em|
  {
    var keys := set i | 0 <= i < |es| :: es[i].0;
    DistinctKeys(es);
    forall k
      ensures k in keys <==> k in em.Keys
    {
    }
    assert keys == em.Keys;
  }

  lemma {:induction false} DistinctKeys(es: seq<(QString, Entry)>)
    requires forall i, j :: 0 <= i < j < |es| ==> es[i].0 != es[j].0
    ensures |set i | 0 <= i < |es| :: es[i].0| == |es|
  {
    if es == [] {
    } else {
      var k := |es| - 1;
      DistinctKeys(es[..k]);
      var before := set i | 0 <= i < k :: es[..k][i].0;
      assert (set i | 0 <= i < |es| :: es[i].0) == before + {es[k].0};
      assert es[k].0 !in before;
    }
  }
}
