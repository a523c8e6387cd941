/**
 The wallet file as bytes: header, digest block, and the encrypted payload with its size
 field, filler and SHA-1. `Image` is what `sync` writes and `LoadFile` what `openInternal` does
 with the bytes it finds.
 */
module WalletFile {
  import opened Bytes
  import opened Feistel
  import opened QtStream
  import opened WalletFormat
  import Sha1

  /** What the file depends on besides its contents: the cipher's constants and MD5 of a name. */
  datatype Setup = Setup(constants: Tables, digest: QString -> Digest) {
    ghost predicate Valid() { constants.Valid() }
  }

  /**
   Bytes that a read finds without the file having supplied them: what a short read leaves in
   the digest buffers, and memory outside the decrypted payload.
   */
  datatype Stale = Stale(folder: nat -> Digest, entry: (nat, nat) -> Digest, outside: int -> byte)

  // ----- Header -----

  const MAGIC: seq<byte> := [0x4b, 0x57, 0x41, 0x4c, 0x4c, 0x45, 0x54, 0x0a, 0x0d, 0x00, 0x0d, 0x0a]
  const VERSION: seq<byte> := [0, 0, 0, 0]
  const SMALLEST: nat := 60
  const MOST_FOLDERS: nat := 0xffff

  // ----- Digest block -----

  function KeyDigests(digest: QString -> Digest, es: seq<(QString, Entry)>): (ds: seq<Digest>)
    ensures |ds| == |es|
  {
    if es == [] then [] else [digest(es[0].0)] + KeyDigests(digest, es[1..])
  }

  function Joined(ds: seq<Digest>): (s: seq<byte>)
    ensures |s| == 16 * |ds|
  {
    if ds == [] then [] else ds[0] + Joined(ds[1..])
  }

  function PrintDigests(digest: QString -> Digest, fs: seq<Folder>): seq<byte> {
    if fs == [] then []
    else
      digest(fs[0].name) + PutU32(|fs[0].entries|) + Joined(KeyDigests(digest, fs[0].entries))
      + PrintDigests(digest, fs[1..])
  }

  /** `readRawData(d, 16)`: a short read leaves the rest of the buffer as it was. */
  function GetDigest(s: seq<byte>, was: Digest): (r: Read<Digest>)
    ensures |r.rest| <= |s|
    ensures s != [] ==> |r.rest| < |s|
  {
    if |s| >= 16 then Read(s[..16], s[16..]) else Read(s + was[|s|..], [])
  }

  /** The digests from number `j` up to `n` of folder `i`. */
  function ReadList(s: seq<byte>, i: nat, j: nat, n: nat, stale: Stale): (r: Read<seq<Digest>>)
    requires j <= n
    ensures |r.rest| <= |s|
    decreases n - j
  {
    if j == n then Read([], s)
    else
      var d := GetDigest(s, stale.entry(i, j));
      var tail := ReadList(d.rest, i, j + 1, n, stale);
      Read([d.value] + tail.value, tail.rest)
  }

  /** The digest block from folder `i` on; not `ok` if the file ends where a folder is due. */
  datatype DigestBlock = DigestBlock(ok: bool, hashes: HashMap, rest: seq<byte>)

  function ReadDigests(s: seq<byte>, i: nat, n: nat, hashes: HashMap, stale: Stale): (b: DigestBlock)
    requires i <= n
    ensures |b.rest| <= |s|
    decreases n - i
  {
    if i == n then DigestBlock(true, hashes, s)
    else if s == [] then DigestBlock(false, hashes, s)
    else
      var d := GetDigest(s, stale.folder(i));
      var count := GetU32(d.rest);
      var list := ReadList(count.rest, i, 0, count.value, stale);
      ReadDigests(list.rest, i + 1, n, hashes[d.value := list.value], stale)
  }

  /** The index that the digest block of a listing gives. */
  function IndexOf(digest: QString -> Digest, fs: seq<Folder>, hashes: HashMap): HashMap {
    if fs == [] then hashes
    else IndexOf(digest, fs[1..], hashes[digest(fs[0].name) := KeyDigests(digest, fs[0].entries)])
  }

  lemma {:induction false} ListRoundTrip(ds: seq<Digest>, rest: seq<byte>, i: nat, j: nat, stale: Stale)
    ensures ReadList(Joined(ds) + rest, i, j, j + |ds|, stale) == Read(ds, rest)
    decreases |ds|
  {
    if ds == [] {
      assert Joined(ds) + rest == rest;
    } else {
      assert Joined(ds) + rest == ds[0] + (Joined(ds[1..]) + rest);
      ListRoundTrip(ds[1..], rest, i, j + 1, stale);
      assert ds == [ds[0]] + ds[1..];
    }
  }

  lemma FolderDigestsRoundTrip(digest: QString -> Digest, f: Folder, rest: seq<byte>, i: nat, stale: Stale)
    requires |f.entries| < 0x1_0000_0000
    ensures var s := digest(f.name) + PutU32(|f.entries|) + Joined(KeyDigests(digest, f.entries)) + rest;
      var d := GetDigest(s, stale.folder(i)); var count := GetU32(d.rest);
      && d.value == digest(f.name) && count.value == |f.entries|
      && ReadList(count.rest, i, 0, count.value, stale) == Read(KeyDigests(digest, f.entries), rest)
  {
    hide PutU32, GetU32, ReadList;
    var ds := KeyDigests(digest, f.entries);
    var s := digest(f.name) + PutU32(|f.entries|) + Joined(ds) + rest;
    assert s[..16] == digest(f.name);
    assert s[16..] == PutU32(|f.entries|) + (Joined(ds) + rest);
    U32RoundTrip(|f.entries|, Joined(ds) + rest);
    ListRoundTrip(ds, rest, i, 0, stale);
  }

  /** The digest block is read back as the index of the listing. */
  lemma {:induction false} DigestsRoundTrip(digest: QString -> Digest, fs: seq<Folder>, rest: seq<byte>, i: nat,
                                            hashes: HashMap, stale: Stale)
    requires forall k :: 0 <= k < |fs| ==> |fs[k].entries| < 0x1_0000_0000
    ensures ReadDigests(PrintDigests(digest, fs) + rest, i, i + |fs|, hashes, stale)
         == DigestBlock(true, IndexOf(digest, fs, hashes), rest)
    decreases |fs|
  {
    hide PutU32, GetU32, ReadList, GetDigest;
    if fs == [] {
      assert PrintDigests(digest, fs) + rest == rest;
    } else {
      var ds := KeyDigests(digest, fs[0].entries);
      var first := digest(fs[0].name) + PutU32(|fs[0].entries|) + Joined(ds);
      var tail := PrintDigests(digest, fs[1..]) + rest;
      assert PrintDigests(digest, fs) + rest == first + tail;
      FolderDigestsRoundTrip(digest, fs[0], tail, i, stale);
      DigestsRoundTrip(digest, fs[1..], rest, i + 1, hashes[digest(fs[0].name) := ds], stale);
    }
  }

  // ----- Payload -----

  /** Filler bytes between the data and the SHA-1: 1 to 8 of them. */
  function Delta(size: nat): (d: nat)
    ensures 1 <= d <= 8
    ensures (32 + size + d) % 8 == 0
  {
    8 - (size + 32) % 8
  }

  /** Random block, size field, data, filler, digest. */
  function Payload(data: seq<byte>, random: seq<byte>): (p: seq<byte>)
    requires |random| == 8 + Delta(|data|)
    ensures |p| == 32 + |data| + Delta(|data|) && |p| % 8 == 0
  {
    hide Be32, Delta, Sha1.Digest;
    random[..8] + Be32(|data|) + data + random[8..] + Sha1.Digest(data)
  }

  /** The whole file. */
  function Image(setup: Setup, fs: seq<Folder>, key: seq<byte>, random: seq<byte>): (file: seq<byte>)
    requires setup.Valid() && key != []
    requires |random| == 8 + Delta(|PrintFolders(fs)|)
    ensures |file| >= SMALLEST
  {
    MAGIC + VERSION + PutU32(|fs|) + PrintDigests(setup.digest, fs)
    + EncryptBlocks(KeySchedule(setup.constants, key), Payload(PrintFolders(fs), random))
  }

  /** A key the cipher accepts. */
  predicate Usable(constants: Tables, key: seq<byte>)
    requires constants.Valid()
  {
    0 < |key| <= 56 && Strong(KeySchedule(constants, key).S)
  }

  /** `long(*t)`: a plain `char` is signed. */
  function SignExtended(b: byte): bv64 {
    if b >= 128 then (b as bv64) | 0xffff_ffff_ffff_ff00 else b as bv64
  }

  /** The size field, put together from signed bytes shifted and masked. */
  function SizeBits(b0: byte, b1: byte, b2: byte, b3: byte): bv64 {
    ((SignExtended(b0) << 24) & 0xff00_0000) | ((SignExtended(b1) << 16) & 0x00ff_0000)
    | ((SignExtended(b2) << 8) & 0x0000_ff00) | (SignExtended(b3) & 0x0000_00ff)
  }

  lemma SizeBitsUnsigned(b0: byte, b1: byte, b2: byte, b3: byte)
    ensures SizeBits(b0, b1, b2, b3)
         == ((b0 as bv64) << 24) | ((b1 as bv64) << 16) | ((b2 as bv64) << 8) | (b3 as bv64)
  {
  }

  lemma ShiftedBytesSum(b0: byte, b1: byte, b2: byte, b3: byte)
    ensures (((b0 as bv64) << 24) | ((b1 as bv64) << 16) | ((b2 as bv64) << 8) | (b3 as bv64)) as int
         == (b0 as int) * 0x100_0000 + (b1 as int) * 0x1_0000 + (b2 as int) * 0x100 + b3 as int
  {
  }

  /** The masks undo the sign extension: the decoded size is the big-endian number. */
  lemma SizeFieldDecodes(b0: byte, b1: byte, b2: byte, b3: byte)
    ensures SizeBits(b0, b1, b2, b3) as int == FromBe32([b0, b1, b2, b3])
  {
    hide SizeBits;
    SizeBitsUnsigned(b0, b1, b2, b3);
    ShiftedBytesSum(b0, b1, b2, b3);
  }

  // ----- Opening -----

  /** What `openInternal` leaves behind: return code, index, folders, and whether the key was wiped. */
  datatype Loaded = Loaded(rc: int, hashes: HashMap, entries: FolderMap, wiped: bool)

  function ByteAt(p: seq<byte>, i: int, stale: Stale): byte {
    if 0 <= i < |p| then p[i] else stale.outside(i)
  }

  function SizeField(p: seq<byte>, stale: Stale): (n: nat) {
    SizeBits(ByteAt(p, 8, stale), ByteAt(p, 9, stale), ByteAt(p, 10, stale), ByteAt(p, 11, stale)) as int
  }

  predicate DigestMatches(p: seq<byte>, digest: seq<byte>, stale: Stale)
    requires |digest| == 20
  {
    forall i :: 0 <= i < 20 ==> digest[i] == ByteAt(p, |p| - 20 + i, stale)
  }

  /** The decrypted payload: size check, digest check, then the folders into `entries`. */
  function LoadPayload(p: seq<byte>, hashes: HashMap, entries: FolderMap, stale: Stale): Loaded {
    var size := SizeField(p, stale);
    if size > |p| - 12 then Loaded(-9, hashes, entries, false)
    else
      var data := p[12..12 + size];
      if !DigestMatches(p, Sha1.Digest(data), stale) then Loaded(-8, hashes, entries, false)
      else Loaded(0, hashes, ReadFolders(data, entries), false)
  }

  /** What stands before the payload of a file: not a wallet's, too many folders, or a digest block. */
  datatype Front = NotWallet(rc: int) | TooMany | Digests(block: DigestBlock)

  /** Reading it takes no key. */
  function ReadFront(file: seq<byte>, stale: Stale): (f: Front)
    requires |file| >= SMALLEST
    ensures f.NotWallet? ==> f.rc < 0
  {
    if file[..12] != MAGIC then NotWallet(-3)
    else if file[12] != 0 || file[13] != 0 then NotWallet(-4)
    else if file[14] != 0 || file[15] != 0 then NotWallet(-42)
    else
      var n := GetU32(file[16..]);
      if n.value > MOST_FOLDERS then TooMany
      else Digests(ReadDigests(n.rest, 0, n.value, map[], stale))
  }

  /** A file that is not junk, from the first byte on. */
  function LoadFile(setup: Setup, key: seq<byte>, file: seq<byte>, hashes: HashMap, entries: FolderMap, stale: Stale): Loaded
    requires setup.Valid() && |file| >= SMALLEST
  {
    match ReadFront(file, stale)
    case NotWallet(rc) => Loaded(rc, hashes, entries, false)
    case TooMany => Loaded(-43, map[], entries, false)
    case Digests(block) => LoadBlock(setup, key, block, entries, stale)
  }

  /** From the digest block on: the rest of the file is decrypted and its payload read. */
  function LoadBlock(setup: Setup, key: seq<byte>, block: DigestBlock, entries: FolderMap, stale: Stale): Loaded
    requires setup.Valid()
  {
    if !block.ok then Loaded(-43, block.hashes, entries, false)
    else if |block.rest| % 8 != 0 then Loaded(-5, block.hashes, entries, false)
    else if !Usable(setup.constants, key) then Loaded(-6, block.hashes, entries, true)
    else LoadPayload(DecryptBlocks(KeySchedule(setup.constants, key), block.rest), block.hashes, entries, stale)
  }

  // ----- What a file holds, whatever it is opened into -----

  /** What a key makes of the rest of a file: the code, and with code 0 the folders. */
  datatype Unlocked = Unlocked(rc: int, folders: FolderMap, wiped: bool)

  function UnlockPayload(p: seq<byte>, stale: Stale): (u: Unlocked)
    ensures u.rc != 0 ==> u.folders == map[]
  {
    var size := SizeField(p, stale);
    if size > |p| - 12 then Unlocked(-9, map[], false)
    else
      var data := p[12..12 + size];
      if DigestMatches(p, Sha1.Digest(data), stale) then Unlocked(0, ReadFolders(data, map[]), false)
      else Unlocked(-8, map[], false)
  }

  function Unlock(setup: Setup, key: seq<byte>, block: DigestBlock, stale: Stale): (u: Unlocked)
    requires setup.Valid()
    ensures u.rc != 0 ==> u.folders == map[]
  {
    if !block.ok then Unlocked(-43, map[], false)
    else if |block.rest| % 8 != 0 then Unlocked(-5, map[], false)
    else if !Usable(setup.constants, key) then Unlocked(-6, map[], true)
    else UnlockPayload(DecryptBlocks(KeySchedule(setup.constants, key), block.rest), stale)
  }

  /** Folders are read into memory one by one; they end up laid over those that were there. */
  lemma {:induction false} ReadFoldersInto(s: seq<byte>, m: FolderMap)
    ensures ReadFolders(s, m) == m + ReadFolders(s, map[])
    decreases |s|
  {
    hide GetString, GetU32, ReadEntries;
    if s == [] {
    } else {
      var name := GetString(s);
      var n := GetU32(name.rest);
      var em := ReadEntries(n.rest, n.value, map[]);
      ReadFoldersInto(em.rest, m[name.value := em.value]);
      ReadFoldersInto(em.rest, map[][name.value := em.value]);
    }
  }

  lemma PayloadIntoMemory(p: seq<byte>, hashes: HashMap, entries: FolderMap, stale: Stale)
    ensures var u := UnlockPayload(p, stale);
            LoadPayload(p, hashes, entries, stale) == Loaded(u.rc, hashes, entries + u.folders, u.wiped)
  {
    hide SizeField, DigestMatches, ReadFolders, Sha1.Digest;
    assert entries + map[] == entries;
    var size := SizeField(p, stale);
    if size <= |p| - 12 {
      ReadFoldersInto(p[12..12 + size], entries);
    }
  }

  /**
   Opening any file into any memory: behind a wallet's header the index is the digest block,
   whatever index was there and whatever the key, and the folders in the file are laid over
   those in memory.
   */
  lemma LoadedIs(setup: Setup, key: seq<byte>, file: seq<byte>, hashes: HashMap, entries: FolderMap, stale: Stale)
    requires setup.Valid() && |file| >= SMALLEST
    ensures LoadFile(setup, key, file, hashes, entries, stale) ==
      match ReadFront(file, stale)
      case NotWallet(rc) => Loaded(rc, hashes, entries, false)
      case TooMany => Loaded(-43, map[], entries, false)
      case Digests(block) =>
        var u := Unlock(setup, key, block, stale);
        Loaded(u.rc, block.hashes, entries + u.folders, u.wiped)
  {
    hide ReadFront, LoadPayload, UnlockPayload, DecryptBlocks, KeySchedule, Strong;
    var front := ReadFront(file, stale);
    assert entries + map[] == entries;
    if front.Digests? && |front.block.rest| % 8 == 0 && Usable(setup.constants, key) {
      PayloadIntoMemory(DecryptBlocks(KeySchedule(setup.constants, key), front.block.rest), front.block.hashes, entries, stale);
    }
  }

  // ----- Opening what was written -----

  lemma PayloadParts(data: seq<byte>, random: seq<byte>)
    requires |random| == 8 + Delta(|data|)
    ensures var p := Payload(data, random);
      && [p[8], p[9], p[10], p[11]] == Be32(|data|)
      && 12 + |data| < |p| && p[12..12 + |data|] == data
      && p[|p| - 20..] == Sha1.Digest(data)
      && p[..8] == random[..8] && p[12 + |data|..|p| - 20] == random[8..]
  {
    hide Be32, Sha1.Digest, Delta;
    var p := Payload(data, random);
    assert p[8..12] == Be32(|data|);
    assert [p[8], p[9], p[10], p[11]] == p[8..12];
  }

  lemma PayloadRoundTrip(data: seq<byte>, random: seq<byte>, hashes: HashMap, entries: FolderMap, stale: Stale)
    requires |random| == 8 + Delta(|data|) && |data| < 0x1_0000_0000
    ensures LoadPayload(Payload(data, random), hashes, entries, stale)
         == Loaded(0, hashes, ReadFolders(data, entries), false)
  {
    hide Be32, ReadFolders, Sha1.Digest, Payload, Delta, SizeField, DigestMatches;
    var p := Payload(data, random);
    PayloadParts(data, random);
    SizeFieldIs(p, |data|, stale);
    DigestFound(p, Sha1.Digest(data), stale);
  }

  lemma SizeFieldIs(p: seq<byte>, n: nat, stale: Stale)
    requires |p| >= 12 && n < 0x1_0000_0000 && [p[8], p[9], p[10], p[11]] == Be32(n)
    ensures SizeField(p, stale) == n
  {
    hide Be32, SizeBits;
    SizeFieldDecodes(p[8], p[9], p[10], p[11]);
    Be32RoundTrip(n);
  }

  lemma DigestFound(p: seq<byte>, digest: seq<byte>, stale: Stale)
    requires |digest| == 20 <= |p| && p[|p| - 20..] == digest
    ensures DigestMatches(p, digest, stale)
  {
    var tail := p[|p| - 20..];
    assert forall i :: 0 <= i < 20 ==> tail[i] == p[|p| - 20 + i];
  }

  /** The parts of an image, where the reader looks for them. */
  lemma ImageParts(setup: Setup, fs: seq<Folder>, key: seq<byte>, random: seq<byte>)
    requires setup.Valid() && key != []
    requires |random| == 8 + Delta(|PrintFolders(fs)|)
    ensures var file := Image(setup, fs, key, random);
      var enc := EncryptBlocks(KeySchedule(setup.constants, key), Payload(PrintFolders(fs), random));
      && |file| >= SMALLEST
      && file[..12] == MAGIC && file[12..16] == VERSION
      && file[16..] == PutU32(|fs|) + (PrintDigests(setup.digest, fs) + enc)
  {
    hide EncryptBlocks, Payload, PrintFolders, PrintDigests, KeySchedule;
  }

  lemma {:induction false} ListingSizes(fs: seq<Folder>)
    ensures |PrintFolders(fs)| >= 8 * |fs|
    ensures forall k :: 0 <= k < |fs| ==> 12 * |fs[k].entries| <= |PrintFolders(fs)|
  {
    hide PrintEntries;
    if fs == [] {
    } else {
      ListingSizes(fs[1..]);
      assert forall k :: 1 <= k < |fs| ==> fs[k] == fs[1..][k - 1];
    }
  }

  function Names(fs: seq<Folder>): set<QString> {
    set i | 0 <= i < |fs| :: fs[i].name
  }

  lemma {:induction false} DistinctNames(fs: seq<Folder>)
    requires forall i, j :: 0 <= i < j < |fs| ==> fs[i].name != fs[j].name
    ensures |Names(fs)| == |fs|
  {
    if fs == [] {
    } else {
      var k := |fs| - 1;
      DistinctNames(fs[..k]);
      assert Names(fs) == Names(fs[..k]) + {fs[k].name};
      assert fs[k].name !in Names(fs[..k]);
    }
  }

  lemma NamesCount(fs: seq<Folder>, m: FolderMap)
    requires ListsWallet(fs, m)
    ensures |fs| == |m|
  {
    DistinctNames(fs);
    forall f
      ensures f in Names(fs) <==> f in m.Keys
    {
    }
    assert Names(fs) == m.Keys;
  }

  /**
   Opening what `sync` wrote, with the same key: for every order of iteration, every random
   block and whatever the memory around holds, the open succeeds unless there are too many
   folders; the index is that of the wallet; and the folders are the ones written exactly
   when every entry is of a known type.
   */
  lemma ReopenSynced(setup: Setup, fs: seq<Folder>, m: FolderMap, key: seq<byte>, random: seq<byte>,
                     hashes: HashMap, entries: FolderMap, stale: Stale)
    requires setup.Valid() && Usable(setup.constants, key)
    requires ListsWallet(fs, m) && |PrintFolders(fs)| < 0x7fff_ffd0
    requires |random| == 8 + Delta(|PrintFolders(fs)|)
    ensures |Image(setup, fs, key, random)| >= SMALLEST
    ensures var r := LoadFile(setup, key, Image(setup, fs, key, random), hashes, entries, stale);
      && r.rc == (if |m| <= MOST_FOLDERS then 0 else -43)
      && !r.wiped
      && (r.rc == 0 ==> r.hashes == IndexOf(setup.digest, fs, map[]))
      && (r.rc == 0 && AllKnown(m) ==> r.entries == entries + RefiledFolders(m))
      && (r.rc == 0 && entries == map[] ==> (SameContents(r.entries, m) <==> AllKnown(m)))
  {
    hide EncryptBlocks, DecryptBlocks, KeySchedule, Payload, PrintFolders, PrintDigests, Image,
         IndexOf, ReadFolders, ListsWallet, AllKnown, Strong, LoadBlock, ReadFront;
    var data := PrintFolders(fs);
    var t := KeySchedule(setup.constants, key);
    var p := Payload(data, random);
    NamesCount(fs, m);
    ImageFront(setup, fs, key, random, stale);
    BlockRead(setup, key, p, IndexOf(setup.digest, fs, map[]), entries, stale);
    PayloadRoundTrip(data, random, IndexOf(setup.digest, fs, map[]), entries, stale);
    FoldersInto(fs, m, entries);
  }

  /** The front of an image, whatever key the reader has. */
  lemma ImageFront(setup: Setup, fs: seq<Folder>, key: seq<byte>, random: seq<byte>, stale: Stale)
    requires setup.Valid() && key != [] && |PrintFolders(fs)| < 0x8000_0000
    requires |random| == 8 + Delta(|PrintFolders(fs)|)
    ensures |Image(setup, fs, key, random)| >= SMALLEST
    ensures var enc := EncryptBlocks(KeySchedule(setup.constants, key), Payload(PrintFolders(fs), random));
      ReadFront(Image(setup, fs, key, random), stale)
      == if |fs| > MOST_FOLDERS then TooMany else Digests(DigestBlock(true, IndexOf(setup.digest, fs, map[]), enc))
  {
    hide EncryptBlocks, KeySchedule, Payload, PrintFolders, PrintDigests, Image, ReadDigests,
         IndexOf, GetU32, PutU32;
    var enc := EncryptBlocks(KeySchedule(setup.constants, key), Payload(PrintFolders(fs), random));
    var file := Image(setup, fs, key, random);
    ListingSizes(fs);
    ImageParts(setup, fs, key, random);
    assert [file[12], file[13], file[14], file[15]] == file[12..16] == VERSION;
    U32RoundTrip(|fs|, PrintDigests(setup.digest, fs) + enc);
    DigestsRoundTrip(setup.digest, fs, enc, 0, map[], stale);
  }

  lemma BlockRead(setup: Setup, key: seq<byte>, p: seq<byte>, hashes: HashMap, entries: FolderMap, stale: Stale)
    requires setup.Valid() && Usable(setup.constants, key) && |p| % 8 == 0
    ensures LoadBlock(setup, key, DigestBlock(true, hashes, EncryptBlocks(KeySchedule(setup.constants, key), p)), entries, stale)
         == LoadPayload(p, hashes, entries, stale)
  {
    hide EncryptBlocks, DecryptBlocks, KeySchedule, LoadPayload, Strong;
    DecryptEncrypt(KeySchedule(setup.constants, key), p);
  }

  lemma FoldersInto(fs: seq<Folder>, m: FolderMap, entries: FolderMap)
    requires ListsWallet(fs, m) && |PrintFolders(fs)| < 0x8000_0000
    ensures AllKnown(m) ==> ReadFolders(PrintFolders(fs), entries) == entries + RefiledFolders(m)
    ensures SameContents(ReadFolders(PrintFolders(fs), map[]), m) <==> AllKnown(m)
  {
    hide ReadFolders, PrintFolders, CollectFolders, ListsWallet;
    DataRoundTrip(fs, m);
    if AllKnown(m) {
      KnownInListing(fs, m);
      FoldersRoundTrip(fs, entries);
      CollectFoldersIsRefiled(fs, m, entries);
    }
  }
}
