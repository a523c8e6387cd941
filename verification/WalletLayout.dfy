/**
 When a wallet file is accepted, by its bytes: what every file that opens is made of, and the code
 that any other gives.
 */
module WalletLayout {
  import opened Bytes
  import opened Feistel
  import opened QtStream
  import opened WalletFormat
  import opened WalletFile
  import Sha1

  // ----- The digest block -----

  /** A folder in the digest block: the digest of its name, and those of its keys. */
  datatype Listed = Listed(folder: Digest, keys: seq<Digest>)

  function Printed(bs: seq<Listed>): seq<byte>
    decreases |bs|
  {
    if bs == [] then [] else bs[0].folder + Be32(|bs[0].keys|) + Joined(bs[0].keys) + Printed(bs[1..])
  }

  /** The index of a digest block: of folders with one digest the last is kept. */
  function Indexed(bs: seq<Listed>, hashes: HashMap): HashMap
    decreases |bs|
  {
    if bs == [] then hashes else Indexed(bs[1..], hashes[bs[0].folder := bs[0].keys])
  }

  ghost predicate Countable(bs: seq<Listed>) {
    forall k :: 0 <= k < |bs| ==> |bs[k].keys| < 0x1_0000_0000
  }

  lemma FirstListed(b: Listed, rest: seq<byte>, i: nat, stale: Stale)
    requires |b.keys| < 0x1_0000_0000
    ensures var d := GetDigest(b.folder + Be32(|b.keys|) + Joined(b.keys) + rest, stale.folder(i));
      var count := GetU32(d.rest);
      && d.value == b.folder && count.value == |b.keys|
      && ReadList(count.rest, i, 0, count.value, stale) == Read(b.keys, rest)
  {
    hide PutU32, GetU32, ReadList, Be32;
    var s := b.folder + Be32(|b.keys|) + Joined(b.keys) + rest;
    assert s[..16] == b.folder;
    assert s[16..] == Be32(|b.keys|) + (Joined(b.keys) + rest);
    PutU32Is(|b.keys|);
    U32RoundTrip(|b.keys|, Joined(b.keys) + rest);
    ListRoundTrip(b.keys, rest, i, 0, stale);
  }

  lemma {:induction false} ReadsPrinted(bs: seq<Listed>, rest: seq<byte>, i: nat, hashes: HashMap, stale: Stale)
    requires Countable(bs)
    ensures ReadDigests(Printed(bs) + rest, i, i + |bs|, hashes, stale) == DigestBlock(true, Indexed(bs, hashes), rest)
    decreases |bs|
  {
    hide GetU32, ReadList, GetDigest, Be32;
    if bs == [] {
      assert Printed(bs) + rest == rest;
    } else {
      var b, tail := bs[0], Printed(bs[1..]) + rest;
      assert Printed(bs) + rest == b.folder + Be32(|b.keys|) + Joined(b.keys) + tail;
      FirstListed(b, tail, i, stale);
      ReadsPrinted(bs[1..], rest, i + 1, hashes[b.folder := b.keys], stale);
    }
  }

  lemma {:induction false} ListIsPrinted(s: seq<byte>, i: nat, j: nat, n: nat, stale: Stale)
    requires j <= n && ReadList(s, i, j, n, stale).rest != []
    ensures var r := ReadList(s, i, j, n, stale); |r.value| == n - j && s == Joined(r.value) + r.rest
    decreases n - j
  {
    if j == n {
    } else {
      var d := GetDigest(s, stale.entry(i, j));
      ListIsPrinted(d.rest, i, j + 1, n, stale);
      var tail := ReadList(d.rest, i, j + 1, n, stale);
      assert Joined([d.value] + tail.value) == d.value + Joined(tail.value);
    }
  }

  lemma U32Taken(s: seq<byte>)
    requires GetU32(s).rest != []
    ensures s == Be32(GetU32(s).value) + GetU32(s).rest
  {
    hide Be32, FromBe32;
    FromBe32RoundTrip(s[..4]);
  }

  /** The first folder, if anything follows the block that it is part of. */
  lemma ListedTaken(s: seq<byte>, i: nat, stale: Stale) returns (b: Listed)
    requires var d := GetDigest(s, stale.folder(i)); var count := GetU32(d.rest);
             ReadList(count.rest, i, 0, count.value, stale).rest != []
    ensures var d := GetDigest(s, stale.folder(i)); var count := GetU32(d.rest);
            var list := ReadList(count.rest, i, 0, count.value, stale);
            && b == Listed(d.value, list.value) && |b.keys| < 0x1_0000_0000
            && s == b.folder + Be32(|b.keys|) + Joined(b.keys) + list.rest
  {
    hide Be32, GetU32, ReadList;
    var d := GetDigest(s, stale.folder(i));
    var count := GetU32(d.rest);
    var list := ReadList(count.rest, i, 0, count.value, stale);
    ListIsPrinted(count.rest, i, 0, count.value, stale);
    U32Taken(d.rest);
    b := Listed(d.value, list.value);
    assert d.rest == Be32(|b.keys|) + (Joined(b.keys) + list.rest);
  }

  /** A block read to its end with something behind it was whole: nothing in it was made up. */
  lemma {:induction false} ReadIsPrinted(s: seq<byte>, i: nat, n: nat, hashes: HashMap, stale: Stale) returns (bs: seq<Listed>)
    requires i <= n && ReadDigests(s, i, n, hashes, stale).ok && ReadDigests(s, i, n, hashes, stale).rest != []
    ensures var b := ReadDigests(s, i, n, hashes, stale);
            |bs| == n - i && Countable(bs) && s == Printed(bs) + b.rest && b.hashes == Indexed(bs, hashes)
    decreases n - i
  {
    hide GetU32, ReadList, GetDigest, Be32;
    if i == n {
      bs := [];
    } else {
      var d := GetDigest(s, stale.folder(i));
      var count := GetU32(d.rest);
      var list := ReadList(count.rest, i, 0, count.value, stale);
      var more := ReadIsPrinted(list.rest, i + 1, n, hashes[d.value := list.value], stale);
      var first := ListedTaken(s, i, stale);
      bs := [first] + more;
      assert bs[1..] == more;
      assert s == Printed(bs) + ReadDigests(s, i, n, hashes, stale).rest;
    }
  }

  lemma FirstCut(d: Digest, cut: seq<byte>, i: nat, stale: Stale)
    requires |cut| < 4
    ensures var g := GetDigest(d + cut, stale.folder(i)); var count := GetU32(g.rest);
            g.value == d && count == Read(0, []) && ReadList(count.rest, i, 0, 0, stale) == Read([], [])
  {
    assert (d + cut)[..16] == d && (d + cut)[16..] == cut;
  }

  /** Where the file ends in the number of a folder's keys, the folder is taken to have none. */
  lemma {:induction false} CutFolder(bs: seq<Listed>, d: Digest, cut: seq<byte>, i: nat, hashes: HashMap, stale: Stale)
    requires Countable(bs) && |cut| < 4
    ensures ReadDigests(Printed(bs) + (d + cut), i, i + |bs| + 1, hashes, stale)
         == DigestBlock(true, Indexed(bs, hashes)[d := []], [])
    decreases |bs|
  {
    hide GetU32, ReadList, GetDigest, Be32;
    if bs == [] {
      FirstCut(d, cut, i, stale);
      assert Printed(bs) + (d + cut) == d + cut;
    } else {
      var b, tail := bs[0], Printed(bs[1..]) + (d + cut);
      assert Printed(bs) + (d + cut) == b.folder + Be32(|b.keys|) + Joined(b.keys) + tail;
      FirstListed(b, tail, i, stale);
      CutFolder(bs[1..], d, cut, i + 1, hashes[b.folder := b.keys], stale);
    }
  }

  /** Where the file ends with folders still due, the block is not complete. */
  lemma {:induction false} MissingFolders(bs: seq<Listed>, i: nat, n: nat, hashes: HashMap, stale: Stale)
    requires Countable(bs) && i + |bs| < n
    ensures ReadDigests(Printed(bs), i, n, hashes, stale) == DigestBlock(false, Indexed(bs, hashes), [])
    decreases |bs|
  {
    hide GetU32, ReadList, GetDigest, Be32;
    if bs == [] {
    } else {
      var b := bs[0];
      FirstListed(b, Printed(bs[1..]), i, stale);
      MissingFolders(bs[1..], i + 1, n, hashes[b.folder := b.keys], stale);
    }
  }

  // ----- The payload -----

  /** The last twenty bytes of a payload, with memory in front of one that is too short. */
  function LastTwenty(p: seq<byte>, stale: Stale): (s: seq<byte>)
    ensures |s| == 20
  {
    if |p| >= 20 then p[|p| - 20..] else seq(20 - |p|, i requires 0 <= i < 20 - |p| => stale.outside(|p| - 20 + i)) + p
  }

  lemma MatchesIff(p: seq<byte>, d: seq<byte>, stale: Stale)
    requires |d| == 20
    ensures DigestMatches(p, d, stale) <==> LastTwenty(p, stale) == d
  {
    var t := LastTwenty(p, stale);
    assert forall i :: 0 <= i < 20 ==> t[i] == ByteAt(p, |p| - 20 + i, stale);
  }

  lemma SizeFieldOf(p: seq<byte>, stale: Stale)
    requires |p| >= 12
    ensures SizeField(p, stale) == FromBe32(p[8..12])
  {
    hide SizeBits;
    SizeFieldDecodes(p[8], p[9], p[10], p[11]);
    assert p[8..12] == [p[8], p[9], p[10], p[11]];
  }

  /**
   What a decrypted payload is loaded as. Bytes 8 to 11 are the size of the data, most
   significant first, the data follow, and the last twenty bytes have to be their SHA-1.
   */
  lemma PayloadOpens(p: seq<byte>, hashes: HashMap, entries: FolderMap, stale: Stale)
    requires |p| % 8 == 0
    ensures LoadPayload(p, hashes, entries, stale) ==
      if |p| < 16 || FromBe32(p[8..12]) > |p| - 12 then Loaded(-9, hashes, entries, false)
      else
        var data := p[12..12 + FromBe32(p[8..12])];
        if LastTwenty(p, stale) != Sha1.Digest(data) then Loaded(-8, hashes, entries, false)
        else Loaded(0, hashes, entries + ReadFolders(data, map[]), false)
  {
    hide SizeField, DigestMatches, LastTwenty, Sha1.Digest, FromBe32, ReadFolders;
    if |p| >= 16 {
      SizeFieldOf(p, stale);
      var n := FromBe32(p[8..12]);
      if n <= |p| - 12 {
        MatchesIff(p, Sha1.Digest(p[12..12 + n]), stale);
        ReadFoldersInto(p[12..12 + n], entries);
      }
    }
  }

  // ----- The file -----

  /** "KWALLET\n\r\0\r\n" and version 0.0 with cipher 0 and hash 0. */
  const HEADER: seq<byte> := [0x4b, 0x57, 0x41, 0x4c, 0x4c, 0x45, 0x54, 0x0a, 0x0d, 0x00, 0x0d, 0x0a, 0, 0, 0, 0]

  /** The codes for what is wrong in front of the digest block, in the order in which it is checked. */
  lemma HeaderCodes(setup: Setup, key: seq<byte>, file: seq<byte>, hashes: HashMap, entries: FolderMap, stale: Stale)
    requires setup.Valid() && |file| >= 60
    ensures var r := LoadFile(setup, key, file, hashes, entries, stale);
      && (file[..12] != HEADER[..12] ==> r == Loaded(-3, hashes, entries, false))
      && (file[..12] == HEADER[..12] && file[12..14] != [0, 0] ==> r == Loaded(-4, hashes, entries, false))
      && (file[..14] == HEADER[..14] && file[14..16] != [0, 0] ==> r == Loaded(-42, hashes, entries, false))
      && (file[..16] == HEADER && FromBe32(file[16..20]) > 0xffff ==> r == Loaded(-43, map[], entries, false))
      && (file[..16] == HEADER ==> r.rc !in {-3, -4, -42})
  {
    hide ReadDigests, LoadBlock, FromBe32;
    HeaderBytes(file);
    BlockCodes(setup, key, ReadDigests(GetU32(file[16..]).rest, 0, if GetU32(file[16..]).value > 0xffff then 0 else GetU32(file[16..]).value, map[], stale), entries, stale);
  }

  lemma BlockCodes(setup: Setup, key: seq<byte>, block: DigestBlock, entries: FolderMap, stale: Stale)
    requires setup.Valid()
    ensures LoadBlock(setup, key, block, entries, stale).rc in {-43, -5, -6, -9, -8, 0}
  {
    hide DecryptBlocks, KeySchedule, Strong, SizeField, DigestMatches, ReadFolders;
  }

  lemma HeaderBytes(file: seq<byte>)
    requires |file| >= 60
    ensures file[..12] == HEADER[..12] <==> file[..12] == MAGIC
    ensures file[12..14] == [0, 0] <==> file[12] == 0 && file[13] == 0
    ensures file[14..16] == [0, 0] <==> file[14] == 0 && file[15] == 0
    ensures file[..14] == HEADER[..14] <==> file[..12] == HEADER[..12] && file[12..14] == [0, 0]
    ensures file[..16] == HEADER <==> file[..14] == HEADER[..14] && file[14..16] == [0, 0]
    ensures GetU32(file[16..]) == Read(FromBe32(file[16..20]), file[20..])
  {
    hide FromBe32;
    assert HEADER[..12] == MAGIC;
    assert file[..14] == file[..12] + file[12..14] && HEADER[..14] == HEADER[..12] + [0, 0];
    assert file[..16] == file[..14] + file[14..16] && HEADER == HEADER[..14] + [0, 0];
    assert file[16..][..4] == file[16..20] && file[16..][4..] == file[20..];
  }

  /** A file with a whole digest block: its header, the number of folders, the block, and the rest. */
  ghost predicate Whole(file: seq<byte>, bs: seq<Listed>, rest: seq<byte>) {
    && |bs| <= 0xffff && Countable(bs)
    && file == HEADER + Be32(|bs|) + Printed(bs) + rest
  }

  /** What the digest block of a whole file is read as. */
  lemma WholeFront(file: seq<byte>, bs: seq<Listed>, rest: seq<byte>, stale: Stale)
    requires |file| >= 60 && Whole(file, bs, rest)
    ensures ReadFront(file, stale) == Digests(DigestBlock(true, Indexed(bs, map[]), rest))
  {
    hide FromBe32, Be32, Printed, ReadDigests, GetU32;
    assert file[..16] == HEADER && file[16..20] == Be32(|bs|) && file[20..] == Printed(bs) + rest;
    HeaderBytes(file);
    Be32RoundTrip(|bs|);
    ReadsPrinted(bs, rest, 0, map[], stale);
  }

  /** What opening a file with a whole digest block does, by its bytes. */
  lemma WholeOpens(setup: Setup, key: seq<byte>, file: seq<byte>, hashes: HashMap, entries: FolderMap, stale: Stale,
                   bs: seq<Listed>, rest: seq<byte>)
    requires setup.Valid() && |file| >= 60 && Whole(file, bs, rest)
    ensures var index := Indexed(bs, map[]);
      LoadFile(setup, key, file, hashes, entries, stale) ==
      if |rest| % 8 != 0 then Loaded(-5, index, entries, false)
      else if !Usable(setup.constants, key) then Loaded(-6, index, entries, true)
      else LoadPayload(DecryptBlocks(KeySchedule(setup.constants, key), rest), index, entries, stale)
  {
    hide ReadFront, Whole, LoadPayload, KeySchedule, DecryptBlocks, Strong;
    WholeFront(file, bs, rest, stale);
  }

  /** A payload with the size of its data, the data, and, at the end, their SHA-1. */
  predicate Holds(p: seq<byte>, data: seq<byte>, stale: Stale) {
    16 <= |p| && FromBe32(p[8..12]) == |data| <= |p| - 12 && p[12..12 + |data|] == data
    && LastTwenty(p, stale) == Sha1.Digest(data)
  }

  lemma PayloadHolds(p: seq<byte>, hashes: HashMap, entries: FolderMap, stale: Stale) returns (data: seq<byte>)
    requires |p| % 8 == 0 && LoadPayload(p, hashes, entries, stale).rc == 0
    ensures Holds(p, data, stale)
  {
    hide LoadPayload, LastTwenty, Sha1.Digest, FromBe32, ReadFolders;
    PayloadOpens(p, hashes, entries, stale);
    data := p[12..12 + FromBe32(p[8..12])];
  }

  /** A file that ends in front of a folder it announced is refused with -43, and leaves what there was as the index. */
  lemma MissingFoldersRefused(setup: Setup, key: seq<byte>, file: seq<byte>, hashes: HashMap, entries: FolderMap, stale: Stale,
                              bs: seq<Listed>, n: nat)
    requires setup.Valid() && |file| >= 60 && Countable(bs) && |bs| < n <= 0xffff
    requires file == HEADER + Be32(n) + Printed(bs)
    ensures LoadFile(setup, key, file, hashes, entries, stale) == Loaded(-43, Indexed(bs, map[]), entries, false)
  {
    hide Be32, Printed, ReadFront, DecryptBlocks, KeySchedule, LoadPayload;
    MissingFront(file, stale, bs, n);
  }

  lemma MissingFront(file: seq<byte>, stale: Stale, bs: seq<Listed>, n: nat)
    requires |file| >= 60 && Countable(bs) && |bs| < n <= 0xffff
    requires file == HEADER + Be32(n) + Printed(bs)
    ensures ReadFront(file, stale) == Digests(DigestBlock(false, Indexed(bs, map[]), []))
  {
    hide FromBe32, Be32, Printed, ReadDigests, GetU32, Indexed;
    HeadOf(HEADER, Be32(n), Printed(bs));
    HeaderBytes(file);
    Be32RoundTrip(n);
    MissingFolders(bs, 0, n, map[], stale);
  }

  lemma HeadOf(a: seq<byte>, b: seq<byte>, c: seq<byte>)
    requires |a| == 16 && |b| == 4
    ensures var s := a + b + c; s[..16] == a && s[16..20] == b && s[20..] == c
  {
  }

  /**
   What a file that opens is made of: the header, the number of folders, at most 0xffff, a whole
   digest block, and whole blocks that the key decrypts to a payload with the size of its data,
   the data, and, at the end, their SHA-1.
   */
  ghost predicate MadeOf(setup: Setup, key: seq<byte>, file: seq<byte>, stale: Stale,
                         bs: seq<Listed>, rest: seq<byte>, data: seq<byte>)
    requires setup.Valid()
  {
    && Whole(file, bs, rest)
    && |rest| % 8 == 0 && Usable(setup.constants, key)
    && Holds(DecryptBlocks(KeySchedule(setup.constants, key), rest), data, stale)
  }

  lemma MadeOfOpens(setup: Setup, key: seq<byte>, file: seq<byte>, hashes: HashMap, entries: FolderMap, stale: Stale,
                    bs: seq<Listed>, rest: seq<byte>, data: seq<byte>)
    requires setup.Valid() && |file| >= 60 && MadeOf(setup, key, file, stale, bs, rest, data)
    ensures LoadFile(setup, key, file, hashes, entries, stale) ==
            Loaded(0, Indexed(bs, map[]), entries + ReadFolders(data, map[]), false)
  {
    hide Whole, LoadFile, LoadPayload, KeySchedule, DecryptBlocks, Strong, LastTwenty, Sha1.Digest, FromBe32, ReadFolders;
    WholeOpens(setup, key, file, hashes, entries, stale, bs, rest);
    PayloadOpens(DecryptBlocks(KeySchedule(setup.constants, key), rest), Indexed(bs, map[]), entries, stale);
  }

  lemma OpenedIsMade(setup: Setup, key: seq<byte>, file: seq<byte>, hashes: HashMap, entries: FolderMap, stale: Stale)
      returns (bs: seq<Listed>, rest: seq<byte>, data: seq<byte>)
    requires setup.Valid() && |file| >= 60 && LoadFile(setup, key, file, hashes, entries, stale).rc == 0
    ensures MadeOf(setup, key, file, stale, bs, rest, data)
  {
    bs, rest := OpenedIsWhole(setup, key, file, hashes, entries, stale);
    hide Whole, LoadFile, LoadPayload, KeySchedule, DecryptBlocks, Strong, Holds;
    WholeOpens(setup, key, file, hashes, entries, stale, bs, rest);
    data := PayloadHolds(DecryptBlocks(KeySchedule(setup.constants, key), rest), Indexed(bs, map[]), entries, stale);
  }

  lemma OpenedFront(setup: Setup, key: seq<byte>, file: seq<byte>, hashes: HashMap, entries: FolderMap, stale: Stale)
    requires setup.Valid() && |file| >= 60 && LoadFile(setup, key, file, hashes, entries, stale).rc == 0
    ensures file[..16] == HEADER && FromBe32(file[16..20]) <= 0xffff
    ensures LoadBlock(setup, key, ReadDigests(file[20..], 0, FromBe32(file[16..20]), map[], stale), entries, stale).rc == 0
  {
    hide FromBe32, ReadDigests, LoadBlock;
    HeaderBytes(file);
  }

  lemma OpenedBlock(setup: Setup, key: seq<byte>, block: DigestBlock, entries: FolderMap, stale: Stale)
    requires setup.Valid() && LoadBlock(setup, key, block, entries, stale).rc == 0
    ensures block.ok && block.rest != [] && |block.rest| % 8 == 0 && Usable(setup.constants, key)
  {
    hide KeySchedule, DecryptBlocks, Strong, LoadPayload;
    if block.ok && |block.rest| % 8 == 0 && Usable(setup.constants, key) {
      PayloadOpens(DecryptBlocks(KeySchedule(setup.constants, key), block.rest), block.hashes, entries, stale);
    }
  }

  lemma InThree(file: seq<byte>)
    requires |file| >= 60
    ensures file == file[..16] + file[16..20] + file[20..]
  {
  }

  lemma Regrouped(a: seq<byte>, b: seq<byte>, c: seq<byte>, d: seq<byte>)
    ensures a + b + (c + d) == a + b + c + d
  {
  }

  lemma OpenedIsWhole(setup: Setup, key: seq<byte>, file: seq<byte>, hashes: HashMap, entries: FolderMap, stale: Stale)
      returns (bs: seq<Listed>, rest: seq<byte>)
    requires setup.Valid() && |file| >= 60 && LoadFile(setup, key, file, hashes, entries, stale).rc == 0
    ensures Whole(file, bs, rest) && |rest| % 8 == 0 && Usable(setup.constants, key)
  {
    hide Usable, FromBe32, Be32, ReadDigests, LoadBlock, Printed, LoadFile;
    OpenedFront(setup, key, file, hashes, entries, stale);
    var n := FromBe32(file[16..20]);
    var block := ReadDigests(file[20..], 0, n, map[], stale);
    OpenedBlock(setup, key, block, entries, stale);
    rest := block.rest;
    bs := ReadIsPrinted(file[20..], 0, n, map[], stale);
    FromBe32RoundTrip(file[16..20]);
    InThree(file);
    Regrouped(HEADER, Be32(|bs|), Printed(bs), rest);
  }

  /** A file opens exactly if it is made so, for some digest block, rest and data. */
  lemma AcceptedIff(setup: Setup, key: seq<byte>, file: seq<byte>, hashes: HashMap, entries: FolderMap, stale: Stale)
    requires setup.Valid() && |file| >= 60
    ensures LoadFile(setup, key, file, hashes, entries, stale).rc == 0 <==>
            exists bs, rest, data :: MadeOf(setup, key, file, stale, bs, rest, data)
  {
    hide LoadFile, MadeOf;
    if LoadFile(setup, key, file, hashes, entries, stale).rc == 0 {
      var bs, rest, data := OpenedIsMade(setup, key, file, hashes, entries, stale);
    }
    if bs, rest, data :| MadeOf(setup, key, file, stale, bs, rest, data) {
      MadeOfOpens(setup, key, file, hashes, entries, stale, bs, rest, data);
    }
  }
}
