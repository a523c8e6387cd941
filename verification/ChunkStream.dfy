/**
 The encrypted part of a ksecret file on values: writes are collected into chunks of at least
 128 bytes, each encrypted and stored behind its length; reads take a chunk at a time.
 */
module ChunkStream {
  import opened Bytes
  import opened QtStream

  const CHUNK: nat := 128
  const SMALLEST_BLOCK: nat := 16

  /** "randomDataToMakeQCAHappy" */
  const PADDING: seq<byte> := [0x72, 0x61, 0x6e, 0x64, 0x6f, 0x6d, 0x44, 0x61, 0x74, 0x61, 0x54, 0x6f,
                               0x4d, 0x61, 0x6b, 0x65, 0x51, 0x43, 0x41, 0x48, 0x61, 0x70, 0x70, 0x79]

  type Code = seq<byte> -> seq<byte>

  /** Decryption undoes encryption, and a chunk's length fits its field. */
  ghost predicate Inverse(enc: Code, dec: Code, most: nat) {
    forall s: seq<byte> :: |s| <= most ==> dec(enc(s)) == s && |enc(s)| < NULL_MARK
  }

  // ----- Writing -----

  datatype Writer = Writer(buffer: seq<byte>, file: seq<byte>)

  function WriteStep(enc: Code, w: Writer, data: seq<byte>): Writer {
    var b := w.buffer + data;
    if |b| >= CHUNK then Writer([], w.file + PutBytes(enc(b))) else Writer(b, w.file)
  }

  function Padded(b: seq<byte>): seq<byte> {
    if |b| < SMALLEST_BLOCK then b + PADDING else b
  }

  function CloseStep(enc: Code, w: Writer): Writer {
    if w.buffer == [] then w else Writer([], w.file + PutBytes(enc(Padded(w.buffer))))
  }

  function WriteAll(enc: Code, w: Writer, ws: seq<seq<byte>>): Writer
    decreases |ws|
  {
    if ws == [] then w else WriteAll(enc, WriteStep(enc, w, ws[0]), ws[1..])
  }

  // ----- Reading -----

  datatype Reader = Reader(buffer: seq<byte>, pos: nat, rest: seq<byte>)

  /**
   What a read gives: the count returned, the bytes there were to copy, and whether that was
   all of them or memory after the chunk was copied as well.
   */
  datatype Delivery = Delivery(reader: Reader, result: int, data: seq<byte>, inside: bool)

  /** The next chunk replaces whatever is left of the current one. */
  function Refilled(dec: Code, r: Reader): Reader {
    var chunk := GetBytes(r.rest);
    Reader(dec(chunk.value), 0, chunk.rest)
  }

  function Unread(r: Reader): int { |r.buffer| - r.pos }

  function ReadStep(dec: Code, r: Reader, n: nat): Delivery {
    var q := if Unread(r) < n then Refilled(dec, r) else r;
    Delivery(q.(pos := q.pos + n),
             if Unread(q) < n then Unread(q) else n,
             if Unread(q) < n then q.buffer[q.pos..] else q.buffer[q.pos..q.pos + n],
             n <= Unread(q))
  }

  /** Reads of these sizes deliver these bytes, each from within one chunk. */
  ghost predicate Delivers(dec: Code, r: Reader, ws: seq<seq<byte>>)
    decreases |ws|
  {
    ws != [] ==>
      var d := ReadStep(dec, r, |ws[0]|);
      && d.inside && d.result == |ws[0]| && d.data == ws[0]
      && (|ws[0]| > Unread(r) ==> Unread(r) == 0)
      && Delivers(dec, d.reader, ws[1..])
  }

  // ----- The file that a run of writes leaves, from the front -----

  /** What is written from here on, when `b` is waiting in the buffer. */
  function FileFrom(enc: Code, b: seq<byte>, ws: seq<seq<byte>>): seq<byte>
    decreases |ws|
  {
    if ws == [] then (if b == [] then [] else PutBytes(enc(Padded(b))))
    else if |b + ws[0]| >= CHUNK then PutBytes(enc(b + ws[0])) + FileFrom(enc, [], ws[1..])
    else FileFrom(enc, b + ws[0], ws[1..])
  }

  /** The rest of the chunk that `b` is the beginning of. */
  function ChunkRest(b: seq<byte>, ws: seq<seq<byte>>): seq<byte>
    decreases |ws|
  {
    if ws == [] then (if |b| < SMALLEST_BLOCK then PADDING else [])
    else if |b + ws[0]| >= CHUNK then ws[0]
    else ws[0] + ChunkRest(b + ws[0], ws[1..])
  }

  /** What is written after the chunk that `b` is the beginning of. */
  function FileAfter(enc: Code, b: seq<byte>, ws: seq<seq<byte>>): seq<byte>
    decreases |ws|
  {
    if ws == [] then []
    else if |b + ws[0]| >= CHUNK then FileFrom(enc, [], ws[1..])
    else FileAfter(enc, b + ws[0], ws[1..])
  }

  lemma {:induction false} WriterLeaves(enc: Code, w: Writer, ws: seq<seq<byte>>)
    ensures CloseStep(enc, WriteAll(enc, w, ws)).file == w.file + FileFrom(enc, w.buffer, ws)
    decreases |ws|
  {
    hide PutBytes, Padded;
    if ws == [] {
    } else {
      var v := WriteStep(enc, w, ws[0]);
      WriterLeaves(enc, v, ws[1..]);
    }
  }

  lemma {:induction false} FirstChunk(enc: Code, b: seq<byte>, ws: seq<seq<byte>>)
    requires b != [] || (ws != [] && ws[0] != [])
    ensures FileFrom(enc, b, ws) == PutBytes(enc(b + ChunkRest(b, ws))) + FileAfter(enc, b, ws)
    decreases |ws|
  {
    hide PutBytes;
    if ws != [] && |b + ws[0]| < CHUNK {
      FirstChunk(enc, b + ws[0], ws[1..]);
      assert b + ws[0] + ChunkRest(b + ws[0], ws[1..]) == b + ChunkRest(b, ws);
    } else if ws == [] {
      assert b + [] == b;
    }
  }

  /** All the bytes of a run of writes, and the padding. */
  function Total(ws: seq<seq<byte>>): nat {
    if ws == [] then |PADDING| else |ws[0]| + Total(ws[1..])
  }

  lemma {:induction false} ChunkFits(b: seq<byte>, ws: seq<seq<byte>>)
    ensures |ChunkRest(b, ws)| <= Total(ws)
    decreases |ws|
  {
    if ws == [] {
    } else {
      ChunkFits(b + ws[0], ws[1..]);
    }
  }

  // ----- What is encrypted -----

  function Flat(cs: seq<seq<byte>>): seq<byte>
    decreases |cs|
  {
    if cs == [] then [] else cs[0] + Flat(cs[1..])
  }

  function PutAll(enc: Code, cs: seq<seq<byte>>): seq<byte>
    decreases |cs|
  {
    if cs == [] then [] else PutBytes(enc(cs[0])) + PutAll(enc, cs[1..])
  }

  /** Nothing but what waits is padded, and the cipher gets sixteen bytes at least. */
  lemma PaddedIs(b: seq<byte>)
    ensures b <= Padded(b) && |Padded(b)| >= 16 && (|b| >= 16 ==> Padded(b) == b)
  {
  }

  /**
   The file of a run of writes of up to `most` bytes and the close: chunks of what was written, in
   order and without loss, the last perhaps with padding. Every chunk has at least 128 bytes, and
   less than a write more, but for the last, which has at least sixteen.
   */
  lemma {:induction false} ChunksOfRun(enc: Code, b: seq<byte>, ws: seq<seq<byte>>, most: nat)
      returns (cs: seq<seq<byte>>, pad: seq<byte>)
    requires |b| < 128 && forall i :: 0 <= i < |ws| ==> |ws[i]| <= most
    ensures FileFrom(enc, b, ws) == PutAll(enc, cs) && Flat(cs) == b + Flat(ws) + pad
    ensures forall i :: 0 <= i < |cs| ==> 16 <= |cs[i]| < 128 + most + |pad|
    ensures forall i :: 0 <= i < |cs| - 1 ==> 128 <= |cs[i]| < 128 + most
    ensures pad != [] ==> cs != [] && |pad| < |cs[|cs| - 1]| < 16 + |pad|
    decreases |ws|
  {
    hide FileFrom, PutAll, Flat;
    if ws == [] {
      cs, pad := LastChunk(enc, b);
    } else {
      FileStep(enc, b, ws);
      if |b + ws[0]| >= CHUNK {
        var more;
        more, pad := ChunksOfRun(enc, [], ws[1..], most);
        cs := [b + ws[0]] + more;
        FirstOf(enc, b + ws[0], more);
      } else {
        cs, pad := ChunksOfRun(enc, b + ws[0], ws[1..], most);
      }
      FlatFirst(b, ws, pad);
    }
  }

  lemma FileStep(enc: Code, b: seq<byte>, ws: seq<seq<byte>>)
    requires ws != []
    ensures FileFrom(enc, b, ws) ==
            if |b + ws[0]| >= CHUNK then PutBytes(enc(b + ws[0])) + FileFrom(enc, [], ws[1..])
            else FileFrom(enc, b + ws[0], ws[1..])
  {
  }

  lemma FirstOf(enc: Code, c: seq<byte>, more: seq<seq<byte>>)
    ensures PutAll(enc, [c] + more) == PutBytes(enc(c)) + PutAll(enc, more) && Flat([c] + more) == c + Flat(more)
  {
    hide PutBytes;
    assert ([c] + more)[1..] == more;
  }

  lemma LastChunk(enc: Code, b: seq<byte>) returns (cs: seq<seq<byte>>, pad: seq<byte>)
    requires |b| < 128
    ensures FileFrom(enc, b, []) == PutAll(enc, cs) && Flat(cs) == b + Flat([]) + pad
    ensures b == [] ==> cs == [] && pad == []
    ensures b != [] ==> |cs| == 1 && 16 <= |cs[0]| == |b| + |pad| && (pad != [] ==> |b| < 16)
  {
    hide PutBytes;
    if b == [] {
      cs, pad := [], [];
    } else {
      cs := [Padded(b)];
      pad := Padded(b)[|b|..];
      assert Flat(cs) == Padded(b) + [] == b + [] + pad;
    }
  }

  lemma FlatFirst(b: seq<byte>, ws: seq<seq<byte>>, pad: seq<byte>)
    requires ws != []
    ensures b + ws[0] + ([] + Flat(ws[1..]) + pad) == b + Flat(ws) + pad
    ensures b + ws[0] + Flat(ws[1..]) + pad == b + Flat(ws) + pad
  {
    Grouped(b, ws[0], Flat(ws[1..]), pad);
  }

  lemma Grouped(a: seq<byte>, b: seq<byte>, c: seq<byte>, d: seq<byte>)
    ensures a + b + ([] + c + d) == a + (b + c) + d
    ensures a + b + c + d == a + (b + c) + d
  {
    assert [] + c + d == c + d;
  }

  /** Between two chunks: everything read is used up, and the file goes on with a fresh buffer. */
  ghost predicate AtBoundary(enc: Code, r: Reader, ws: seq<seq<byte>>) {
    Unread(r) == 0 && r.rest == FileFrom(enc, [], ws)
  }

  /** Inside a chunk that the writer began with `b`. */
  ghost predicate Inside(enc: Code, r: Reader, b: seq<byte>, ws: seq<seq<byte>>) {
    && r.pos <= |r.buffer| && |b| < CHUNK
    && r.buffer[r.pos..] == ChunkRest(b, ws)
    && r.rest == FileAfter(enc, b, ws)
  }

  /** A read inside a chunk is served from it, and ends at its boundary or still inside. */
  lemma InsideStep(enc: Code, dec: Code, r: Reader, b: seq<byte>, ws: seq<seq<byte>>)
    requires Inside(enc, r, b, ws) && ws != []
    ensures var n := |ws[0]|; var d := ReadStep(dec, r, n);
      && n <= Unread(r) && d.inside && d.result == n && d.data == ws[0]
      && if |b + ws[0]| >= CHUNK then AtBoundary(enc, d.reader, ws[1..]) else Inside(enc, d.reader, b + ws[0], ws[1..])
  {
    hide Refilled, FileFrom, FileAfter, ChunkRest;
    var n := |ws[0]|;
    RestSplits(enc, b, ws);
    assert r.buffer[r.pos..][..n] == r.buffer[r.pos..r.pos + n];
    assert r.buffer[r.pos..][n..] == r.buffer[r.pos + n..];
  }

  lemma RestSplits(enc: Code, b: seq<byte>, ws: seq<seq<byte>>)
    requires ws != []
    ensures var c := ChunkRest(b, ws); var n := |ws[0]|; var last := |b + ws[0]| >= CHUNK;
      && n <= |c| && c[..n] == ws[0]
      && (last ==> |c| == n && FileAfter(enc, b, ws) == FileFrom(enc, [], ws[1..]))
      && (!last ==> c[n..] == ChunkRest(b + ws[0], ws[1..]) && FileAfter(enc, b, ws) == FileAfter(enc, b + ws[0], ws[1..]))
  {
  }

  lemma {:induction false} InsideDelivers(enc: Code, dec: Code, r: Reader, b: seq<byte>, ws: seq<seq<byte>>)
    requires Inside(enc, r, b, ws) && Inverse(enc, dec, Total(ws))
    ensures Delivers(dec, r, ws)
    decreases |ws|, 0
  {
    hide ReadStep, Inside, AtBoundary, Unread;
    if ws == [] {
    } else {
      InsideStep(enc, dec, r, b, ws);
      var d := ReadStep(dec, r, |ws[0]|);
      if |b + ws[0]| >= CHUNK {
        BoundaryDelivers(enc, dec, d.reader, ws[1..]);
      } else {
        InsideDelivers(enc, dec, d.reader, b + ws[0], ws[1..]);
      }
    }
  }

  lemma BoundaryRefills(enc: Code, dec: Code, r: Reader, ws: seq<seq<byte>>)
    requires AtBoundary(enc, r, ws) && Inverse(enc, dec, Total(ws))
    requires ws != [] && ws[0] != []
    ensures Inside(enc, Refilled(dec, r), [], ws)
    ensures Unread(Refilled(dec, r)) >= |ws[0]|
  {
    hide PutBytes, GetBytes, FileFrom, FileAfter;
    FirstChunk(enc, [], ws);
    ChunkFits([], ws);
    var c := ChunkRest([], ws);
    assert [] + c == c;
    BytesRoundTrip(enc(c), FileAfter(enc, [], ws));
  }

  /** At a boundary a read that asks for something first gets the next chunk. */
  lemma RefillFirst(dec: Code, r: Reader, n: nat)
    requires Unread(r) == 0 && n > 0 && Unread(Refilled(dec, r)) >= n
    ensures ReadStep(dec, r, n) == ReadStep(dec, Refilled(dec, r), n)
  {
    hide GetBytes;
  }

  /** Writing nothing changes nothing. */
  lemma EmptyFirst(enc: Code, ws: seq<seq<byte>>)
    requires ws != [] && ws[0] == []
    ensures FileFrom(enc, [], ws) == FileFrom(enc, [], ws[1..]) && Total(ws) == Total(ws[1..])
  {
    assert [] + ws[0] == [];
  }

  lemma {:induction false} BoundaryDelivers(enc: Code, dec: Code, r: Reader, ws: seq<seq<byte>>)
    requires AtBoundary(enc, r, ws) && Inverse(enc, dec, Total(ws))
    ensures Delivers(dec, r, ws)
    decreases |ws|, 1
  {
    hide Refilled, FileFrom, Inside, PutBytes;
    if ws == [] {
    } else {
      if ws[0] == [] {
        EmptyFirst(enc, ws);
        BoundaryDelivers(enc, dec, r, ws[1..]);
      } else {
        hide ReadStep, AtBoundary;
        BoundaryRefills(enc, dec, r, ws);
        InsideDelivers(enc, dec, Refilled(dec, r), [], ws);
        RefillFirst(dec, r, |ws[0]|);
      }
    }
  }

  /**
   Reads of the same sizes as the writes give back exactly what was written, never from past a
   chunk and never throwing away unread bytes, for any cipher with an inverse, whatever the
   sizes and in spite of the padding of the last chunk.
   */
  lemma Replay(enc: Code, dec: Code, ws: seq<seq<byte>>)
    requires Inverse(enc, dec, Total(ws))
    ensures Delivers(dec, Reader([], 0, CloseStep(enc, WriteAll(enc, Writer([], []), ws)).file), ws)
  {
    WriterLeaves(enc, Writer([], []), ws);
    BoundaryDelivers(enc, dec, Reader([], 0, FileFrom(enc, [], ws)), ws);
    assert [] + FileFrom(enc, [], ws) == FileFrom(enc, [], ws);
  }

  // ----- When the sizes do not line up -----

  /**
   A read that even a new chunk has not enough for returns all of the chunk, and less than it was
   asked for; any read after it, even of nothing, fetches another chunk.
   */
  lemma ShortRead(enc: Code, dec: Code, r: Reader, chunk: seq<byte>, n: nat, next: nat, tail: seq<byte>)
    requires Inverse(enc, dec, |chunk|) && n > |chunk| && Unread(r) < n
    requires r.rest == PutBytes(enc(chunk)) + tail
    ensures var d := ReadStep(dec, r, n);
      && d.result == |chunk| && d.data == chunk && !d.inside
      && ReadStep(dec, d.reader, next) == ReadStep(dec, Reader([], 1, tail), next)
  {
    hide PutBytes, GetBytes;
    BytesRoundTrip(enc(chunk), tail);
  }

  /** Everything a reader has not delivered yet, for a file of these chunks. */
  function Pending(r: Reader, chunks: seq<seq<byte>>): int {
    Unread(r) + TotalOf(chunks)
  }

  function TotalOf(chunks: seq<seq<byte>>): nat {
    if chunks == [] then 0 else |chunks[0]| + TotalOf(chunks[1..])
  }

  /**
   A read that the next chunk could satisfy takes exactly `n` bytes off what is pending just
   when it does not cross the end of the current chunk; otherwise the bytes before the end of
   the chunk are skipped.
   */
  lemma ReadConservesBytes(enc: Code, dec: Code, r: Reader, chunks: seq<seq<byte>>, n: nat, tail: seq<byte>)
    requires chunks != [] && n <= |chunks[0]| && Inverse(enc, dec, |chunks[0]|)
    requires r.rest == PutBytes(enc(chunks[0])) + tail && r.pos <= |r.buffer|
    ensures var d := ReadStep(dec, r, n); var left := if Unread(r) < n then chunks[1..] else chunks;
      && d.inside
      && (Pending(d.reader, left) == Pending(r, chunks) - n <==> n <= Unread(r) || Unread(r) == 0)
      && (n > Unread(r) ==> Pending(d.reader, left) == Pending(r, chunks) - n - Unread(r))
  {
    hide PutBytes, GetBytes;
    BytesRoundTrip(enc(chunks[0]), tail);
  }
}
