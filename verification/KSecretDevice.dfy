/**
 The device between a stream and a ksecret file. Writing a chunk calls `writeData` again from
 inside, and reading one calls `readData` again; a flag sends the inner calls to the base
 device.
 */
module KSecretDevice {
  import opened Bytes
  import opened QtStream
  import opened ChunkStream

  /** A read of the base device: how many bytes, which, and what is left. */
  function Raw(s: seq<byte>, maxSize: nat): (int, seq<byte>, seq<byte>) {
    if |s| < maxSize then (|s|, s, []) else (maxSize, s[..maxSize], s[maxSize..])
  }

  /** What a write to the base device returns, by how many bytes are there already and how many come. */
  type Base = (nat, nat) -> int

  /** A write fails with -1, or takes as many bytes as it returns. */
  function Took(base: Base, at: nat, n: nat): (r: int)
    ensures -1 <= r <= n
    ensures base(at, n) < 0 <==> r == -1
    ensures 0 <= base(at, n) <= n ==> r == base(at, n)
  {
    var r := base(at, n);
    if r < 0 then -1 else if r < n then r else n
  }

  function Appended(base: Base, file: seq<byte>, data: seq<byte>): seq<byte> {
    var n := Took(base, |file|, |data|);
    if n < 0 then file else file + data[..n]
  }

  /** A chunk behind its length; a stream that could not write the length writes nothing more. */
  function ChunkAppended(base: Base, file: seq<byte>, chunk: seq<byte>): seq<byte> {
    var len := PutU32(|chunk|);
    var f := Appended(base, file, len);
    if Took(base, |file|, 4) == 4 then Appended(base, f, chunk) else f
  }

  function WriteOn(enc: Code, base: Base, w: Writer, data: seq<byte>): Writer {
    var b := w.buffer + data;
    if |b| >= CHUNK then Writer([], ChunkAppended(base, w.file, enc(b))) else Writer(b, w.file)
  }

  function CloseOn(enc: Code, base: Base, w: Writer): Writer {
    if w.buffer == [] then w else Writer([], ChunkAppended(base, w.file, enc(Padded(w.buffer))))
  }

  /** The base device takes whatever it is given. */
  ghost predicate TakesAll(base: Base) {
    forall at, n :: base(at, n) == n
  }

  /** On such a device the steps are those that reading undoes. */
  lemma StepsOnSound(enc: Code, base: Base, w: Writer, data: seq<byte>)
    requires TakesAll(base)
    ensures WriteOn(enc, base, w, data) == WriteStep(enc, w, data)
    ensures CloseOn(enc, base, w) == CloseStep(enc, w)
  {
    hide PutU32, Padded;
    ChunkOnSound(base, w.file, enc(w.buffer + data));
    ChunkOnSound(base, w.file, enc(Padded(w.buffer)));
  }

  lemma ChunkOnSound(base: Base, file: seq<byte>, chunk: seq<byte>)
    requires TakesAll(base)
    ensures ChunkAppended(base, file, chunk) == file + PutBytes(chunk)
  {
    hide PutU32;
    var len := PutU32(|chunk|);
    assert len[..4] == len && chunk[..|chunk|] == chunk;
    assert file + len + chunk == file + (len + chunk);
  }

  /**
   The data of a chunk arrives exactly if the base device takes all of it, but the count that
   `writeData` returns does not depend on that, and the buffer is emptied in any case. If its
   length does not arrive whole, nothing of the chunk follows.
   */
  lemma ChunkArrivesIff(enc: Code, base: Base, w: Writer, data: seq<byte>)
    requires |w.buffer + data| >= CHUNK
    ensures var chunk := enc(w.buffer + data); var at := |w.file|;
      && WriteOn(enc, base, w, data).buffer == []
      && (WriteOn(enc, base, w, data).file == w.file + PutBytes(chunk) <==>
          Took(base, at, 4) == 4 && (chunk == [] || Took(base, at + 4, |chunk|) == |chunk|))
      && (Took(base, at, 4) < 4 ==> w.file <= WriteOn(enc, base, w, data).file && |WriteOn(enc, base, w, data).file| < at + 4)
  {
    hide PutU32;
    var chunk := enc(w.buffer + data);
    var len := PutU32(|chunk|);
    assert len[..4] == len && chunk[..|chunk|] == chunk;
    assert w.file + len + chunk == w.file + (len + chunk);
  }

  class Device {
    /** The encryption filter. */
    const encryptData: Code
    const decryptData: Code
    const base: Base

    /** The base device: what was written to it, and what is left to read from it. */
    var written: seq<byte>
    var unread: seq<byte>

    var buffer: seq<byte>
    var bufferPos: nat
    var closing: bool
    var encrypting: bool
    var writingChunk: bool
    var readingChunk: bool

    constructor (enc: Code, dec: Code, b: Base, file: seq<byte>)
      ensures encryptData == enc && decryptData == dec && base == b
      ensures written == [] && unread == file && buffer == [] && bufferPos == 0
      ensures !closing && !encrypting && !writingChunk && !readingChunk
    {
      encryptData, decryptData, base := enc, dec, b;
      written, unread := [], file;
      buffer, bufferPos := [], 0;
      closing, encrypting, writingChunk, readingChunk := false, false, false, false;
    }

    method StartEncrypting()
      modifies `encrypting
      ensures encrypting
    {
      encrypting := true;
    }

    function WriterState(): Writer
      reads this
    {
      Writer(buffer, written)
    }

    function ReaderState(): Reader
      reads this
    {
      Reader(buffer, bufferPos, unread)
    }

    /**
     Collects data until there is enough for a chunk. The count returned is that of the data,
     not of the chunk, whether or not the chunk could be written; before encryption starts,
     inside a chunk and after closing the data goes straight through.
     */
    method WriteData(data: seq<byte>) returns (result: int)
      modifies `buffer, `written, `writingChunk
      ensures writingChunk == old(writingChunk)
      ensures var buffered := !old(writingChunk) && encrypting && !closing;
        && result == (if buffered then |data| else Took(base, |old(written)|, |data|))
        && WriterState() == if buffered then WriteOn(encryptData, base, old(WriterState()), data)
                            else Writer(old(buffer), Appended(base, old(written), data))
      decreases !writingChunk, 0
    {
      hide ChunkAppended;
      if !writingChunk && encrypting && !closing {
        buffer := buffer + data;
        if |buffer| >= CHUNK {
          var chunk := encryptData(buffer);
          buffer := [];
          writingChunk := true;
          PutChunk(chunk);
          writingChunk := false;
        }
        result := |data|;
      } else {
        result := Took(base, |written|, |data|);
        if result >= 0 {
          written := written + data[..result];
        }
      }
    }

    /** `stream << chunk` on this device: the length and the bytes, by two inner calls. */
    method PutChunk(chunk: seq<byte>)
      requires writingChunk || closing
      modifies `buffer, `written, `writingChunk
      ensures written == ChunkAppended(base, old(written), chunk) && buffer == old(buffer) && writingChunk == old(writingChunk)
      decreases !writingChunk, 1
    {
      hide PutU32;
      var n := WriteData(PutU32(|chunk|));
      if n != 4 {
        return;
      }
      n := WriteData(chunk);
    }

    /** Writes what is still waiting, padded if it is too little for the cipher. */
    method Close()
      requires !closing && !writingChunk
      modifies `buffer, `written, `writingChunk, `closing
      ensures WriterState() == CloseOn(encryptData, base, old(WriterState()))
      ensures closing == (old(buffer) != [])
    {
      hide ChunkAppended;
      if buffer != [] {
        if |buffer| < SMALLEST_BLOCK {
          buffer := buffer + PADDING;
        }
        var chunk := encryptData(buffer);
        buffer := [];
        closing := true;
        PutChunk(chunk);
      }
    }

    /** Fetches and decrypts the next chunk. */
    method Refill()
      requires !readingChunk
      modifies `buffer, `bufferPos, `unread, `readingChunk
      ensures !readingChunk && bufferPos == 0
      ensures ReaderState() == Refilled(decryptData, old(ReaderState()))
      decreases !readingChunk, 1
    {
      hide GetBytes;
      readingChunk := true;
      var chunk := GetChunk();
      readingChunk := false;
      buffer := decryptData(chunk);
      bufferPos := 0;
    }

    /**
     Serves a read from the current chunk, after fetching the next one if the current one has
     not enough left. `inside` tells whether the copy stayed within the chunk.
     */
    method ReadData(maxSize: nat) returns (result: int, data: seq<byte>, inside: bool)
      modifies `buffer, `bufferPos, `unread, `readingChunk
      ensures readingChunk == old(readingChunk)
      ensures !old(readingChunk) && encrypting ==>
        Delivery(ReaderState(), result, data, inside) == ReadStep(decryptData, old(ReaderState()), maxSize)
      ensures !(!old(readingChunk) && encrypting) ==>
        && Raw(old(unread), maxSize) == (result, data, unread) && inside
        && buffer == old(buffer) && bufferPos == old(bufferPos)
      decreases !readingChunk, 2
    {
      hide Refilled;
      if !readingChunk && encrypting {
        if |buffer| - bufferPos < maxSize {
          Refill();
        }
        result, data, inside := Serve(maxSize);
      } else {
        result, data, inside := Raw(unread, maxSize).0, Raw(unread, maxSize).1, true;
        unread := Raw(unread, maxSize).2;
      }
    }

    /** Copies from the current chunk, and moves on by all that was asked for. */
    method Serve(maxSize: nat) returns (result: int, data: seq<byte>, inside: bool)
      requires bufferPos <= |buffer|
      modifies `bufferPos
      ensures bufferPos == old(bufferPos) + maxSize
      ensures var left := |buffer| - old(bufferPos);
              && inside == (maxSize <= left) && result == (if left < maxSize then left else maxSize)
              && data == if left < maxSize then buffer[old(bufferPos)..] else buffer[old(bufferPos)..old(bufferPos) + maxSize]
    {
      var left := |buffer| - bufferPos;
      if left < maxSize {
        result, data, inside := left, buffer[bufferPos..], false;
      } else {
        result, data, inside := maxSize, buffer[bufferPos..bufferPos + maxSize], true;
      }
      bufferPos := bufferPos + maxSize;
    }

    /** `stream >> chunk` on this device: the length and the bytes, by two inner calls. */
    method GetChunk() returns (chunk: seq<byte>)
      requires readingChunk
      modifies `buffer, `bufferPos, `unread, `readingChunk
      ensures Read(chunk, unread) == GetBytes(old(unread))
      ensures buffer == old(buffer) && bufferPos == old(bufferPos) && readingChunk == old(readingChunk)
      decreases !readingChunk, 3
    {
      var n, head, ok := ReadData(4);
      if n < 4 {
        return [];
      }
      var len := FromBe32(head);
      if len == NULL_MARK {
        return [];
      }
      n, chunk, ok := ReadData(len);
      if n < len {
        return [];
      }
    }
  }

  /**
   A device that writes pieces and closes, on a base device that takes all, and a second one that
   reads pieces of the same sizes: every read returns the piece that was written.
   */
  method WriteThenRead(enc: Code, dec: Code, base: Base, ws: seq<seq<byte>>) returns (rs: seq<seq<byte>>, intact: bool)
    requires Inverse(enc, dec, Total(ws)) && TakesAll(base)
    ensures rs == ws && intact
  {
    hide Inverse, WriteStep, ReadStep, CloseStep, WriteOn, CloseOn, TakesAll;
    var w := new Device(enc, dec, base, []);
    w.StartEncrypting();
    for i := 0 to |ws|
      invariant w.encrypting && !w.closing && !w.writingChunk
      invariant WriteAll(enc, w.WriterState(), ws[i..]) == WriteAll(enc, Writer([], []), ws)
    {
      StepsOnSound(enc, base, w.WriterState(), ws[i]);
      var n := w.WriteData(ws[i]);
      assert ws[i..][1..] == ws[i + 1..];
    }
    StepsOnSound(enc, base, w.WriterState(), []);
    w.Close();
    Replay(enc, dec, ws);
    var r := new Device(enc, dec, base, w.written);
    r.StartEncrypting();
    rs, intact := [], true;
    for i := 0 to |ws|
      invariant r.encrypting && !r.readingChunk
      invariant rs == ws[..i] && intact
      invariant Delivers(dec, r.ReaderState(), ws[i..])
    {
      assert ws[i..][0] == ws[i] && ws[i..][1..] == ws[i + 1..];
      var n, data, inside := r.ReadData(|ws[i]|);
      rs, intact := rs + [data], intact && inside && n == |ws[i]|;
    }
  }
}
