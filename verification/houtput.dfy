/**
  The sequential writer. Its cursor is the chunk index (-1 before the first
  write), the position inside the chunk, the chunk's start offset and the
  chunk's length; chunks are allocated lazily, one BUFFER_SIZE chunk at a
  time, when the cursor steps onto the index one past the last chunk. The
  running CRC-32 register is part of the writer. The owning directory's byte
  counter is threaded through every step that may allocate.
 */
module OutputStream {
  import opened Bytes
  import opened ChunkedFile
  import Crc32

  datatype Writer = Writer(
    name: string,
    file: HFile,
    currentBufferIndex: int,
    bufferPosition: int,
    bufferStart: int,
    bufferLength: int,
    crc: bv32)

  /** A writer together with the directory counter after a step. */
  datatype Step = Step(writer: Writer, counter: int)

  /** The writer's file after `flush`, with the shared map it published to. */
  datatype Flushed = Flushed(writer: Writer, files: map<string, HFile>)

  /** The states a writer can reach: full chunks accounted in sizeInBytes,
      a length within the allocated bytes, and a cursor that is either
      untouched or inside an existing chunk. */
  predicate Valid(w: Writer)
  {
    var bufs := w.file.buffers;
    && AllFull(bufs)
    && w.file.sizeInBytes == BUFFER_SIZE * |bufs|
    && w.file.length <= BUFFER_SIZE * |bufs|
    && -1 <= w.currentBufferIndex < |bufs|
    && (w.currentBufferIndex == -1 ==>
          w.bufferPosition == 0 && w.bufferStart == 0 && w.bufferLength == 0)
    && (w.currentBufferIndex >= 0 ==>
          && w.bufferStart == BUFFER_SIZE * w.currentBufferIndex
          && w.bufferLength == BUFFER_SIZE
          && 0 <= w.bufferPosition <= BUFFER_SIZE)
  }

  /** `getFilePointer`: 0 before the first chunk is touched. */
  function FilePointer(w: Writer): int
  {
    if w.currentBufferIndex < 0 then 0 else w.bufferStart + w.bufferPosition
  }

  /** The bytes the writer's chunks hold, in order. */
  function Content(w: Writer): seq<Byte>
  {
    Flatten(w.file.buffers)
  }

  /** A writer on a fresh file: nothing written, no chunk selected. */
  function NewWriter(name: string, file: HFile): (w: Writer)
    ensures w.currentBufferIndex == -1 && FilePointer(w) == 0
    ensures w.file == file && w.name == name
    ensures Checksum(w) == Crc32.Checksum([])
    ensures file == NewFile(file.attached) ==> Valid(w)
  {
    Writer(name, file, -1, 0, 0, 0, Crc32.INIT)
  }

  lemma PointerWithinCapacity(w: Writer)
    requires Valid(w)
    ensures 0 <= FilePointer(w) <= |Content(w)|
    ensures |Content(w)| == BUFFER_SIZE * |w.file.buffers|
  {
    FlattenLength(w.file.buffers);
  }

  /** `switchCurrentBuffer`: selects chunk currentBufferIndex, allocating it
      when the index equals the chunk count. */
  function SwitchCurrentBuffer(w: Writer, counter: int): (r: Step)
    requires AllFull(w.file.buffers)
    requires 0 <= w.currentBufferIndex <= |w.file.buffers|
    ensures AllFull(r.writer.file.buffers)
    ensures r.writer.bufferPosition == 0 && r.writer.bufferLength == BUFFER_SIZE
    ensures r.writer.bufferStart == BUFFER_SIZE * w.currentBufferIndex
    ensures w.currentBufferIndex < |w.file.buffers| ==> r == Step(r.writer, counter) && r.writer.file == w.file
    ensures w.currentBufferIndex == |w.file.buffers| ==>
              && r.writer.file.buffers == w.file.buffers + [Zeros(BUFFER_SIZE)]
              && r.writer.file.sizeInBytes == w.file.sizeInBytes + BUFFER_SIZE
              && r.counter == (if w.file.attached then counter + BUFFER_SIZE else counter)
    ensures r.writer.file.length == w.file.length && r.writer.file.attached == w.file.attached
    ensures r.writer.name == w.name && r.writer.crc == w.crc
    ensures r.writer.currentBufferIndex == w.currentBufferIndex
  {
    var idx := w.currentBufferIndex;
    if idx == |w.file.buffers| then
      var a := AddBuffer(w.file, BUFFER_SIZE, counter);
      assert a.file.buffers == w.file.buffers + [Zeros(BUFFER_SIZE)];
      Step(w.(file := a.file, bufferPosition := 0, bufferStart := BUFFER_SIZE * idx,
              bufferLength := BUFFER_SIZE), a.counter)
    else
      Step(w.(bufferPosition := 0, bufferStart := BUFFER_SIZE * idx,
              bufferLength := |w.file.buffers[idx]|), counter)
  }

  /** The cursor move at the head of `writeByte` and of every round of
      `writeBytes`: when the current chunk is full, step to the next index
      and switch to it. */
  function Advance(w: Writer, counter: int): (r: Step)
    requires Valid(w)
    ensures AllFull(r.writer.file.buffers)
    ensures 0 <= r.writer.currentBufferIndex < |r.writer.file.buffers|
    ensures 0 <= r.writer.bufferPosition < BUFFER_SIZE == r.writer.bufferLength
    ensures r.writer.bufferStart == BUFFER_SIZE * r.writer.currentBufferIndex
    ensures FilePointer(r.writer) == FilePointer(w)
    ensures r.writer.crc == w.crc && r.writer.name == w.name
    ensures r.writer.file.length == w.file.length && r.writer.file.attached == w.file.attached
    ensures w.bufferPosition != w.bufferLength ==> r == Step(w, counter)
  {
    if w.bufferPosition == w.bufferLength
    then SwitchCurrentBuffer(w.(currentBufferIndex := w.currentBufferIndex + 1), counter)
    else Step(w, counter)
  }

  /** `writeByte`: moves to the next chunk when the current one is full,
      stores the byte and feeds it to the checksum. */
  function WriteByte(w: Writer, b: Byte, counter: int): (r: Step)
    requires Valid(w)
    ensures Valid(r.writer)
    ensures FilePointer(r.writer) == FilePointer(w) + 1
    ensures r.writer.crc == Crc32.UpdateByte(w.crc, b)
    ensures r.writer.name == w.name && r.writer.file.length == w.file.length
    ensures r.writer.file.attached == w.file.attached
  {
    var s := Advance(w, counter);
    var v := s.writer;
    var bufs := v.file.buffers;
    var idx := v.currentBufferIndex;
    var nbuf: seq<Byte> := bufs[idx][v.bufferPosition := b];
    Step(v.(file := v.file.(buffers := bufs[idx := nbuf]),
            bufferPosition := v.bufferPosition + 1,
            crc := Crc32.UpdateByte(v.crc, b)),
         s.counter)
  }

  /** The block copy of one round of `writeBytes`: the chunk lands in the
      current buffer at the cursor, and the cursor moves past it. */
  function Fill(v: Writer, chunk: seq<Byte>): Writer
    requires 0 <= v.currentBufferIndex < |v.file.buffers|
    requires 0 <= v.bufferPosition
    requires v.bufferPosition + |chunk| <= |v.file.buffers[v.currentBufferIndex]|
  {
    var idx := v.currentBufferIndex;
    var pos := v.bufferPosition;
    var buf := v.file.buffers[idx];
    var nbuf: seq<Byte> := buf[..pos] + chunk + buf[pos + |chunk|..];
    v.(file := v.file.(buffers := v.file.buffers[idx := nbuf]), bufferPosition := pos + |chunk|)
  }

  /** writeByte is the cursor move followed by a one-byte block copy. */
  lemma WriteByteAsFill(w: Writer, b: Byte, counter: int)
    requires Valid(w)
    ensures var a := Advance(w, counter);
            WriteByte(w, b, counter) == Step(Fill(a.writer, [b]).(crc := Crc32.UpdateByte(w.crc, b)), a.counter)
  {
    var a := Advance(w, counter);
    var v := a.writer;
    var buf := v.file.buffers[v.currentBufferIndex];
    var pos := v.bufferPosition;
    assert buf[pos := b] == buf[..pos] + [b] + buf[pos + 1..];
  }

  /** Two block copies in a row are one block copy of both parts. */
  lemma FillAppend(v: Writer, ch: seq<Byte>, x: Byte)
    requires 0 <= v.currentBufferIndex < |v.file.buffers|
    requires 0 <= v.bufferPosition
    requires v.bufferPosition + |ch| + 1 <= |v.file.buffers[v.currentBufferIndex]|
    ensures Fill(Fill(v, ch), [x]) == Fill(v, ch + [x])
  {
    var idx := v.currentBufferIndex;
    var pos := v.bufferPosition;
    var buf := v.file.buffers[idx];
    var tb := buf[..pos] + ch + buf[pos + |ch|..];
    assert tb[..pos + |ch|] + [x] + tb[pos + |ch| + 1..] == buf[..pos] + (ch + [x]) + buf[pos + |ch| + 1..];
  }

  /** Where a byte written at pointer P goes: onto flat position P of the
      chunks, or, when the chunks are full, into a new zero-filled chunk. */
  lemma WriteByteContent(w: Writer, b: Byte, counter: int)
    requires Valid(w)
    ensures var r := WriteByte(w, b, counter);
            var F := Content(w);
            var P := FilePointer(w);
            && P <= |F|
            && (P < |F| ==>
                  && Content(r.writer) == F[P := b]
                  && |r.writer.file.buffers| == |w.file.buffers|
                  && r.counter == counter)
            && (P == |F| ==>
                  && Content(r.writer) == F + [b] + Zeros(BUFFER_SIZE - 1)
                  && |r.writer.file.buffers| == |w.file.buffers| + 1
                  && r.counter == (if w.file.attached then counter + BUFFER_SIZE else counter))
  {
    var r := WriteByte(w, b, counter);
    var F := Content(w);
    var P := FilePointer(w);
    var bufs := w.file.buffers;
    PointerWithinCapacity(w);
    var s := Advance(w, counter);
    var v := s.writer;
    var idx := v.currentBufferIndex;
    var pos := v.bufferPosition;
    var vb := v.file.buffers;
    assert P == BUFFER_SIZE * idx + pos;
    var nbuf: seq<Byte> := vb[idx][pos := b];
    var nb := vb[idx := nbuf];
    assert r.writer.file.buffers == nb;
    if idx < |bufs| {
      assert vb == bufs;
      FlattenUpdate(bufs, idx, nbuf);
      FlattenUpdate(bufs, idx, bufs[idx]);
      assert bufs[idx := bufs[idx]] == bufs;
      UpdateMiddle(F[..BUFFER_SIZE * idx], bufs[idx], F[BUFFER_SIZE * (idx + 1)..], pos, b);
      assert Flatten(nb) == F[P := b];
    } else {
      assert vb == bufs + [Zeros(BUFFER_SIZE)];
      assert P == |F|;
      FlattenAppend(bufs, nbuf);
      assert nb == bufs + [nbuf];
      assert nbuf == [b] + Zeros(BUFFER_SIZE - 1);
    }
  }

  /** `len` successive writeByte calls, the reference for writeBytes. */
  function WriteAll(w: Writer, bs: seq<Byte>, counter: int): (r: Step)
    requires Valid(w)
    ensures Valid(r.writer)
    ensures FilePointer(r.writer) == FilePointer(w) + |bs|
    ensures r.writer.file.attached == w.file.attached
    decreases |bs|
  {
    if |bs| == 0 then Step(w, counter)
    else
      var s := WriteAll(w, bs[..|bs| - 1], counter);
      WriteByte(s.writer, bs[|bs| - 1], s.counter)
  }

  /** Writing x and then y is writing x + y. */
  lemma {:induction false} WriteAllAppend(w: Writer, x: seq<Byte>, y: seq<Byte>, counter: int)
    requires Valid(w)
    ensures var s := WriteAll(w, x, counter);
            WriteAll(w, x + y, counter) == WriteAll(s.writer, y, s.counter)
    decreases |y|
  {
    if |y| == 0 {
      assert x + y == x;
    } else {
      var s := WriteAll(w, x, counter);
      assert (x + y)[..|x + y| - 1] == x + y[..|y| - 1];
      assert (x + y)[|x + y| - 1] == y[|y| - 1];
      WriteAllAppend(w, x, y[..|y| - 1], counter);
    }
  }

  /** The flat content after writing bs at pointer P over content F: bs
      replaces F from P on, and whatever runs past the last chunk is followed
      by zero padding up to the next chunk boundary. */
  function Overwrite(F: seq<Byte>, P: nat, bs: seq<Byte>): seq<Byte>
    requires P <= |F|
  {
    if P + |bs| <= |F| then F[..P] + bs + F[P + |bs|..]
    else F[..P] + bs + Zeros(Padding(P + |bs|))
  }

  lemma PaddingStep(e: nat)
    ensures Padding(e) > 0 ==> Padding(e + 1) == Padding(e) - 1
    ensures Padding(e) == 0 ==> Padding(e + 1) == BUFFER_SIZE - 1
  {
    var k := ChunksFor(e);
    var k' := ChunksFor(e + 1);
    if Padding(e) > 0 {
      assert BUFFER_SIZE * k >= e + 1;
      assert k' == k;
    } else {
      assert BUFFER_SIZE * k == e;
      assert k' == k + 1;
    }
  }

  function Max(a: int, b: int): int
  {
    if a >= b then a else b
  }

  lemma OverwriteLength(F: seq<Byte>, m: nat, P: nat, bs: seq<Byte>)
    requires P <= |F| && |F| == BUFFER_SIZE * m
    ensures |Overwrite(F, P, bs)| == Max(|F|, BUFFER_SIZE * ChunksFor(P + |bs|))
  {
    var e := P + |bs|;
    var k := ChunksFor(e);
    if e <= |F| {
      assert k <= m;
    }
  }

  /** One more byte written at the end of an overwrite extends it. */
  lemma OverwriteStep(F: seq<Byte>, m: nat, P: nat, bs: seq<Byte>, x: Byte)
    requires P <= |F| && |F| == BUFFER_SIZE * m
    ensures var G := Overwrite(F, P, bs);
            var E := P + |bs|;
            && E <= |G|
            && (E < |G| ==> G[E := x] == Overwrite(F, P, bs + [x]))
            && (E == |G| ==> G + [x] + Zeros(BUFFER_SIZE - 1) == Overwrite(F, P, bs + [x]))
  {
    var G := Overwrite(F, P, bs);
    var E := P + |bs|;
    PaddingStep(E);
    if E + 1 <= |F| {
      assert G[E := x] == F[..P] + (bs + [x]) + F[E + 1..];
    } else if E == |F| {
      assert ChunksFor(E) == m;
      assert G == F[..P] + bs;
    } else if Padding(E) > 0 {
      assert G[E := x] == F[..P] + (bs + [x]) + Zeros(Padding(E + 1));
    } else {
      assert E == |G|;
    }
  }

  /** The checksum and bookkeeping part of WriteAllEffect. */
  lemma {:induction false} WriteAllMeta(w: Writer, bs: seq<Byte>, counter: int)
    requires Valid(w)
    ensures var r := WriteAll(w, bs, counter);
            && r.writer.crc == Crc32.Fold(w.crc, bs)
            && r.writer.name == w.name && r.writer.file.length == w.file.length
            && r.writer.file.attached == w.file.attached
    decreases |bs|
  {
    if |bs| > 0 {
      var bs0 := bs[..|bs| - 1];
      var x := bs[|bs| - 1];
      assert bs0 + [x] == bs;
      WriteAllMeta(w, bs0, counter);
      WriteAllSnoc(w, bs0, x, counter);
      Crc32.FoldAppend(w.crc, bs0, [x]);
      assert Crc32.Fold(Crc32.UpdateByte(Crc32.Fold(w.crc, bs0), x), []) == Crc32.UpdateByte(Crc32.Fold(w.crc, bs0), x);
    }
  }

  /** The content part of WriteAllEffect. */
  lemma {:induction false} WriteAllContent(w: Writer, bs: seq<Byte>, counter: int)
    requires Valid(w)
    ensures 0 <= FilePointer(w) <= |Content(w)|
    ensures Content(WriteAll(w, bs, counter).writer) == Overwrite(Content(w), FilePointer(w), bs)
    decreases |bs|
  {
    PointerWithinCapacity(w);
    var P := FilePointer(w);
    var F := Content(w);
    if |bs| == 0 {
      assert F[..P] + bs + F[P..] == F;
    } else {
      var bs0 := bs[..|bs| - 1];
      var x := bs[|bs| - 1];
      assert bs0 + [x] == bs;
      WriteAllContent(w, bs0, counter);
      var s := WriteAll(w, bs0, counter);
      WriteAllSnoc(w, bs0, x, counter);
      WriteByteContent(s.writer, x, s.counter);
      var r := WriteByte(s.writer, x, s.counter);
      ContentStep(F, |w.file.buffers|, P, bs0, x, Content(s.writer), FilePointer(s.writer), Content(r.writer));
    }
  }

  /** The sequence-level induction step of WriteAllContent. */
  lemma ContentStep(F: seq<Byte>, m: nat, P: nat, bs: seq<Byte>, x: Byte, G: seq<Byte>, E: int, C: seq<Byte>)
    requires P <= |F| && |F| == BUFFER_SIZE * m
    requires G == Overwrite(F, P, bs) && E == P + |bs| && E <= |G|
    requires E < |G| ==> C == G[E := x]
    requires E == |G| ==> C == G + [x] + Zeros(BUFFER_SIZE - 1)
    ensures C == Overwrite(F, P, bs + [x])
  {
    OverwriteStep(F, m, P, bs, x);
  }

  /** The accounting half of WriteAllEffect: each new chunk is charged once. */
  lemma {:induction false} WriteAllCounter(w: Writer, bs: seq<Byte>, counter: int)
    requires Valid(w)
    ensures var r := WriteAll(w, bs, counter);
            && |r.writer.file.buffers| >= |w.file.buffers|
            && r.counter == counter + (if w.file.attached
                                       then BUFFER_SIZE * (|r.writer.file.buffers| - |w.file.buffers|)
                                       else 0)
    decreases |bs|
  {
    if |bs| > 0 {
      var bs0 := bs[..|bs| - 1];
      var x := bs[|bs| - 1];
      assert bs0 + [x] == bs;
      WriteAllCounter(w, bs0, counter);
      WriteAllMeta(w, bs0, counter);
      var s := WriteAll(w, bs0, counter);
      WriteAllSnoc(w, bs0, x, counter);
      WriteByteContent(s.writer, x, s.counter);
      WriteAllContent(w, bs0, counter);
    }
  }

  /** The effect of writing a whole sequence from any reachable writer: the
      pointer advances by |bs|, the bytes replace the content from the
      pointer on, existing chunks are reused before new ones are allocated,
      every new chunk is charged to an attached file's directory, and the
      checksum register has consumed bs. */
  lemma WriteAllEffect(w: Writer, bs: seq<Byte>, counter: int)
    requires Valid(w)
    ensures var r := WriteAll(w, bs, counter);
            var P := FilePointer(w);
            && 0 <= P <= |Content(w)|
            && FilePointer(r.writer) == P + |bs|
            && Content(r.writer) == Overwrite(Content(w), P, bs)
            && |r.writer.file.buffers| == Max(|w.file.buffers|, ChunksFor(P + |bs|))
            && r.counter == counter + (if w.file.attached
                                       then BUFFER_SIZE * (|r.writer.file.buffers| - |w.file.buffers|)
                                       else 0)
            && r.writer.crc == Crc32.Fold(w.crc, bs)
            && r.writer.name == w.name && r.writer.file.length == w.file.length
            && r.writer.file.attached == w.file.attached
  {
    var r := WriteAll(w, bs, counter);
    WriteAllContent(w, bs, counter);
    WriteAllMeta(w, bs, counter);
    WriteAllCounter(w, bs, counter);
    PointerWithinCapacity(w);
    PointerWithinCapacity(r.writer);
    OverwriteLength(Content(w), |w.file.buffers|, FilePointer(w), bs);
  }

  /** From a fresh writer on a fresh file, n written bytes give pointer n,
      ceil(n / BUFFER_SIZE) chunks holding the bytes followed by zero
      padding, and byte p in chunk p / BUFFER_SIZE at offset p % BUFFER_SIZE. */
  lemma FreshWrite(name: string, attached: bool, bs: seq<Byte>, counter: int)
    ensures var w := NewWriter(name, NewFile(attached));
            var r := WriteAll(w, bs, counter);
            && FilePointer(r.writer) == |bs|
            && |r.writer.file.buffers| == ChunksFor(|bs|)
            && r.writer.file.buffers == Chunk(bs + Zeros(Padding(|bs|)))
            && (forall p :: 0 <= p < |bs| ==>
                  r.writer.file.buffers[p / BUFFER_SIZE][p % BUFFER_SIZE] == bs[p])
            && r.writer.file.length == 0
            && r.counter == counter + (if attached then BUFFER_SIZE * ChunksFor(|bs|) else 0)
  {
    var w := NewWriter(name, NewFile(attached));
    WriteAllEffect(w, bs, counter);
    var r := WriteAll(w, bs, counter);
    FreshOverwrite(bs);
    ChunkLayout(r.writer.file.buffers, bs);
  }

  lemma FreshOverwrite(bs: seq<Byte>)
    ensures Overwrite([], 0, bs) == bs + Zeros(Padding(|bs|))
    ensures Max(0, BUFFER_SIZE * ChunksFor(|bs|)) == BUFFER_SIZE * ChunksFor(|bs|)
  {
    if |bs| == 0 {
      assert Padding(0) == 0;
    }
  }

  /** Full chunks whose flat content is bs followed by its padding are the
      chunking of that content, and hold byte p at chunk p / BUFFER_SIZE,
      offset p % BUFFER_SIZE. */
  lemma ChunkLayout(bufs: seq<seq<Byte>>, bs: seq<Byte>)
    requires AllFull(bufs)
    requires Flatten(bufs) == bs + Zeros(Padding(|bs|))
    ensures |bufs| == ChunksFor(|bs|)
    ensures bufs == Chunk(bs + Zeros(Padding(|bs|)))
    ensures forall p :: 0 <= p < |bs| ==> bufs[p / BUFFER_SIZE][p % BUFFER_SIZE] == bs[p]
  {
    FlattenLength(bufs);
    ChunkFlatten(bufs);
    var k := ChunksFor(|bs|);
    assert BUFFER_SIZE * |bufs| == BUFFER_SIZE * k;
    forall p | 0 <= p < |bs|
      ensures p / BUFFER_SIZE < |bufs| && p % BUFFER_SIZE < |bufs[p / BUFFER_SIZE]|
      ensures bufs[p / BUFFER_SIZE][p % BUFFER_SIZE] == bs[p]
    {
      ChunkIndex(bufs, p);
    }
  }

  lemma ChunkIndex(bufs: seq<seq<Byte>>, p: nat)
    requires AllFull(bufs)
    requires p < |Flatten(bufs)|
    ensures p / BUFFER_SIZE < |bufs| && p % BUFFER_SIZE < |bufs[p / BUFFER_SIZE]|
    ensures bufs[p / BUFFER_SIZE][p % BUFFER_SIZE] == Flatten(bufs)[p]
  {
    FlattenLength(bufs);
    var i := p / BUFFER_SIZE;
    var j := p % BUFFER_SIZE;
    assert p == BUFFER_SIZE * i + j;
    FlattenIndex(bufs, i, j);
  }

  /** `writeBytes`: one checksum update over the span, then chunk-by-chunk
      copies. Same buffers, pointer, counter and checksum as writing the
      bytes one by one. */
  method WriteBytes(w: Writer, b: seq<Byte>, offset: nat, len: nat, counter: int) returns (r: Step)
    requires Valid(w)
    requires offset + len <= |b|
    ensures r == WriteAll(w, b[offset..offset + len], counter)
  {
    var total := Crc32.Fold(w.crc, b[offset..offset + len]);
    var cur, c := CopyLoop(w, b, offset, len, counter, total);
    CopyDone(w, b[offset..offset + len], counter, total, cur, c);
    r := Step(cur, c);
  }

  /** The copy loop of writeBytes, with the checksum register already
      holding `total`: each round moves the cursor, then copies as many of
      the remaining bytes as fit in the current chunk. */
  method CopyLoop(w: Writer, b: seq<Byte>, offset: nat, len: nat, counter: int, total: bv32)
    returns (cur: Writer, c: int)
    requires Valid(w)
    requires offset + len <= |b|
    ensures CopyInvariant(w, b[offset..offset + len], counter, total, cur, c)
  {
    cur := w.(crc := total);
    c := counter;
    var off := offset;
    var n: nat := len;
    ghost var copied: seq<Byte> := [];
    while n > 0
      invariant off + n == offset + len
      invariant offset <= off
      invariant copied == b[offset..off]
      invariant CopyInvariant(w, copied, counter, total, cur, c)
      decreases n
    {
      InvariantValid(w, copied, counter, total, cur, c);
      var a := Advance(cur, c);
      var v := a.writer;
      var remainInBuffer := |v.file.buffers[v.currentBufferIndex]| - v.bufferPosition;
      var bytesToCopy := if n < remainInBuffer then n else remainInBuffer;
      var chunk := b[off..off + bytesToCopy];
      CopyRound(w, copied, chunk, counter, total, cur, c);
      cur := Fill(v, chunk);
      c := a.counter;
      copied := SliceAppend(b, offset, off, off + bytesToCopy, copied);
      off := off + bytesToCopy;
      n := n - bytesToCopy;
    }
  }

  /** Extends the ghost record of the bytes copied so far by one chunk. */
  ghost function SliceAppend(b: seq<Byte>, i: nat, j: nat, k: nat, copied: seq<Byte>): (r: seq<Byte>)
    requires i <= j <= k <= |b| && copied == b[i..j]
    ensures r == copied + b[j..k] && r == b[i..k]
  {
    assert b[i..j] + b[j..k] == b[i..k];
    copied + b[j..k]
  }

  /** The loop invariant of writeBytes: the writer and counter are those of
      writing the bytes copied so far one by one, except that the checksum
      register already holds the total. */
  predicate CopyInvariant(w: Writer, copied: seq<Byte>, counter: int, total: bv32, cur: Writer, c: int)
    requires Valid(w)
  {
    var s := WriteAll(w, copied, counter);
    cur == s.writer.(crc := total) && c == s.counter
  }

  /** The writer of the copy loop is a valid one: only its checksum register
      differs from one reached by single-byte writes. */
  lemma InvariantValid(w: Writer, copied: seq<Byte>, counter: int, total: bv32, cur: Writer, c: int)
    requires Valid(w) && CopyInvariant(w, copied, counter, total, cur, c)
    ensures Valid(cur)
  {
  }

  /** One round of the copy loop keeps the invariant: the cursor move and one
      block copy of the bytes that fit reach the state after those bytes. */
  lemma CopyRound(w: Writer, copied: seq<Byte>, chunk: seq<Byte>, counter: int,
                  total: bv32, cur: Writer, c: int)
    requires Valid(w)
    requires CopyInvariant(w, copied, counter, total, cur, c)
    requires 0 < |chunk|
    requires Valid(cur) ==>
               var a := Advance(cur, c);
               |chunk| <= |a.writer.file.buffers[a.writer.currentBufferIndex]| - a.writer.bufferPosition
    ensures Valid(cur)
    ensures var a := Advance(cur, c);
            CopyInvariant(w, copied + chunk, counter, total, Fill(a.writer, chunk), a.counter)
  {
    var s := WriteAll(w, copied, counter);
    var a0 := Advance(s.writer, s.counter);
    AdvanceIgnoresCrc(s.writer, s.counter, total);
    ChunkStep(s.writer, chunk, s.counter);
    WriteAllAppend(w, copied, chunk, counter);
    FillIgnoresCrc(a0.writer, chunk, total);
    FillIgnoresCrc(a0.writer, chunk, Crc32.Fold(s.writer.crc, chunk));
  }

  /** When every byte is copied, the precomputed checksum is the one the
      byte-by-byte writes reach, so the states agree exactly. */
  lemma CopyDone(w: Writer, bs: seq<Byte>, counter: int, total: bv32, cur: Writer, c: int)
    requires Valid(w)
    requires total == Crc32.Fold(w.crc, bs)
    requires CopyInvariant(w, bs, counter, total, cur, c)
    ensures Step(cur, c) == WriteAll(w, bs, counter)
  {
    WriteAllMeta(w, bs, counter);
  }

  lemma AdvanceIgnoresCrc(w: Writer, counter: int, c: bv32)
    requires Valid(w)
    ensures Valid(w.(crc := c))
    ensures Advance(w.(crc := c), counter) == Step(Advance(w, counter).writer.(crc := c), Advance(w, counter).counter)
  {
  }

  /** The block-copy result of one copy round, with the checksum register
      having consumed the chunk. */
  function BlockWrite(s: Writer, chunk: seq<Byte>, counter: int): Step
    requires Valid(s)
    requires |chunk| <= BUFFER_SIZE - Advance(s, counter).writer.bufferPosition
  {
    var a := Advance(s, counter);
    Step(Fill(a.writer, chunk).(crc := Crc32.Fold(s.crc, chunk)), a.counter)
  }

  /** One round of the copy loop: after the cursor move, a chunk that fits
      into the current buffer is written in one block, exactly as writing
      its bytes one by one would. */
  lemma {:induction false} ChunkStep(s: Writer, chunk: seq<Byte>, counter: int)
    requires Valid(s)
    requires 0 < |chunk| <= BUFFER_SIZE - Advance(s, counter).writer.bufferPosition
    ensures WriteAll(s, chunk, counter) == BlockWrite(s, chunk, counter)
    decreases |chunk|
  {
    if |chunk| == 1 {
      ChunkStepSingle(s, chunk[0], counter);
      assert chunk == [chunk[0]];
    } else {
      var x := chunk[|chunk| - 1];
      var ch := chunk[..|chunk| - 1];
      assert ch + [x] == chunk;
      ChunkStep(s, ch, counter);
      ChunkStepExtend(s, ch, x, counter);
    }
  }

  lemma ChunkStepSingle(s: Writer, x: Byte, counter: int)
    requires Valid(s)
    ensures WriteAll(s, [x], counter) == BlockWrite(s, [x], counter)
  {
    assert [x][..0] == [];
    assert WriteAll(s, [x], counter) == WriteByte(s, x, counter);
    WriteByteAsFill(s, x, counter);
    assert Crc32.Fold(s.crc, [x]) == Crc32.Fold(Crc32.UpdateByte(s.crc, x), []);
  }

  lemma ChunkStepExtend(s: Writer, ch: seq<Byte>, x: Byte, counter: int)
    requires Valid(s)
    requires 0 < |ch| && |ch| + 1 <= BUFFER_SIZE - Advance(s, counter).writer.bufferPosition
    requires WriteAll(s, ch, counter) == BlockWrite(s, ch, counter)
    ensures WriteAll(s, ch + [x], counter) == BlockWrite(s, ch + [x], counter)
  {
    var a := Advance(s, counter);
    var t := WriteAll(s, ch, counter);
    var c1 := Crc32.Fold(s.crc, ch);
    var V := Fill(a.writer, ch);
    assert t.writer == V.(crc := c1) && t.counter == a.counter;
    WriteAllSnoc(s, ch, x, counter);
    WriteByteInPlace(t.writer, x, t.counter);
    FillIgnoresCrc(V, [x], c1);
    FillAppend(a.writer, ch, x);
    Crc32.FoldAppend(s.crc, ch, [x]);
    assert Crc32.Fold(Crc32.UpdateByte(c1, x), []) == Crc32.UpdateByte(c1, x);
  }

  lemma WriteAllSnoc(s: Writer, bs: seq<Byte>, x: Byte, counter: int)
    requires Valid(s)
    ensures var t := WriteAll(s, bs, counter);
            WriteAll(s, bs + [x], counter) == WriteByte(t.writer, x, t.counter)
  {
    assert (bs + [x])[..|bs|] == bs;
  }

  /** A byte written while the current chunk has room is a one-byte block copy. */
  lemma WriteByteInPlace(t: Writer, x: Byte, counter: int)
    requires Valid(t)
    requires t.bufferPosition != t.bufferLength
    ensures WriteByte(t, x, counter) == Step(Fill(t, [x]).(crc := Crc32.UpdateByte(t.crc, x)), counter)
  {
    WriteByteAsFill(t, x, counter);
  }

  lemma FillIgnoresCrc(v: Writer, chunk: seq<Byte>, c: bv32)
    requires 0 <= v.currentBufferIndex < |v.file.buffers|
    requires 0 <= v.bufferPosition
    requires v.bufferPosition + |chunk| <= |v.file.buffers[v.currentBufferIndex]|
    ensures Fill(v.(crc := c), chunk) == Fill(v, chunk).(crc := c)
  {
  }

  /** `reset`: cursor back to the start, file length and checksum cleared,
      chunks kept for reuse. */
  function Reset(w: Writer): (r: Writer)
    requires Valid(w)
    ensures Valid(r)
    ensures FilePointer(r) == 0 && r.file.length == 0
    ensures r.file.buffers == w.file.buffers && r.file.sizeInBytes == w.file.sizeInBytes
    ensures Checksum(r) == Crc32.Checksum([])
  {
    w.(currentBufferIndex := -1, bufferPosition := 0, bufferStart := 0, bufferLength := 0,
       file := SetLength(w.file, 0), crc := Crc32.INIT)
  }

  /** After a reset, writes that fit in the kept chunks allocate nothing and
      overwrite the content from position 0. */
  lemma ResetReusesBuffers(w: Writer, bs: seq<Byte>, counter: int)
    requires Valid(w)
    requires |bs| <= |Content(w)|
    ensures var r := WriteAll(Reset(w), bs, counter);
            && |r.writer.file.buffers| == |w.file.buffers|
            && r.counter == counter
            && Content(r.writer) == bs + Content(w)[|bs|..]
            && FilePointer(r.writer) == |bs|
  {
    var z := Reset(w);
    WriteAllEffect(z, bs, counter);
    PointerWithinCapacity(w);
    assert Content(z) == Content(w);
    assert ChunksFor(|bs|) <= |w.file.buffers|;
    assert Content(w)[..0] + bs == bs;
  }

  /** `setFileLength` / `flush`: raises the file length to the pointer when
      it is larger, then publishes a snapshot of the file under the writer's
      name. Nothing else in the map changes. */
  function Flush(w: Writer, files: map<string, HFile>): (r: Flushed)
    requires Valid(w)
    ensures Valid(r.writer)
    ensures r.writer.file.length == Max(w.file.length, FilePointer(w))
    ensures r.writer.file.length >= w.file.length
    ensures r.writer.file.buffers == w.file.buffers
    ensures r.files.Keys == files.Keys + {w.name}
    ensures r.files[w.name] == Snapshot(r.writer.file)
    ensures forall k :: k in files && k != w.name ==> r.files[k] == files[k]
    ensures FilePointer(r.writer) == FilePointer(w) && r.writer.crc == w.crc
  {
    var pointer := w.bufferStart + w.bufferPosition;
    var f := if pointer > w.file.length then SetLength(w.file, pointer) else w.file;
    var v := w.(file := f);
    Flushed(v, files[w.name := Snapshot(f)])
  }

  /** `close` flushes: the length grows to the pointer, the file's snapshot
      is published under its name, every other entry is untouched, and the
      chunks stay allocated. */
  function Close(w: Writer, files: map<string, HFile>): (r: Flushed)
    requires Valid(w)
    ensures r.writer.file.length == Max(w.file.length, FilePointer(w))
    ensures r.writer.file.buffers == w.file.buffers
    ensures r.files.Keys == files.Keys + {w.name}
    ensures r.files[w.name] == Snapshot(r.writer.file)
    ensures forall k :: k in files && k != w.name ==> r.files[k] == files[k]
  {
    Flush(w, files)
  }

  /** `ramBytesUsed`: chunk count times BUFFER_SIZE. */
  function RamBytesUsed(w: Writer): nat
  {
    |w.file.buffers| * BUFFER_SIZE
  }

  /** The writer's own count agrees with the file's allocated-size counter. */
  lemma RamBytesUsedMatchesFile(w: Writer)
    requires Valid(w)
    ensures RamBytesUsed(w) == ChunkedFile.RamBytesUsed(w.file)
    ensures RamBytesUsed(w) >= w.file.length
  {
  }

  /** `getChecksum`: checksums are always enabled, so it never fails. */
  function Checksum(w: Writer): nat
  {
    Crc32.Value(w.crc)
  }

  /** The checksum is the CRC-32 of every byte written since construction or
      the last reset, whether they came one by one or in spans. */
  lemma ChecksumOfWrites(w: Writer, prior: seq<Byte>, bs: seq<Byte>, counter: int)
    requires Valid(w)
    requires w.crc == Crc32.Fold(Crc32.INIT, prior)
    ensures Checksum(WriteAll(w, bs, counter).writer) == Crc32.Checksum(prior + bs)
  {
    WriteAllEffect(w, bs, counter);
    Crc32.FoldAppend(Crc32.INIT, prior, bs);
  }

  /** Two sessions writing the same bytes, each from a fresh or reset writer,
      report the same checksum. */
  lemma ChecksumDeterministic(w1: Writer, w2: Writer, bs: seq<Byte>, c1: int, c2: int)
    requires Valid(w1) && Valid(w2)
    ensures Checksum(WriteAll(Reset(w1), bs, c1).writer) == Checksum(WriteAll(Reset(w2), bs, c2).writer)
    ensures Checksum(WriteAll(Reset(w1), bs, c1).writer) == Crc32.Checksum(bs)
  {
    ChecksumOfWrites(Reset(w1), [], bs, c1);
    ChecksumOfWrites(Reset(w2), [], bs, c2);
    assert [] + bs == bs;
  }
}
