/**
  The random-access reader over a chunked file, and its slices. The cursor is
  the chunk index (-1 until a chunk is first needed), the position inside the
  chunk, the chunk's start offset and the number of readable bytes in it
  (`length` minus the start, at most BUFFER_SIZE). `current` is the chunk the
  reader holds, None for a null reference; after a seek past the last chunk
  it can be a chunk other than the one the index names.

  The code the reader follows has two places where it can hand out bytes that
  lie at or beyond the length, and a nested slice that can start before its
  parent (see README, Findings). Every operation takes a
  `Variant`: `AsWritten` is the code as it stands, `Corrected` the evidently
  intended behaviour. The properties are proved about `Corrected` on every
  state it reaches (`Valid`), and carried over to `AsWritten` from those
  same states on the reads, seeks and slices that stay below the length,
  where the two agree. The code as written reaches one more kind of state,
  a forced end that keeps a stale readable count; `Reached` collects its
  states, every operation as written keeps to them, and a seek below the
  length leads from any of them back into `Valid`.
 */
module InputStream {
  import opened Bytes
  import opened ChunkedFile

  datatype Variant = AsWritten | Corrected

  /** A reader over the whole file, or a slice starting at `offset`. */
  datatype View = Base | SliceView(offset: nat)

  datatype Reader = Reader(
    file: HFile,
    length: int,
    current: Option<seq<Byte>>,
    currentBufferIndex: int,
    bufferPosition: int,
    bufferStart: int,
    bufferLength: int,
    view: View)

  /** One byte read and the reader after it. */
  datatype ByteRead = ByteRead(value: Byte, reader: Reader)

  /** The destination array after a block read, and the reader after it. */
  datatype BlockRead = BlockRead(dest: seq<Byte>, reader: Reader)

  /** Bytes read one at a time, and the reader after them. */
  datatype Run = Run(bytes: seq<Byte>, reader: Reader)

  function Offset(r: Reader): nat
  {
    if r.view.SliceView? then r.view.offset else 0
  }

  /** The package-private constructor: refuses lengths whose chunk index
      would not fit in an int, and defers the first chunk switch. */
  function OpenRaw(file: HFile, length: nat, view: View): (res: Result<Reader>)
    ensures res.Ok? <==> length / BUFFER_SIZE < INT_MAX
    ensures res.Err? ==> res.error == TooLarge
    ensures res.Ok? ==> && Fresh(res.value)
                        && res.value.file == file && res.value.length == length
                        && res.value.view == view
  {
    if length / BUFFER_SIZE >= INT_MAX then Err(TooLarge)
    else Ok(Reader(file, length, None, -1, 0, 0, 0, view))
  }

  /** The public constructor: reads up to the file's recorded length. */
  function Open(file: HFile): (res: Result<Reader>)
    ensures res.Ok? <==> file.length / BUFFER_SIZE < INT_MAX
    ensures res.Ok? ==> FilePointer(res.value) == 0 && Length(res.value) == file.length
  {
    OpenRaw(file, file.length, Base)
  }

  /** `length()`; a slice reports its own length. */
  function Length(r: Reader): int
  {
    r.length - Offset(r)
  }

  /** The position in the whole file, 0 before any chunk has been selected. */
  function RawPointer(r: Reader): int
  {
    if r.currentBufferIndex < 0 then 0 else r.bufferStart + r.bufferPosition
  }

  /** `getFilePointer()`; a slice reports positions relative to its start. */
  function FilePointer(r: Reader): int
  {
    RawPointer(r) - Offset(r)
  }

  /** Readable bytes of the chunk starting at `start`: the rest of the
      length, capped at BUFFER_SIZE (zero or negative past the length). */
  function ChunkLength(length: int, start: int): int
  {
    if length - start > BUFFER_SIZE then BUFFER_SIZE else length - start
  }

  /** `switchCurrentBuffer`: selects chunk currentBufferIndex. Past the last
      chunk it fails with EndOfFile when asked to; otherwise it steps the
      index back and marks the chunk as consumed. The corrected variant also
      reports EndOfFile for a chunk that starts at or past the length, and
      leaves no readable bytes after a forced end. */
  function SwitchCurrentBuffer(v: Variant, r: Reader, enforceEOF: bool): (res: Result<Reader>)
    ensures res.Err? ==> res.error == EndOfFile || (res.error == IndexOutOfBounds && r.currentBufferIndex < 0)
    ensures res.Err? && enforceEOF && r.currentBufferIndex >= 0 ==> res.error == EndOfFile
    ensures res.Ok? ==> res.value.file == r.file && res.value.length == r.length && res.value.view == r.view
    ensures res.Ok? && (enforceEOF || r.currentBufferIndex < |r.file.buffers|) ==>
              var s := res.value;
              && s.currentBufferIndex == r.currentBufferIndex
              && 0 <= s.currentBufferIndex < |r.file.buffers|
              && s.current == Some(r.file.buffers[s.currentBufferIndex])
              && s.bufferPosition == 0
              && s.bufferStart == BUFFER_SIZE * s.currentBufferIndex
              && s.bufferLength == ChunkLength(r.length, s.bufferStart)
    ensures !enforceEOF && r.currentBufferIndex >= 0 ==> res.Ok?
    ensures !enforceEOF && r.currentBufferIndex >= |r.file.buffers| ==>
              var s := res.value;
              && s.currentBufferIndex == r.currentBufferIndex - 1
              && s.current == r.current
              && s.bufferPosition == BUFFER_SIZE
              && s.bufferStart == BUFFER_SIZE * r.currentBufferIndex
              && s.bufferLength == (if v == AsWritten then r.bufferLength else 0)
  {
    var idx := r.currentBufferIndex;
    var start := BUFFER_SIZE * idx;
    if idx >= |r.file.buffers| || (v == Corrected && enforceEOF && start >= r.length) then
      if enforceEOF then Err(EndOfFile)
      else Ok(r.(bufferStart := start, currentBufferIndex := idx - 1, bufferPosition := BUFFER_SIZE,
                 bufferLength := if v == Corrected then 0 else r.bufferLength))
    else if idx < 0 then Err(IndexOutOfBounds)
    else Ok(r.(current := Some(r.file.buffers[idx]), bufferPosition := 0, bufferStart := start,
               bufferLength := ChunkLength(r.length, start)))
  }

  /** What `readByte` needs to index the held chunk without failing. */
  predicate Readable(r: Reader)
  {
    && AllFull(r.file.buffers)
    && (r.bufferPosition < r.bufferLength ==>
          r.current.Some? && 0 <= r.bufferPosition < |r.current.value|)
  }

  /** The head of `readByte` and of each round of `readBytes`: once the
      readable bytes of the held chunk are used up, step the index and
      switch with the end of file enforced. */
  function Advance(v: Variant, r: Reader): (res: Result<Reader>)
    ensures res.Err? ==> res.error == EndOfFile || (res.error == IndexOutOfBounds && r.currentBufferIndex < -1)
    ensures r.bufferPosition < r.bufferLength ==> res == Ok(r)
    ensures res.Ok? ==> res.value.file == r.file && res.value.length == r.length && res.value.view == r.view
    ensures res.Ok? && r.bufferPosition >= r.bufferLength ==>
              && res.value.currentBufferIndex == r.currentBufferIndex + 1 < |r.file.buffers|
              && res.value.bufferPosition == 0
  {
    if r.bufferPosition >= r.bufferLength
    then SwitchCurrentBuffer(v, r.(currentBufferIndex := r.currentBufferIndex + 1), true)
    else Ok(r)
  }

  /** `readByte`: the byte at the cursor of the chunk the head switch
      leaves. Indexing outside the held chunk, or holding none, fails with
      IndexOutOfBounds. */
  function ReadByte(v: Variant, r: Reader): (res: Result<ByteRead>)
    ensures res.Err? ==> res.error == EndOfFile || res.error == IndexOutOfBounds
    ensures res.Ok? ==> && res.value.reader.file == r.file && res.value.reader.length == r.length
                        && res.value.reader.view == r.view
  {
    match Advance(v, r)
    case Err(e) => Err(e)
    case Ok(t) =>
      if t.current.None? || !(0 <= t.bufferPosition < |t.current.value|) then Err(IndexOutOfBounds)
      else Ok(ByteRead(t.current.value[t.bufferPosition], t.(bufferPosition := t.bufferPosition + 1)))
  }

  /** The seek of the base reader, on a position in the whole file: moves to
      the chunk holding `pos` unless the held chunk already covers it. The
      chunk index is narrowed to an int. */
  function RawSeek(v: Variant, r: Reader, pos: int): (res: Result<Reader>)
    requires pos >= 0
    ensures res.Ok? ==> && res.value.file == r.file && res.value.length == r.length
                        && res.value.view == r.view
                        && res.value.bufferPosition == pos % BUFFER_SIZE
    ensures r.current.Some? && r.bufferStart <= pos < r.bufferStart + BUFFER_SIZE ==>
              res.Ok? && res.value.current == r.current && res.value.bufferStart == r.bufferStart
              && res.value.currentBufferIndex == r.currentBufferIndex
    ensures (r.current.None? || pos < r.bufferStart || pos >= r.bufferStart + BUFFER_SIZE)
            && pos / BUFFER_SIZE < 0x8000_0000 ==>
              var q := pos / BUFFER_SIZE;
              && res.Ok?
              && res.value.bufferStart + res.value.bufferPosition == pos
              && (q < |r.file.buffers| ==> && res.value.currentBufferIndex == q
                                           && res.value.current == Some(r.file.buffers[q]))
              && (q >= |r.file.buffers| ==> res.value.currentBufferIndex == q - 1)
  {
    if r.current.None? || pos < r.bufferStart || pos >= r.bufferStart + BUFFER_SIZE then
      var s := SwitchCurrentBuffer(v, r.(currentBufferIndex := Int32(pos / BUFFER_SIZE)), false);
      if s.Err? then s else Ok(s.value.(bufferPosition := pos % BUFFER_SIZE))
    else Ok(r.(bufferPosition := pos % BUFFER_SIZE))
  }

  /** `seek`: a slice refuses negative positions and shifts the others by
      its offset. On the base reader a negative position is a caller error. */
  function Seek(v: Variant, r: Reader, pos: int): (res: Result<Reader>)
    requires r.view.Base? ==> pos >= 0
    ensures r.view.SliceView? && pos < 0 ==> res == Err(IllegalArgument)
    ensures res.Ok? ==> res.value.file == r.file && res.value.length == r.length && res.value.view == r.view
  {
    match r.view
    case Base => RawSeek(v, r, pos)
    case SliceView(offset) => if pos < 0 then Err(IllegalArgument) else RawSeek(v, r, pos + offset)
  }

  /** `slice`: bounds are checked against the reader's own length field,
      with a nested slice's offset first added to its parent's. The new
      reader reads the same file up to the slice's end and starts with
      `seek(0)`. The corrected variant also refuses a negative offset in a
      nested slice. */
  function Slice(v: Variant, r: Reader, off: int, len: int): (res: Result<Reader>)
    ensures res.Err? ==> res.error == IllegalArgument || res.error == TooLarge || res.error == IndexOutOfBounds
    ensures res.Ok? ==> && res.value.file == r.file
                        && res.value.view.SliceView? && res.value.view.offset == Offset(r) + off
                        && Length(res.value) == len
  {
    var composed := Offset(r) + off;
    if (v == Corrected && off < 0) || composed < 0 || len < 0 || composed + len > r.length then
      Err(IllegalArgument)
    else
      OpenSlice(v, r.file, composed, len)
  }

  /** The reader a slice hands out: a constructor call up to the slice's
      end, then `seek(0)`, which the slice shifts to its offset. */
  function OpenSlice(v: Variant, file: HFile, offset: nat, len: nat): (res: Result<Reader>)
    ensures res.Err? ==> res.error == TooLarge || res.error == IndexOutOfBounds
    ensures res.Ok? ==> && res.value.file == file && res.value.view == SliceView(offset)
                        && res.value.length == offset + len
  {
    match OpenRaw(file, offset + len, SliceView(offset))
    case Err(e) => Err(e)
    case Ok(s) => Seek(v, s, 0)
  }

  // ---------------------------------------------------------------------
  // The states a corrected reader can be in.

  /** The file is made of full chunks covering the length, the length passed
      the constructor's check, and a slice lies within it. */
  predicate FileOk(r: Reader)
  {
    && AllFull(r.file.buffers)
    && 0 <= r.length <= BUFFER_SIZE * |r.file.buffers|
    && r.length / BUFFER_SIZE < INT_MAX
    && Offset(r) <= r.length
  }

  /** As constructed: no chunk selected yet. */
  predicate Fresh(r: Reader)
  {
    && r.current.None? && r.currentBufferIndex == -1
    && r.bufferPosition == 0 && r.bufferStart == 0 && r.bufferLength == 0
  }

  /** Holding chunk currentBufferIndex with its readable byte count. */
  predicate Loaded(r: Reader)
  {
    && 0 <= r.currentBufferIndex < |r.file.buffers|
    && r.current == Some(r.file.buffers[r.currentBufferIndex])
    && r.bufferStart == BUFFER_SIZE * r.currentBufferIndex
    && r.bufferLength == ChunkLength(r.length, r.bufferStart)
    && 0 <= r.bufferPosition <= BUFFER_SIZE
  }

  /** Positioned past the last chunk by a seek: nothing readable, the start
      one chunk after the index; a held chunk (stale) only if one existed. */
  predicate Forced(r: Reader)
  {
    && -1 <= r.currentBufferIndex && |r.file.buffers| - 1 <= r.currentBufferIndex
    && r.bufferStart == BUFFER_SIZE * (r.currentBufferIndex + 1)
    && r.bufferLength == 0
    && 0 <= r.bufferPosition <= BUFFER_SIZE
    && (r.current.Some? ==> |r.file.buffers| >= 1)
  }

  predicate Valid(r: Reader)
  {
    FileOk(r) && (Fresh(r) || Loaded(r) || Forced(r))
  }

  lemma ValidReadable(r: Reader)
    requires Valid(r)
    ensures Readable(r)
    ensures 0 <= RawPointer(r)
  {
  }

  /** A reader on a file of full chunks that covers its length is valid. */
  lemma OpenValid(file: HFile)
    requires AllFull(file.buffers) && file.length <= BUFFER_SIZE * |file.buffers|
    requires file.length / BUFFER_SIZE < INT_MAX
    ensures Open(file).Ok? && Valid(Open(file).value)
  {
  }

  /** Int narrowing leaves values in the int range alone. */
  lemma Int32InRange(x: int)
    requires -0x8000_0000 <= x < 0x8000_0000
    ensures Int32(x) == x
  {
  }

  /** While readable bytes remain, only a loaded chunk can be held. */
  lemma HasReadable(r: Reader)
    requires Valid(r) && r.bufferPosition < r.bufferLength
    ensures Loaded(r)
  {
  }

  /** The readable bytes of a loaded chunk from the cursor on are the file's
      bytes from the pointer on, and they end at or before the length. */
  lemma InChunk(r: Reader)
    requires Valid(r) && Loaded(r) && r.bufferPosition < r.bufferLength
    ensures var p := RawPointer(r);
            var n := r.bufferLength - r.bufferPosition;
            && p + n <= r.length <= |Flatten(r.file.buffers)|
            && r.current.value[r.bufferPosition..r.bufferLength] == Flatten(r.file.buffers)[p..p + n]
  {
    var i := r.currentBufferIndex;
    var bufs := r.file.buffers;
    FlattenChunk(bufs, i);
    SliceOfSlice(Flatten(bufs), BUFFER_SIZE * i, BUFFER_SIZE * (i + 1), r.bufferPosition, r.bufferLength);
  }

  /** A window of a window is a window of the whole. */
  lemma SliceOfSlice(F: seq<Byte>, lo: nat, hi: nat, i: nat, j: nat)
    requires lo <= hi <= |F| && i <= j <= hi - lo
    ensures F[lo..hi][i..j] == F[lo + i..lo + j]
  {
    forall k | 0 <= k < j - i
      ensures F[lo..hi][i..j][k] == F[lo + i..lo + j][k]
    {
      assert F[lo..hi][i..j][k] == F[lo..hi][i + k] == F[lo + i + k];
    }
  }

  /** As written, the end-of-file test looks only at the chunk count: a
      switch with EOF enforced fails exactly when the index has run past the
      last chunk, whatever the length, and an existing chunk past the length
      is selected with a readable count of zero or less. */
  lemma AsWrittenEndOfFile(r: Reader)
    requires r.currentBufferIndex >= 0
    ensures SwitchCurrentBuffer(AsWritten, r, true).Err? <==> r.currentBufferIndex >= |r.file.buffers|
    ensures SwitchCurrentBuffer(AsWritten, r, true).Ok? && BUFFER_SIZE * r.currentBufferIndex >= r.length ==>
              SwitchCurrentBuffer(AsWritten, r, true).value.bufferLength <= 0
  {
  }

  /** The switch at the head of a read, once the readable bytes are used up:
      it fails exactly when the pointer has reached the length, and otherwise
      loads the chunk that starts at the pointer, with bytes to read. */
  lemma NextChunk(r: Reader)
    requires Valid(r) && r.bufferPosition >= r.bufferLength
    ensures var s := SwitchCurrentBuffer(Corrected, r.(currentBufferIndex := r.currentBufferIndex + 1), true);
            && (s.Err? <==> RawPointer(r) >= r.length)
            && (s.Err? ==> s.error == EndOfFile)
            && (s.Ok? ==> && Valid(s.value) && Loaded(s.value)
                          && RawPointer(s.value) == RawPointer(r)
                          && s.value.bufferPosition < s.value.bufferLength)
  {
    var s := SwitchCurrentBuffer(Corrected, r.(currentBufferIndex := r.currentBufferIndex + 1), true);
    var i := r.currentBufferIndex;
    if Loaded(r) {
      if r.bufferLength < BUFFER_SIZE {
        assert r.length < BUFFER_SIZE * (i + 1);
      } else {
        assert r.bufferPosition == BUFFER_SIZE;
      }
    }
  }

  /** The two variants take the same head switch while the pointer is
      below the length. */
  lemma AgreeAdvance(r: Reader)
    requires Valid(r) && RawPointer(r) < r.length
    ensures Advance(AsWritten, r) == Advance(Corrected, r)
  {
    if r.bufferPosition >= r.bufferLength {
      NextChunk(r);
    }
  }

  /** Below the length, `readByte` as written reads what the corrected one
      reads. */
  lemma AgreeReadByte(r: Reader)
    requires Valid(r) && RawPointer(r) < r.length
    ensures ReadByte(AsWritten, r) == ReadByte(Corrected, r)
  {
    AgreeAdvance(r);
  }

  /** `readByte` on any reachable reader: the byte at the pointer when the
      pointer is below the length, for both variants; at the length the
      corrected one fails with EndOfFile. */
  lemma ReadByteSpec(r: Reader)
    requires Valid(r)
    ensures Readable(r)
    ensures var res := ReadByte(Corrected, r);
            var p := RawPointer(r);
            && (res.Ok? <==> p < r.length)
            && (res.Err? ==> res.error == EndOfFile)
            && (res.Ok? ==> && Valid(res.value.reader)
                            && RawPointer(res.value.reader) == p + 1
                            && 0 <= p < |Flatten(r.file.buffers)|
                            && res.value.value == Flatten(r.file.buffers)[p])
    ensures RawPointer(r) < r.length ==> ReadByte(AsWritten, r) == ReadByte(Corrected, r)
  {
    if RawPointer(r) < r.length {
      AgreeReadByte(r);
    }
    var s := Advance(Corrected, r);
    if r.bufferPosition >= r.bufferLength {
      NextChunk(r);
    } else {
      HasReadable(r);
    }
    if s.Ok? {
      InChunk(s.value);
      var t := s.value;
      assert t.current.value[t.bufferPosition..t.bufferLength][0] == t.current.value[t.bufferPosition];
    }
  }

  /** Positions inside the window of chunk i. */
  lemma WindowDivMod(pos: int, i: int)
    requires BUFFER_SIZE * i <= pos < BUFFER_SIZE * i + BUFFER_SIZE
    ensures pos / BUFFER_SIZE == i && pos % BUFFER_SIZE == pos - BUFFER_SIZE * i
  {
  }

  /** Any seek to a non-negative position that succeeds leaves a reachable state. */
  lemma RawSeekValid(r: Reader, pos: int)
    requires Valid(r) && pos >= 0
    ensures var res := RawSeek(Corrected, r, pos);
            res.Ok? ==> Valid(res.value)
  {
    var q := pos / BUFFER_SIZE;
    WindowDivMod(pos, q);
  }

  /** Seeking anywhere from 0 to the length succeeds and puts the pointer
      there. */
  lemma RawSeekSpec(r: Reader, pos: int)
    requires Valid(r) && 0 <= pos <= r.length
    ensures var res := RawSeek(Corrected, r, pos);
            res.Ok? && Valid(res.value) && RawPointer(res.value) == pos
    ensures pos < r.length ==> RawSeek(AsWritten, r, pos) == RawSeek(Corrected, r, pos)
  {
    if pos < r.length {
      AgreeRawSeek(r, pos);
    }
    var q := pos / BUFFER_SIZE;
    WindowDivMod(pos, q);
    assert q <= r.length / BUFFER_SIZE;
    Int32InRange(q);
    RawSeekValid(r, pos);
    if !(r.current.None? || pos < r.bufferStart || pos >= r.bufferStart + BUFFER_SIZE) {
      if Loaded(r) {
        WindowDivMod(pos, r.currentBufferIndex);
      } else {
        WindowDivMod(pos, r.currentBufferIndex + 1);
      }
    }
  }

  /** Below the length the two variants seek alike: the chunk holding the
      position exists, so the forced end is never taken. */
  lemma AgreeRawSeek(r: Reader, pos: int)
    requires Valid(r) && 0 <= pos < r.length
    ensures RawSeek(AsWritten, r, pos) == RawSeek(Corrected, r, pos)
  {
    Int32InRange(pos / BUFFER_SIZE);
  }

  /** The same for `seek` on the base reader and on slices. */
  lemma AgreeSeek(r: Reader, pos: int)
    requires Valid(r) && 0 <= pos < Length(r)
    ensures Seek(AsWritten, r, pos) == Seek(Corrected, r, pos)
  {
    AgreeRawSeek(r, pos + Offset(r));
  }

  /** `seek` followed by `getFilePointer`, for the base reader and for
      slices: every position from 0 to the length is reached exactly, and
      below the length the code as written does the same. */
  lemma SeekSpec(r: Reader, pos: int)
    requires Valid(r) && 0 <= pos <= Length(r)
    ensures var res := Seek(Corrected, r, pos);
            res.Ok? && Valid(res.value) && FilePointer(res.value) == pos
            && Length(res.value) == Length(r)
    ensures pos < Length(r) ==> Seek(AsWritten, r, pos) == Seek(Corrected, r, pos)
    ensures Seek(AsWritten, r, pos).Ok? && FilePointer(Seek(AsWritten, r, pos).value) == pos
  {
    ReachedSeek(r, pos);
    var raw := pos + Offset(r);
    RawSeekSpec(r, raw);
    SeekShifts(Corrected, r, pos);
    SeekShifts(AsWritten, r, pos);
    var res := RawSeek(Corrected, r, raw);
    assert Seek(Corrected, r, pos) == res;
    assert res.Ok? && Valid(res.value);
    assert Offset(res.value) == Offset(r);
  }

  // ---------------------------------------------------------------------
  // The states the code as written reaches.

  /** A forced end as the code as written leaves it: like Forced, but the
      readable count is the one of the chunk held before, at most
      BUFFER_SIZE. */
  predicate Stale(r: Reader)
  {
    && -1 <= r.currentBufferIndex && |r.file.buffers| - 1 <= r.currentBufferIndex
    && r.bufferStart == BUFFER_SIZE * (r.currentBufferIndex + 1)
    && r.bufferLength <= BUFFER_SIZE
    && 0 <= r.bufferPosition <= BUFFER_SIZE
    && (r.current.Some? ==> |r.file.buffers| >= 1)
  }

  /** Every state of the reader as written: those of the corrected reader,
      and a forced end with a stale readable count. */
  predicate Reached(r: Reader)
  {
    FileOk(r) && (Fresh(r) || Loaded(r) || Stale(r))
  }

  /** The corrected reader's states are among them. */
  lemma ValidReached(r: Reader)
    requires Valid(r)
    ensures Reached(r)
  {
  }

  /** `seek` as written, on the base position: a successful seek stays
      among the reached states, and a seek to any position up to the length
      succeeds and sets the pointer there, the length itself included. */
  lemma ReachedRawSeek(r: Reader, pos: int)
    requires Reached(r) && 0 <= pos
    ensures RawSeek(AsWritten, r, pos).Ok? ==> Reached(RawSeek(AsWritten, r, pos).value)
    ensures pos <= r.length ==> RawSeek(AsWritten, r, pos).Ok? && RawPointer(RawSeek(AsWritten, r, pos).value) == pos
  {
    var q := pos / BUFFER_SIZE;
    if !(r.current.None? || pos < r.bufferStart || pos >= r.bufferStart + BUFFER_SIZE) {
      if Loaded(r) {
        WindowDivMod(pos, r.currentBufferIndex);
      } else {
        WindowDivMod(pos, r.currentBufferIndex + 1);
      }
    } else if pos <= r.length {
      assert q <= r.length / BUFFER_SIZE;
      Int32InRange(q);
      WindowDivMod(pos, q);
    }
  }

  /** `seek` as written, for the base reader and slices. */
  lemma ReachedSeek(r: Reader, pos: int)
    requires Reached(r) && 0 <= pos
    ensures Seek(AsWritten, r, pos).Ok? ==> Reached(Seek(AsWritten, r, pos).value)
    ensures pos <= Length(r) ==> Seek(AsWritten, r, pos).Ok? && FilePointer(Seek(AsWritten, r, pos).value) == pos
  {
    SeekShifts(AsWritten, r, pos);
    ReachedRawSeek(r, pos + Offset(r));
  }

  /** A seek below the length leads from any reached state back to one the
      corrected reader reaches, as the corrected seek does: after it, the
      agreement lemmas apply again. */
  lemma ReachedSeekBack(r: Reader, pos: int)
    requires Reached(r) && 0 <= pos < Length(r)
    ensures Seek(AsWritten, r, pos) == Seek(Corrected, r, pos)
    ensures Seek(AsWritten, r, pos).Ok? && Valid(Seek(AsWritten, r, pos).value)
            && FilePointer(Seek(AsWritten, r, pos).value) == pos
  {
    var raw := pos + Offset(r);
    SeekShifts(AsWritten, r, pos);
    SeekShifts(Corrected, r, pos);
    if Valid(r) {
      SeekSpec(r, pos);
    } else {
      var q := raw / BUFFER_SIZE;
      assert q <= r.length / BUFFER_SIZE;
      Int32InRange(q);
      WindowDivMod(raw, q);
      assert RawSeek(AsWritten, r, raw) == RawSeek(Corrected, r, raw);
      ReachedRawSeek(r, raw);
    }
  }

  /** `readByte` as written stays among the reached states. */
  lemma ReachedReadByte(r: Reader)
    requires Reached(r)
    ensures ReadByte(AsWritten, r).Ok? ==> Reached(ReadByte(AsWritten, r).value.reader)
  {
  }

  /** A `readBytes` round as written stays among the reached states. */
  lemma ReachedRound(r: Reader, n: nat)
    requires Reached(r)
    ensures Round(AsWritten, r, n).Ok? ==> Reached(Round(AsWritten, r, n).value.reader)
  {
  }

  /** `slice` as written, from any reached state and even with the negative
      nested offset it lets through, yields a reader the corrected code
      reaches, positioned at the slice's start. */
  lemma ReachedSlice(r: Reader, off: int, len: int)
    requires Reached(r)
    ensures Slice(AsWritten, r, off, len).Ok? ==>
              && Valid(Slice(AsWritten, r, off, len).value)
              && FilePointer(Slice(AsWritten, r, off, len).value) == 0
  {
    var composed := Offset(r) + off;
    if Slice(AsWritten, r, off, len).Ok? {
      OpenSliceValid(r.file, composed, len);
    }
  }

  /** The reader a slice opens over a file of full chunks, within its
      chunks, is reached by the corrected code and starts at the slice's
      start, whichever variant opens it. */
  lemma OpenSliceValid(file: HFile, offset: nat, len: nat)
    requires AllFull(file.buffers) && offset + len <= BUFFER_SIZE * |file.buffers|
    ensures OpenSlice(AsWritten, file, offset, len) == OpenSlice(Corrected, file, offset, len)
    ensures OpenSlice(AsWritten, file, offset, len).Ok? ==>
              Valid(OpenSlice(AsWritten, file, offset, len).value)
              && FilePointer(OpenSlice(AsWritten, file, offset, len).value) == 0
  {
    if OpenRaw(file, offset + len, SliceView(offset)).Ok? {
      var s := OpenRaw(file, offset + len, SliceView(offset)).value;
      assert Valid(s);
      SeekShifts(AsWritten, s, 0);
      SeekShifts(Corrected, s, 0);
      assert Seek(AsWritten, s, 0) == Seek(Corrected, s, 0);
      SeekSpec(s, 0);
    }
  }

  /** A seek to a non-negative position is the raw seek shifted by the
      reader's offset. */
  lemma SeekShifts(v: Variant, r: Reader, pos: int)
    requires 0 <= pos
    ensures Seek(v, r, pos) == RawSeek(v, r, pos + Offset(r))
  {
  }

  /** The bytes `front` followed by a further run of reads, or its failure. */
  function Prepend(front: seq<Byte>, more: Result<Run>): (res: Result<Run>)
    ensures res.Ok? <==> more.Ok?
    ensures res.Ok? ==> res.value.bytes == front + more.value.bytes && res.value.reader == more.value.reader
    ensures res.Err? ==> res.error == more.error
  {
    match more
    case Err(e) => Err(e)
    case Ok(rest) => Ok(Run(front + rest.bytes, rest.reader))
  }

  /** Prepending in two steps is prepending once. */
  lemma PrependTwice(x: seq<Byte>, y: seq<Byte>, more: Result<Run>)
    ensures Prepend(x, Prepend(y, more)) == Prepend(x + y, more)
  {
    if more.Ok? {
      assert x + (y + more.value.bytes) == (x + y) + more.value.bytes;
    }
  }

  /** n successive `readByte` calls, the reference for `readBytes`; the
      first failure ends the run. */
  function ReadAll(v: Variant, r: Reader, n: nat): Result<Run>
    decreases n
  {
    if n == 0 then Ok(Run([], r))
    else
      match ReadByte(v, r)
      case Err(e) => Err(e)
      case Ok(one) => Prepend([one.value], ReadAll(v, one.reader, n - 1))
  }

  /** n single-byte reads succeed exactly when n bytes remain (or n is 0);
      otherwise they fail with EndOfFile. */
  lemma {:induction false} ReadAllOutcome(r: Reader, n: nat)
    requires Valid(r)
    ensures ReadAll(Corrected, r, n).Ok? <==> n == 0 || RawPointer(r) + n <= r.length
    ensures ReadAll(Corrected, r, n).Err? ==> ReadAll(Corrected, r, n).error == EndOfFile
    decreases n
  {
    if n > 0 {
      ReadByteSpec(r);
      var one := ReadByte(Corrected, r);
      if one.Ok? {
        ReadAllOutcome(one.value.reader, n - 1);
      }
    }
  }

  /** A successful run of n single-byte reads leaves a reachable reader n
      bytes further on, over the same file. */
  lemma {:induction false} ReadAllReader(r: Reader, n: nat)
    requires Valid(r) && ReadAll(Corrected, r, n).Ok?
    ensures var t := ReadAll(Corrected, r, n).value.reader;
            && Valid(t)
            && RawPointer(t) == RawPointer(r) + n
            && t.file == r.file && t.length == r.length && t.view == r.view
    decreases n
  {
    if n > 0 {
      ReadByteSpec(r);
      var one := ReadByte(Corrected, r).value;
      ReadAllReader(one.reader, n - 1);
      assert ReadAll(Corrected, r, n).value.reader == ReadAll(Corrected, one.reader, n - 1).value.reader;
    }
  }

  /** One element in front of the slice after it is the slice one longer. */
  lemma ConsSlice(F: seq<Byte>, p: nat, n: nat, rest: seq<Byte>)
    requires 0 < n && p + n <= |F|
    requires |rest| == n - 1 && (n > 1 ==> rest == F[p + 1..p + n])
    ensures [F[p]] + rest == F[p..p + n]
  {
  }

  /** A successful run of n single-byte reads returns the n bytes at the
      pointer. */
  lemma {:induction false} ReadAllBytes(r: Reader, n: nat)
    requires Valid(r) && ReadAll(Corrected, r, n).Ok?
    ensures var p := RawPointer(r);
            && |ReadAll(Corrected, r, n).value.bytes| == n
            && (n > 0 ==> && 0 <= p && p + n <= |Flatten(r.file.buffers)|
                          && ReadAll(Corrected, r, n).value.bytes == Flatten(r.file.buffers)[p..p + n])
    decreases n
  {
    if n > 0 {
      ReadByteSpec(r);
      var one := ReadByte(Corrected, r).value;
      var p := RawPointer(r);
      var F := Flatten(r.file.buffers);
      assert one.reader.file == r.file && RawPointer(one.reader) == p + 1 && one.value == F[p];
      ReadAllBytes(one.reader, n - 1);
      var rest := ReadAll(Corrected, one.reader, n - 1).value;
      assert ReadAll(Corrected, r, n).value.bytes == [one.value] + rest.bytes;
      ConsSlice(F, p, n, rest.bytes);
    }
  }

  /** n single-byte reads succeed exactly when n bytes remain (or n is 0),
      and then return the n bytes at the pointer. */
  lemma ReadAllSpec(r: Reader, n: nat)
    requires Valid(r)
    ensures ReadAll(Corrected, r, n).Ok? <==> n == 0 || RawPointer(r) + n <= r.length
    ensures ReadAll(Corrected, r, n).Err? ==> ReadAll(Corrected, r, n).error == EndOfFile
    ensures ReadAll(Corrected, r, n).Ok? ==>
              var p := RawPointer(r);
              && |ReadAll(Corrected, r, n).value.bytes| == n
              && (n > 0 ==> && 0 <= p && p + n <= |Flatten(r.file.buffers)|
                            && ReadAll(Corrected, r, n).value.bytes == Flatten(r.file.buffers)[p..p + n])
    ensures ReadAll(Corrected, r, n).Ok? ==>
              var t := ReadAll(Corrected, r, n).value.reader;
              && Valid(t)
              && RawPointer(t) == RawPointer(r) + n
              && t.file == r.file && t.length == r.length && t.view == r.view
    ensures RawPointer(r) + n <= r.length ==> ReadAll(AsWritten, r, n) == ReadAll(Corrected, r, n)
  {
    if RawPointer(r) + n <= r.length {
      AgreeReadAll(r, n);
    }
    ReadAllOutcome(r, n);
    if ReadAll(Corrected, r, n).Ok? {
      ReadAllReader(r, n);
      ReadAllBytes(r, n);
    }
  }

  /** n single-byte reads that stay below the length go the same way in
      both variants. */
  lemma {:induction false} AgreeReadAll(r: Reader, n: nat)
    requires Valid(r) && RawPointer(r) + n <= r.length
    ensures ReadAll(AsWritten, r, n) == ReadAll(Corrected, r, n)
    decreases n
  {
    if n > 0 {
      ReadByteSpec(r);
      AgreeReadAll(ReadByte(Corrected, r).value.reader, n - 1);
    }
  }

  lemma FileLength(r: Reader)
    requires Valid(r)
    ensures r.length <= |Flatten(r.file.buffers)|
  {
    FlattenLength(r.file.buffers);
  }

  /** The chunk switch at the top of each round of readBytes (and of
      readByte): when the cursor has used up the readable bytes, move to the
      next chunk, which fails with EndOfFile once the pointer has reached
      the length. */
  function Refill(cur: Reader): (res: Result<Reader>)
    requires Valid(cur)
    ensures res.Err? ==> res.error == EndOfFile && RawPointer(cur) >= cur.length
    ensures res.Ok? ==> && Valid(res.value) && Loaded(res.value)
                        && res.value.current.Some?
                        && 0 <= res.value.bufferPosition < res.value.bufferLength <= |res.value.current.value|
                        && RawPointer(res.value) == RawPointer(cur)
                        && res.value.file == cur.file && res.value.length == cur.length
                        && res.value.view == cur.view
  {
    if cur.bufferPosition >= cur.bufferLength then
      NextChunk(cur);
      Advance(Corrected, cur)
    else
      HasReadable(cur);
      Advance(Corrected, cur)
  }

  /** Reading k bytes that the loaded chunk still holds takes them straight
      from the chunk and moves only the cursor. */
  lemma {:induction false} ReadAllLoaded(t: Reader, k: nat)
    requires Valid(t) && Loaded(t) && t.bufferPosition + k <= t.bufferLength
    ensures t.bufferPosition + k <= |t.current.value|
    ensures ReadAll(Corrected, t, k)
         == Ok(Run(t.current.value[t.bufferPosition..t.bufferPosition + k],
                   t.(bufferPosition := t.bufferPosition + k)))
    decreases k
  {
    var pos := t.bufferPosition;
    var c := t.current.value;
    if k == 0 {
      assert c[pos..pos] == [];
      assert t.(bufferPosition := pos) == t;
    } else {
      var t1 := t.(bufferPosition := pos + 1);
      assert ReadByte(Corrected, t) == Ok(ByteRead(c[pos], t1));
      assert Valid(t1) && Loaded(t1);
      ReadAllLoaded(t1, k - 1);
      assert t1.(bufferPosition := pos + k) == t.(bufferPosition := pos + k);
      assert [c[pos]] + c[pos + 1..pos + k] == c[pos..pos + k];
    }
  }

  /** The first single-byte read performs the chunk switch itself, so
      reading from a reader or from its refilled form is the same. */
  lemma ReadAllRefill(cur: Reader, k: nat)
    requires Valid(cur) && 0 < k && Refill(cur).Ok?
    ensures ReadAll(Corrected, cur, k) == ReadAll(Corrected, Refill(cur).value, k)
  {
    var next := Refill(cur).value;
    assert ReadByte(Corrected, cur) == ReadByte(Corrected, next);
  }

  /** Reading d then k bytes is reading d + k bytes, in either variant and
      from any reader. */
  lemma {:induction false} ReadAllAppend(v: Variant, r: Reader, d: nat, k: nat)
    requires ReadAll(v, r, d).Ok?
    ensures ReadAll(v, r, d + k) == Prepend(ReadAll(v, r, d).value.bytes, ReadAll(v, ReadAll(v, r, d).value.reader, k))
    decreases d
  {
    if d == 0 {
      assert ReadAll(v, r, d) == Ok(Run([], r));
      if ReadAll(v, r, k).Ok? {
        assert [] + ReadAll(v, r, k).value.bytes == ReadAll(v, r, k).value.bytes;
      }
    } else {
      var one := ReadByte(v, r).value;
      var x := one.reader;
      ReadAllAppend(v, x, d - 1, k);
      var y := ReadAll(v, x, d - 1).value;
      assert ReadAll(v, r, d) == Prepend([one.value], ReadAll(v, x, d - 1));
      assert ReadAll(v, r, d + k) == Prepend([one.value], ReadAll(v, x, d - 1 + k));
      PrependTwice([one.value], y.bytes, ReadAll(v, y.reader, k));
    }
  }

  /** `System.arraycopy` of a whole source block into dest at position `at`. */
  function CopyInto(dest: seq<Byte>, at: nat, chunk: seq<Byte>): (d: seq<Byte>)
    requires at + |chunk| <= |dest|
    ensures |d| == |dest|
    ensures d[..at] == dest[..at] && d[at..at + |chunk|] == chunk
    ensures d[at + |chunk|..] == dest[at + |chunk|..]
  {
    dest[..at] + chunk + dest[at + |chunk|..]
  }

  /** The bytes a round of readBytes copies out of the chunk the switch
      yields: as many readable bytes as it holds, at most n, are what that
      many single-byte reads deliver after the `done` ones read as `got`.
      (Validity is compared with `true` so that callers discharge it as one
      fact instead of unfolding it.) */
  lemma ReadRound(r: Reader, cur: Reader, got: seq<Byte>, done: nat, n: nat, next: Reader, k: nat)
    requires Valid(r) == true && ReadAll(Corrected, r, done) == Ok(Run(got, cur))
    requires Valid(cur) == true && 0 < n && Refill(cur).Ok? && next == Refill(cur).value
    requires k == if n < next.bufferLength - next.bufferPosition then n else next.bufferLength - next.bufferPosition
    ensures 0 < k <= n && next.current.Some?
    ensures next.bufferPosition + k <= |next.current.value|
    ensures ReadAll(Corrected, r, done + k)
         == Ok(Run(got + next.current.value[next.bufferPosition..next.bufferPosition + k],
                   next.(bufferPosition := next.bufferPosition + k)))
  {
    var pos := next.bufferPosition;
    var chunk := next.current.value[pos..pos + k];
    var next' := next.(bufferPosition := pos + k);
    ReadAllLoaded(next, k);
    ReadAllRefill(cur, k);
    ReadAllAppend(Corrected, r, done, k);
    assert ReadAll(Corrected, cur, k) == Ok(Run(chunk, next'));
    assert ReadAll(Corrected, r, done + k) == Prepend(got, Ok(Run(chunk, next')));
  }

  /** Before each round of readBytes the reader is reachable, and a failed
      chunk switch means the remaining n single-byte reads fail too. */
  lemma RoundStart(r: Reader, cur: Reader, got: seq<Byte>, done: nat, len: nat)
    requires Valid(r) == true && ReadAll(Corrected, r, done) == Ok(Run(got, cur)) && done < len
    ensures Valid(cur) && |got| == done
    ensures Refill(cur).Err? ==> ReadAll(Corrected, r, len).Err? && ReadAll(Corrected, r, len).error == EndOfFile
  {
    ReadAllSpec(r, done);
    ReadAllSpec(r, len);
  }

  /** The array after one more block lands right behind the copied ones. */
  lemma CopyAppend(b: seq<Byte>, offset: nat, got: seq<Byte>, dest: seq<Byte>, at: nat, chunk: seq<Byte>, k: nat)
    requires at == offset + |got| && k == |chunk| && at + k <= |b|
    requires dest == b[..offset] + got + b[at..]
    ensures CopyInto(dest, at, chunk) == b[..offset] + (got + chunk) + b[at + k..]
  {
  }

  /** One round of the copy loop of `readBytes`: the head switch, then the
      readable bytes of the held chunk from the cursor on, at most n. The
      count is taken from the readable count as it stands, and
      `System.arraycopy` refuses a negative count, or a range outside the
      held chunk, with IndexOutOfBounds. */
  function Round(v: Variant, cur: Reader, n: nat): (res: Result<Run>)
    ensures res.Err? ==> res.error == EndOfFile || res.error == IndexOutOfBounds
    ensures res.Ok? ==> && |res.value.bytes| <= n
                        && res.value.reader.file == cur.file && res.value.reader.length == cur.length
                        && res.value.reader.view == cur.view
    ensures res.Ok? && 0 < n && |res.value.bytes| == 0 ==>
              res.value.reader.currentBufferIndex == cur.currentBufferIndex + 1 < |cur.file.buffers|
    ensures Advance(v, cur).Ok? && Advance(v, cur).value.bufferLength < Advance(v, cur).value.bufferPosition ==>
              res == Err(IndexOutOfBounds)
  {
    match Advance(v, cur)
    case Err(e) => Err(e)
    case Ok(t) =>
      var remainInBuffer := t.bufferLength - t.bufferPosition;
      var bytesToCopy := if n < remainInBuffer then n else remainInBuffer;
      if bytesToCopy < 0 || t.current.None? || t.bufferPosition < 0
         || t.bufferPosition + bytesToCopy > |t.current.value|
      then Err(IndexOutOfBounds)
      else Ok(Run(t.current.value[t.bufferPosition..t.bufferPosition + bytesToCopy],
                  t.(bufferPosition := t.bufferPosition + bytesToCopy)))
  }

  /** A round of readBytes after `done` single-byte reads delivered `got`:
      the corrected round delivers at least one of the next n bytes of the
      run, or fails exactly as the whole run would; while the len bytes lie
      below the length, the round as written is the same round. */
  lemma RoundSpec(r: Reader, cur: Reader, got: seq<Byte>, done: nat, n: nat, len: nat)
    requires Valid(r) == true && ReadAll(Corrected, r, done) == Ok(Run(got, cur))
    requires 0 < n && done + n == len
    ensures var res := Round(Corrected, cur, n);
            && (res.Err? ==> res.error == EndOfFile && ReadAll(Corrected, r, len).Err?)
            && (res.Ok? ==> && 0 < |res.value.bytes|
                            && ReadAll(Corrected, r, done + |res.value.bytes|)
                               == Ok(Run(got + res.value.bytes, res.value.reader)))
    ensures RawPointer(r) + len <= r.length ==> Round(AsWritten, cur, n) == Round(Corrected, cur, n)
  {
    RoundStart(r, cur, got, done, len);
    RoundRefill(cur, n);
    var t := Refill(cur);
    if t.Ok? {
      var next := t.value;
      var k := if n < next.bufferLength - next.bufferPosition then n else next.bufferLength - next.bufferPosition;
      ReadRound(r, cur, got, done, n, next, k);
    }
    if RawPointer(r) + len <= r.length {
      ReadAllSpec(r, done);
      AgreeRound(cur, n);
    }
  }

  /** On a reachable reader the corrected round is the switch of Refill
      followed by the copy of min(n, readable) bytes. */
  lemma RoundRefill(cur: Reader, n: nat)
    requires Valid(cur) == true
    ensures Refill(cur).Err? ==> Round(Corrected, cur, n) == Err(EndOfFile)
    ensures Refill(cur).Ok? ==>
              var t := Refill(cur).value;
              var k := if n < t.bufferLength - t.bufferPosition then n else t.bufferLength - t.bufferPosition;
              && 0 <= t.bufferPosition && t.bufferPosition + k <= |t.current.value|
              && Round(Corrected, cur, n)
                 == Ok(Run(t.current.value[t.bufferPosition..t.bufferPosition + k],
                           t.(bufferPosition := t.bufferPosition + k)))
  {
    assert Refill(cur) == Advance(Corrected, cur);
  }

  /** Below the length a readBytes round as written is the corrected one. */
  lemma AgreeRound(cur: Reader, n: nat)
    requires Valid(cur) && RawPointer(cur) < cur.length
    ensures Round(AsWritten, cur, n) == Round(Corrected, cur, n)
  {
    AgreeAdvance(cur);
  }

  /** Where the copy loop is specified: any corrected reader, and a reader
      as written while the bytes asked for lie below the length. */
  predicate Specified(v: Variant, r: Reader, len: nat)
  {
    Valid(r) && (v == Corrected || RawPointer(r) + len <= r.length)
  }

  /** One round of the copy loop of `readBytes`, into the array at `off`:
      it writes only there, and either copies something or has moved on to
      the next existing chunk. Where the loop is specified it continues the
      run of single-byte reads. */
  method CopyBlock(v: Variant, ghost r: Reader, ghost b: seq<Byte>, ghost offset: nat, cur: Reader,
                   dest: seq<Byte>, ghost got: seq<Byte>, ghost done: nat, off: nat, n: nat, ghost len: nat)
    returns (s: Result<Reader>, dest': seq<Byte>, k: nat, ghost got': seq<Byte>)
    requires 0 < n && off == offset + done && off + n <= |b| == |dest| && done + n == len
    requires Specified(v, r, len) ==> && ReadAll(Corrected, r, done) == Ok(Run(got, cur))
                                      && dest == b[..offset] + got + b[off..]
    ensures s.Err? ==> s.error == EndOfFile || s.error == IndexOutOfBounds
    ensures s.Ok? ==> && k <= n && |dest'| == |dest| && s.value.file == cur.file
                      && (forall i :: 0 <= i < off ==> dest'[i] == dest[i])
                      && (forall i :: off + k <= i < |dest| ==> dest'[i] == dest[i])
                      && (0 < k || s.value.currentBufferIndex == cur.currentBufferIndex + 1 < |cur.file.buffers|)
    ensures Specified(v, r, len) ==>
              && (s.Err? ==> s.error == EndOfFile && ReadAll(Corrected, r, len).Err?)
              && (s.Ok? ==> && 0 < k && ReadAll(Corrected, r, done + k) == Ok(Run(got', s.value))
                            && dest' == b[..offset] + got' + b[off + k..])
    ensures v == AsWritten && Reached(cur) && s.Ok? ==> Reached(s.value)
  {
    var t := Round(v, cur, n);
    if v == AsWritten && Reached(cur) {
      ReachedRound(cur, n);
    }
    if Specified(v, r, len) {
      CopySpecified(v, r, b, offset, cur, dest, got, done, off, n, len);
    }
    if t.Err? {
      s, dest', k, got' := Err(t.error), dest, 0, got;
      return;
    }
    var chunk := t.value.bytes;
    k := |chunk|;
    dest' := CopyInto(dest, off, chunk);
    s := Ok(t.value.reader);
    got' := got + chunk;
  }

  /** Where the loop is specified, one round continues the run of
      single-byte reads, and its copy lands right behind the bytes copied
      so far. */
  lemma CopySpecified(v: Variant, r: Reader, b: seq<Byte>, offset: nat, cur: Reader,
                      dest: seq<Byte>, got: seq<Byte>, done: nat, off: nat, n: nat, len: nat)
    requires 0 < n && off == offset + done && off + n <= |b| == |dest| && done + n == len
    requires Specified(v, r, len) == true
    requires ReadAll(Corrected, r, done) == Ok(Run(got, cur)) && dest == b[..offset] + got + b[off..]
    ensures var t := Round(v, cur, n);
            && (t.Err? ==> t.error == EndOfFile && ReadAll(Corrected, r, len).Err?)
            && (t.Ok? ==> && 0 < |t.value.bytes| <= n
                          && ReadAll(Corrected, r, done + |t.value.bytes|) == Ok(Run(got + t.value.bytes, t.value.reader))
                          && CopyInto(dest, off, t.value.bytes)
                             == b[..offset] + (got + t.value.bytes) + b[off + |t.value.bytes|..])
  {
    RoundSpec(r, cur, got, done, n, len);
    var t := Round(v, cur, n);
    if t.Ok? {
      CopyAppend(b, offset, got, dest, off, t.value.bytes, |t.value.bytes|);
    }
  }

  /** The copy loop of `readBytes`: chunk by chunk into b from `offset`
      on, switching chunks as the readable bytes run out. It writes only
      the range asked for, and where it is specified it ends as len
      single-byte reads would. */
  method CopyBlocks(v: Variant, r: Reader, b: seq<Byte>, offset: nat, len: nat) returns (res: Result<BlockRead>)
    requires v == Corrected ==> Valid(r)
    requires offset + len <= |b|
    ensures res.Err? ==> res.error == EndOfFile || res.error == IndexOutOfBounds
    ensures res.Ok? ==> && |res.value.dest| == |b|
                        && (forall i :: 0 <= i < offset ==> res.value.dest[i] == b[i])
                        && (forall i :: offset + len <= i < |b| ==> res.value.dest[i] == b[i])
    ensures Specified(v, r, len) ==>
              && (res.Ok? ==> && ReadAll(Corrected, r, len).Ok? && res.value.reader == ReadAll(Corrected, r, len).value.reader
                              && res.value.dest == b[..offset] + ReadAll(Corrected, r, len).value.bytes + b[offset + len..])
              && (res.Err? ==> res.error == EndOfFile && ReadAll(Corrected, r, len).Err?)
    ensures v == AsWritten && Reached(r) && res.Ok? ==> Reached(res.value.reader)
  {
    var cur := r;
    var dest := b;
    var off := offset;
    var n: nat := len;
    ghost var done: nat := 0;
    ghost var got: seq<Byte> := [];
    assert dest == b[..offset] + [] + b[offset..];
    while n > 0
      invariant off == offset + done && done + n == len && |dest| == |b| && cur.file == r.file
      invariant forall i :: 0 <= i < offset ==> dest[i] == b[i]
      invariant forall i :: offset + len <= i < |b| ==> dest[i] == b[i]
      invariant v == AsWritten && Reached(r) ==> Reached(cur)
      invariant Specified(v, r, len) ==> && ReadAll(Corrected, r, done) == Ok(Run(got, cur))
                                         && dest == b[..offset] + got + b[off..]
      decreases n, |r.file.buffers| - cur.currentBufferIndex
    {
      var s, d, k, g := CopyBlock(v, r, b, offset, cur, dest, got, done, off, n, len);
      if s.Err? {
        res := Err(s.error);
        return;
      }
      cur, dest, got := s.value, d, g;
      done, off, n := done + k, off + k, n - k;
    }
    assert done == len && off == offset + len;
    res := Ok(BlockRead(dest, cur));
  }

  /** How the copy loop's result reads in terms of the file: the len bytes
      at the pointer, in place in the array. */
  lemma ReadDone(r: Reader, b: seq<Byte>, offset: nat, cur: Reader, dest: seq<Byte>, len: nat)
    requires Valid(r) && offset + len <= |b|
    requires ReadAll(Corrected, r, len).Ok? && cur == ReadAll(Corrected, r, len).value.reader
    requires dest == b[..offset] + ReadAll(Corrected, r, len).value.bytes + b[offset + len..]
    ensures RawPointer(r) + len <= r.length || len == 0
    ensures len == 0 ==> cur == r && dest == b
    ensures len > 0 ==>
              var p := RawPointer(r);
              var F := Flatten(r.file.buffers);
              && 0 <= p && p + len <= |F|
              && dest == b[..offset] + F[p..p + len] + b[offset + len..]
              && Valid(cur) && RawPointer(cur) == p + len
              && cur.file == r.file && cur.length == r.length && cur.view == r.view
    ensures dest[offset..offset + len] == ReadAll(Corrected, r, len).value.bytes
  {
    ReadAllSpec(r, len);
    if len == 0 {
      assert ReadAll(Corrected, r, 0) == Ok(Run([], r));
      assert b[..offset] + [] + b[offset..] == b;
    }
  }

  /** `readBytes`: copies chunk by chunk into b from `offset` on and
      touches nothing outside that range. Where the loop is specified it
      delivers the bytes at the pointer, or fails with EndOfFile when fewer
      than len remain, and it leaves the reader exactly as len calls of
      `readByte` would. */
  method ReadBytes(v: Variant, r: Reader, b: seq<Byte>, offset: nat, len: nat) returns (res: Result<BlockRead>)
    requires v == Corrected ==> Valid(r)
    requires offset + len <= |b|
    ensures res.Err? ==> res.error == EndOfFile || res.error == IndexOutOfBounds
    ensures len == 0 ==> res == Ok(BlockRead(b, r))
    ensures res.Ok? ==> && |res.value.dest| == |b| && res.value.dest[..offset] == b[..offset]
                        && res.value.dest[offset + len..] == b[offset + len..]
    ensures Specified(v, r, len) ==>
              && (res.Ok? <==> len == 0 || RawPointer(r) + len <= r.length)
              && (res.Err? ==> res.error == EndOfFile)
              && (res.Ok? && len > 0 ==>
                    var p := RawPointer(r);
                    var F := Flatten(r.file.buffers);
                    && 0 <= p && p + len <= |F|
                    && res.value.dest == b[..offset] + F[p..p + len] + b[offset + len..]
                    && Valid(res.value.reader)
                    && RawPointer(res.value.reader) == p + len
                    && res.value.reader.file == r.file
                    && res.value.reader.length == r.length
                    && res.value.reader.view == r.view)
              && res.Ok? == ReadAll(Corrected, r, len).Ok?
              && (res.Ok? ==> && res.value.dest[offset..offset + len] == ReadAll(Corrected, r, len).value.bytes
                              && res.value.reader == ReadAll(Corrected, r, len).value.reader)
    ensures v == AsWritten && Reached(r) && res.Ok? ==> Reached(res.value.reader)
  {
    if len == 0 {
      return Ok(BlockRead(b, r));
    }
    res := CopyBlocks(v, r, b, offset, len);
    if res.Ok? {
      var d := res.value.dest;
      assert d[..offset] == b[..offset];
      assert d[offset + len..] == b[offset + len..];
    }
    if Specified(v, r, len) {
      ReadAllSpec(r, len);
      if res.Ok? {
        ReadDone(r, b, offset, res.value.reader, res.value.dest, len);
      }
    }
  }

  // ---------------------------------------------------------------------
  // Slices.

  /** For a non-negative offset the two variants slice alike: the bounds
      checks coincide, and the opening seek to the slice's start differs
      only in the readable count after a forced end, which a fresh reader
      has at 0 in both. */
  lemma AgreeSlice(r: Reader, off: int, len: int)
    requires Valid(r) && 0 <= off
    ensures Slice(AsWritten, r, off, len) == Slice(Corrected, r, off, len)
  {
  }

  /** `slice` on any reachable reader: the corrected one succeeds exactly
      when the window lies inside the reader's own range, and then yields a
      reachable reader over the same file whose length is the window's and
      whose pointer is at its start; the code as written does the same for
      a non-negative offset. */
  lemma SliceSpec(r: Reader, off: int, len: int)
    requires Valid(r)
    ensures var res := Slice(Corrected, r, off, len);
            && (res.Ok? <==> 0 <= off && 0 <= len && Offset(r) + off + len <= r.length)
            && (res.Err? ==> res.error == IllegalArgument)
            && (res.Ok? ==> && Valid(res.value) && res.value.file == r.file
                            && Offset(res.value) == Offset(r) + off
                            && Length(res.value) == len && FilePointer(res.value) == 0)
    ensures 0 <= off ==> Slice(AsWritten, r, off, len) == Slice(Corrected, r, off, len)
  {
    if 0 <= off {
      AgreeSlice(r, off, len);
    }
    var composed := Offset(r) + off;
    if 0 <= off && 0 <= len && composed + len <= r.length {
      var s := OpenRaw(r.file, composed + len, SliceView(composed)).value;
      assert Valid(s);
      SeekSpec(s, 0);
    }
  }

  /** A slice of a slice is the slice of the parent at the summed offset:
      it exists exactly when the inner window lies inside the outer one. */
  lemma SliceTwice(r: Reader, off1: int, len1: int, off2: int, len2: int)
    requires Valid(r) && Slice(Corrected, r, off1, len1).Ok?
    ensures var s := Slice(Corrected, r, off1, len1).value;
            && (Slice(Corrected, s, off2, len2).Ok? <==> 0 <= off2 && 0 <= len2 && off2 + len2 <= len1)
            && (Slice(Corrected, s, off2, len2).Ok? ==>
                  Slice(Corrected, s, off2, len2) == Slice(Corrected, r, off1 + off2, len2))
  {
    var s := Slice(Corrected, r, off1, len1).value;
    assert s.file == r.file && Offset(s) == Offset(r) + off1;
    assert s.length == Offset(r) + off1 + len1 <= r.length;
  }

  /** Reading a fresh slice byte by byte delivers the file's bytes from the
      slice's start, up to its length, in both variants. */
  lemma SliceReads(r: Reader, off: int, len: int, n: nat)
    requires Valid(r) && Slice(Corrected, r, off, len).Ok? && n <= len
    ensures var s := Slice(Corrected, r, off, len).value;
            var a := Offset(r) + off;
            && Valid(s) && 0 <= a && a + n <= |Flatten(r.file.buffers)|
            && ReadAll(Corrected, s, n).Ok? && ReadAll(Corrected, s, n).value.bytes == Flatten(r.file.buffers)[a..a + n]
    ensures var s := Slice(Corrected, r, off, len).value;
            Slice(AsWritten, r, off, len) == Slice(Corrected, r, off, len)
            && ReadAll(AsWritten, s, n) == ReadAll(Corrected, s, n)
  {
    SliceSpec(r, off, len);
    var s := Slice(Corrected, r, off, len).value;
    FileLength(r);
    ReadAllSpec(s, n);
    if n == 0 {
      assert ReadAll(Corrected, s, 0) == Ok(Run([], s));
    }
  }

  /** `seek` then `readByte`, on the base reader or a slice: the byte at the
      position when it is below the length, EndOfFile at the length. */
  lemma SeekThenRead(r: Reader, pos: int)
    requires Valid(r) && 0 <= pos <= Length(r)
    ensures var t := Seek(Corrected, r, pos).value;
            var b := ReadByte(Corrected, t);
            && Readable(t)
            && (b.Ok? <==> pos < Length(r))
            && (b.Err? ==> b.error == EndOfFile)
            && (b.Ok? ==> && Offset(r) + pos < |Flatten(r.file.buffers)|
                          && b.value.value == Flatten(r.file.buffers)[Offset(r) + pos])
  {
    SeekSpec(r, pos);
    ReadByteSpec(Seek(Corrected, r, pos).value);
  }

  // ---------------------------------------------------------------------
  // The code as written, on inputs where it departs from the corrected
  // reader.

  /** A file of one full chunk c, all of it content. */
  function OneChunk(c: seq<Byte>): HFile
  {
    HFile([c], BUFFER_SIZE, BUFFER_SIZE, false)
  }

  /** A reader on OneChunk(c) that has read its first byte. */
  function AfterFirstByte(c: seq<Byte>): Reader
  {
    Reader(OneChunk(c), BUFFER_SIZE, Some(c), 0, 1, 0, BUFFER_SIZE, Base)
  }

  /** AfterFirstByte(c) after a seek to the length: the forced-end state,
      with `readable` left as the readable count. */
  function SoughtToEnd(c: seq<Byte>, readable: int): Reader
  {
    AfterFirstByte(c).(bufferPosition := 0, bufferStart := BUFFER_SIZE, bufferLength := readable)
  }

  /** On a one-chunk file, after reading a byte, a seek to the length (a
      multiple of the chunk size) takes the forced-end branch, which keeps
      the old readable count: the next `readByte` returns the chunk's first
      byte again instead of failing. The corrected switch clears the count,
      and the read fails. A `readBytes` of up to a chunk's worth from there
      likewise copies the stale chunk's first bytes in one round and
      returns normally, where the corrected round fails. */
  lemma StaleReadAfterSeek(c: seq<Byte>)
    requires |c| == BUFFER_SIZE
    ensures Open(OneChunk(c)).Ok?
    ensures ReadByte(AsWritten, Open(OneChunk(c)).value) == Ok(ByteRead(c[0], AfterFirstByte(c)))
    ensures ReadByte(Corrected, Open(OneChunk(c)).value) == Ok(ByteRead(c[0], AfterFirstByte(c)))
    ensures RawSeek(AsWritten, AfterFirstByte(c), BUFFER_SIZE) == Ok(SoughtToEnd(c, BUFFER_SIZE))
    ensures FilePointer(SoughtToEnd(c, BUFFER_SIZE)) == Length(SoughtToEnd(c, BUFFER_SIZE))
    ensures ReadByte(AsWritten, SoughtToEnd(c, BUFFER_SIZE))
         == Ok(ByteRead(c[0], SoughtToEnd(c, BUFFER_SIZE).(bufferPosition := 1)))
    ensures RawSeek(Corrected, AfterFirstByte(c), BUFFER_SIZE) == Ok(SoughtToEnd(c, 0))
    ensures ReadByte(Corrected, SoughtToEnd(c, 0)) == Err(EndOfFile)
    ensures forall n :: 0 < n <= BUFFER_SIZE ==>
              && Round(AsWritten, SoughtToEnd(c, BUFFER_SIZE), n)
                 == Ok(Run(c[..n], SoughtToEnd(c, BUFFER_SIZE).(bufferPosition := n)))
              && Round(Corrected, SoughtToEnd(c, 0), n) == Err(EndOfFile)
  {
    var r0 := Reader(OneChunk(c), BUFFER_SIZE, None, -1, 0, 0, 0, Base);
    assert Open(OneChunk(c)) == Ok(r0);
    assert SwitchCurrentBuffer(AsWritten, r0.(currentBufferIndex := 0), true)
        == Ok(AfterFirstByte(c).(bufferPosition := 0));
    assert SwitchCurrentBuffer(Corrected, r0.(currentBufferIndex := 0), true)
        == Ok(AfterFirstByte(c).(bufferPosition := 0));
    assert Int32(BUFFER_SIZE / BUFFER_SIZE) == 1;
    assert SwitchCurrentBuffer(Corrected, SoughtToEnd(c, 0).(currentBufferIndex := 1), true) == Err(EndOfFile);
  }

  /** A file of two full chunks c0 and c1, all of it content. */
  function TwoChunks(c0: seq<Byte>, c1: seq<Byte>): HFile
  {
    HFile([c0, c1], 2 * BUFFER_SIZE, 2 * BUFFER_SIZE, false)
  }

  /** The slice of the first 10 bytes of TwoChunks(c0, c1), with c0 loaded. */
  function FirstTen(c0: seq<Byte>, c1: seq<Byte>): Reader
  {
    Reader(TwoChunks(c0, c1), 10, Some(c0), 0, 0, 0, 10, SliceView(0))
  }

  /** A slice of the first 10 bytes of a two-chunk file, positioned at its
      end: the switch only asks whether another chunk exists, so `readByte`
      returns the first byte of the second chunk, past the slice. The
      corrected switch also checks the chunk's start against the length and
      fails. `readBytes(b, 0, 11)` on the fresh slice copies its 10 bytes in
      a first round; the next round as written loads the second chunk with
      a readable count of 10 - 1024, and `System.arraycopy` refuses that
      negative count with IndexOutOfBounds, where the corrected round fails
      with EndOfFile. */
  lemma ReadPastSliceEnd(c0: seq<Byte>, c1: seq<Byte>)
    requires |c0| == BUFFER_SIZE && |c1| == BUFFER_SIZE
    ensures Open(TwoChunks(c0, c1)).Ok?
    ensures Slice(AsWritten, Open(TwoChunks(c0, c1)).value, 0, 10) == Ok(FirstTen(c0, c1))
    ensures Slice(Corrected, Open(TwoChunks(c0, c1)).value, 0, 10) == Ok(FirstTen(c0, c1))
    ensures Seek(AsWritten, FirstTen(c0, c1), 10) == Ok(FirstTen(c0, c1).(bufferPosition := 10))
    ensures Seek(Corrected, FirstTen(c0, c1), 10) == Ok(FirstTen(c0, c1).(bufferPosition := 10))
    ensures FilePointer(FirstTen(c0, c1).(bufferPosition := 10)) == Length(FirstTen(c0, c1)) == 10
    ensures ReadByte(AsWritten, FirstTen(c0, c1).(bufferPosition := 10)).Ok?
    ensures ReadByte(AsWritten, FirstTen(c0, c1).(bufferPosition := 10)).value.value == c1[0]
    ensures ReadByte(Corrected, FirstTen(c0, c1).(bufferPosition := 10)) == Err(EndOfFile)
    ensures Round(AsWritten, FirstTen(c0, c1), 11) == Ok(Run(c0[..10], FirstTen(c0, c1).(bufferPosition := 10)))
    ensures Round(Corrected, FirstTen(c0, c1), 11) == Ok(Run(c0[..10], FirstTen(c0, c1).(bufferPosition := 10)))
    ensures Round(AsWritten, FirstTen(c0, c1).(bufferPosition := 10), 1) == Err(IndexOutOfBounds)
    ensures Round(Corrected, FirstTen(c0, c1).(bufferPosition := 10), 1) == Err(EndOfFile)
  {
    var f := TwoChunks(c0, c1);
    var r := Reader(f, 2 * BUFFER_SIZE, None, -1, 0, 0, 0, Base);
    assert Open(f) == Ok(r);
    var s0 := Reader(f, 10, None, -1, 0, 0, 0, SliceView(0));
    assert OpenRaw(f, 10, SliceView(0)) == Ok(s0);
    assert Int32(0 / BUFFER_SIZE) == 0;
    assert SwitchCurrentBuffer(AsWritten, s0.(currentBufferIndex := 0), false) == Ok(FirstTen(c0, c1));
    assert SwitchCurrentBuffer(Corrected, s0.(currentBufferIndex := 0), false) == Ok(FirstTen(c0, c1));
    var w := FirstTen(c0, c1).(bufferPosition := 10);
    var t := Reader(f, 10, Some(c1), 1, 0, BUFFER_SIZE, 10 - BUFFER_SIZE, SliceView(0));
    assert SwitchCurrentBuffer(AsWritten, w.(currentBufferIndex := 1), true) == Ok(t);
    assert SwitchCurrentBuffer(Corrected, w.(currentBufferIndex := 1), true) == Err(EndOfFile);
  }

  /** A nested slice with a negative offset that the parent's offset
      absorbs passes the bounds check and starts before its parent. The
      corrected slice refuses it. */
  lemma NegativeNestedSlice(c: seq<Byte>)
    requires |c| == BUFFER_SIZE
    ensures var f := HFile([c], 20, BUFFER_SIZE, false);
            && Open(f).Ok?
            && Slice(AsWritten, Open(f).value, 10, 10).Ok?
            && Slice(Corrected, Open(f).value, 10, 10) == Slice(AsWritten, Open(f).value, 10, 10)
    ensures var s := Slice(AsWritten, Open(HFile([c], 20, BUFFER_SIZE, false)).value, 10, 10).value;
            && Offset(s) == 10 && Length(s) == 10
            && Slice(AsWritten, s, -5, 5).Ok?
            && Offset(Slice(AsWritten, s, -5, 5).value) == 5
            && Slice(Corrected, s, -5, 5) == Err(IllegalArgument)
  {
    var f := HFile([c], 20, BUFFER_SIZE, false);
    var r := Reader(f, 20, None, -1, 0, 0, 0, Base);
    assert Open(f) == Ok(r);
    var s := Slice(AsWritten, r, 10, 10).value;
    assert Offset(s) == 10 && s.length == 20;
  }
}
