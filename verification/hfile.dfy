/**
  The chunked virtual file: an ordered list of byte chunks, a logical length,
  an allocated-size counter and whether it belongs to a directory (whose
  aggregate counter it then charges on every allocation). The directory
  counter is passed in and handed back explicitly instead of being reached
  through a back-reference.
 */
module ChunkedFile {
  import opened Bytes

  /** `attached` stands for a non-null `directory` field. Length and size are
      never set negative by the code, so they are natural numbers here. */
  datatype HFile = HFile(buffers: seq<seq<Byte>>, length: nat, sizeInBytes: nat, attached: bool)

  /** A file together with the owning directory's byte counter. */
  datatype Allocation = Allocation(file: HFile, counter: int)

  /** Sum of the chunk sizes. */
  function SumSizes(bufs: seq<seq<Byte>>): nat
  {
    if |bufs| == 0 then 0 else SumSizes(bufs[..|bufs| - 1]) + |bufs[|bufs| - 1]|
  }

  /** The allocated-size counter agrees with the chunks actually held. */
  predicate Accounted(f: HFile)
  {
    f.sizeInBytes == SumSizes(f.buffers)
  }

  /** The constructors: no chunks, length 0, nothing allocated. */
  function NewFile(attached: bool): (f: HFile)
    ensures f.buffers == [] && f.length == 0 && f.sizeInBytes == 0
    ensures f.attached == attached
    ensures Accounted(f)
  {
    HFile([], 0, 0, attached)
  }

  function GetLength(f: HFile): nat
  {
    f.length
  }

  /** Sets the logical length; nothing else about the file changes. */
  function SetLength(f: HFile, n: nat): (r: HFile)
    ensures GetLength(r) == n
    ensures r.buffers == f.buffers && r.sizeInBytes == f.sizeInBytes && r.attached == f.attached
  {
    f.(length := n)
  }

  /** Appends one zero-filled chunk of `size` bytes, raises the file's size
      by `size`, and charges the directory counter when the file is attached. */
  function AddBuffer(f: HFile, size: nat, counter: int): (r: Allocation)
    ensures |r.file.buffers| == |f.buffers| + 1
    ensures r.file.buffers[..|f.buffers|] == f.buffers
    ensures r.file.buffers[|f.buffers|] == Zeros(size)
    ensures r.file.sizeInBytes == f.sizeInBytes + size
    ensures r.file.length == f.length && r.file.attached == f.attached
    ensures r.counter == counter + size <==> f.attached || size == 0
    ensures !f.attached ==> r.counter == counter
    ensures Accounted(f) ==> Accounted(r.file)
  {
    var bufs := f.buffers + [Zeros(size)];
    assert bufs[..|bufs| - 1] == f.buffers;
    Allocation(f.(buffers := bufs, sizeInBytes := f.sizeInBytes + size),
               if f.attached then counter + size else counter)
  }

  function GetBuffer(f: HFile, i: nat): seq<Byte>
    requires i < |f.buffers|
  {
    f.buffers[i]
  }

  function NumBuffers(f: HFile): nat
  {
    |f.buffers|
  }

  function RamBytesUsed(f: HFile): nat
  {
    f.sizeInBytes
  }

  /** Files built by the constructor and AddBuffer report as used exactly
      the bytes of their chunks. */
  lemma {:induction false} RamBytesUsedAfterAdds(attached: bool, sizes: seq<nat>, counter: int)
    ensures var a := AddAll(NewFile(attached), sizes, counter);
            RamBytesUsed(a.file) == SumSizes(a.file.buffers)
            && NumBuffers(a.file) == |sizes|
            && (forall i :: 0 <= i < |sizes| ==> |GetBuffer(a.file, i)| == sizes[i])
    decreases |sizes|
  {
    if |sizes| > 0 {
      var init := sizes[..|sizes| - 1];
      RamBytesUsedAfterAdds(attached, init, counter);
      var a0 := AddAll(NewFile(attached), init, counter);
      var a := AddBuffer(a0.file, sizes[|sizes| - 1], a0.counter);
      assert AddAll(NewFile(attached), sizes, counter) == a;
      forall i | 0 <= i < |sizes|
        ensures |a.file.buffers[i]| == sizes[i]
      {
        if i < |init| {
          assert a.file.buffers[i] == a0.file.buffers[i];
          assert sizes[i] == init[i];
        }
      }
    }
  }

  /** A sequence of AddBuffer calls. */
  function AddAll(f: HFile, sizes: seq<nat>, counter: int): Allocation
    decreases |sizes|
  {
    if |sizes| == 0 then Allocation(f, counter)
    else
      var a := AddAll(f, sizes[..|sizes| - 1], counter);
      AddBuffer(a.file, sizes[|sizes| - 1], a.counter)
  }

  /** `equals`: compares the lengths, the chunk counts, then the chunks
      pairwise, the way the loop in the source does. */
  function Equals(a: HFile, b: HFile): (r: bool)
    ensures r <==> a.length == b.length && a.buffers == b.buffers
  {
    a.length == b.length && |a.buffers| == |b.buffers| && BuffersEqualFrom(a.buffers, b.buffers, 0)
  }

  /** The comparison loop from chunk i on. */
  function BuffersEqualFrom(x: seq<seq<Byte>>, y: seq<seq<Byte>>, i: nat): (r: bool)
    requires |x| == |y| && i <= |x|
    ensures r <==> x[i..] == y[i..]
    decreases |x| - i
  {
    if i == |x| then true
    else if x[i] != y[i] then false
    else
      var rest := BuffersEqualFrom(x, y, i + 1);
      assert x[i..] == [x[i]] + x[i + 1..];
      assert y[i..] == [y[i]] + y[i + 1..];
      rest
  }

  lemma EqualsReflexive(a: HFile)
    ensures Equals(a, a)
  {
  }

  lemma EqualsSymmetric(a: HFile, b: HFile)
    ensures Equals(a, b) <==> Equals(b, a)
  {
  }

  /** Java `int` arithmetic: wraps a mathematical integer into 32 bits. */
  function Int32(x: int): (r: int)
    ensures -0x8000_0000 <= r < 0x8000_0000
    ensures (x - r) % 0x1_0000_0000 == 0
  {
    ((x + 0x8000_0000) % 0x1_0000_0000) - 0x8000_0000
  }

  /** `(int) (length ^ (length >>> 32))` for a non-negative long. */
  function LongHash(length: nat): (h: int)
    ensures -0x8000_0000 <= h < 0x8000_0000
  {
    var v := (length % 0x1_0000_0000_0000_0000) as bv64;
    Int32(((v ^ (v >> 32)) & 0xFFFF_FFFF) as int)
  }

  /** `Arrays.hashCode(byte[])`: starts at 1, then 31 * h + element, in int arithmetic. */
  function ArrayHash(b: seq<Byte>): (h: int)
    ensures -0x8000_0000 <= h < 0x8000_0000
    ensures |b| == 0 ==> h == 1
  {
    if |b| == 0 then 1 else Int32(31 * ArrayHash(b[..|b| - 1]) + b[|b| - 1])
  }

  /** The value `Arrays.hashCode` documents for an array of n bytes, without
      overflow: 31^n plus each byte times 31 to the number of bytes after
      it, written in Horner form. */
  function HashPolynomial(b: seq<Byte>): int
  {
    if |b| == 0 then 1 else 31 * HashPolynomial(b[..|b| - 1]) + b[|b| - 1]
  }

  /** Numbers that agree modulo 2^32 wrap to the same int. */
  lemma Int32Congruent(x: int, y: int)
    requires (x - y) % 0x1_0000_0000 == 0
    ensures Int32(x) == Int32(y)
  {
    var k := (x - y) / 0x1_0000_0000;
    assert x == y + k * 0x1_0000_0000;
    Int32Shift(y, k);
  }

  /** Adding a multiple of 2^32 does not change the wrapped value. */
  lemma Int32Shift(y: int, k: int)
    ensures Int32(y + k * 0x1_0000_0000) == Int32(y)
  {
    assert (y + k * 0x1_0000_0000) + 0x8000_0000 == (y + 0x8000_0000) + k * 0x1_0000_0000;
    ModShift(y + 0x8000_0000, k);
  }

  /** Adding a multiple of 2^32 does not change the remainder. */
  lemma {:induction false} ModShift(a: int, k: int)
    ensures (a + k * 0x1_0000_0000) % 0x1_0000_0000 == a % 0x1_0000_0000
    decreases if k < 0 then -k else k
  {
    if k > 0 {
      ModShift(a, k - 1);
      assert a + k * 0x1_0000_0000 == (a + (k - 1) * 0x1_0000_0000) + 0x1_0000_0000;
    } else if k < 0 {
      ModShift(a, k + 1);
      assert a + k * 0x1_0000_0000 == (a + (k + 1) * 0x1_0000_0000) - 0x1_0000_0000;
    }
  }

  /** One step of `31 * h + e` commutes with the wrap into an int. */
  lemma WrapStep(p: int, e: int)
    ensures Int32(31 * Int32(p) + e) == Int32(31 * p + e)
  {
    var q := Int32(p);
    var d := (p - q) / 0x1_0000_0000;
    assert p == q + d * 0x1_0000_0000;
    assert 31 * p + e == (31 * q + e) + (31 * d) * 0x1_0000_0000;
    Int32Shift(31 * q + e, 31 * d);
  }

  /** The int arithmetic of `Arrays.hashCode` computes the documented
      polynomial wrapped once into 32 bits: wrapping at every step and
      wrapping at the end agree. */
  lemma {:induction false} ArrayHashExact(b: seq<Byte>)
    ensures ArrayHash(b) == Int32(HashPolynomial(b))
    decreases |b|
  {
    if |b| > 0 {
      var front := b[..|b| - 1];
      ArrayHashExact(front);
      WrapStep(HashPolynomial(front), b[|b| - 1]);
    }
  }

  /** The loop over the chunks in `hashCode`, from the seed h. */
  function HashChunks(h: int, bufs: seq<seq<Byte>>): (r: int)
    ensures |bufs| > 0 ==> -0x8000_0000 <= r < 0x8000_0000
    ensures |bufs| == 0 ==> r == h
  {
    if |bufs| == 0 then h else Int32(31 * HashChunks(h, bufs[..|bufs| - 1]) + ArrayHash(bufs[|bufs| - 1]))
  }

  /** `hashCode`: the length's hash, then 31 * h plus each chunk's array
      hash, in int arithmetic. A file with no chunks hashes as its
      length. */
  function HashCode(f: HFile): (h: int)
    ensures -0x8000_0000 <= h < 0x8000_0000
    ensures f.buffers == [] ==> h == LongHash(f.length)
  {
    HashChunks(LongHash(f.length), f.buffers)
  }

  /** Equal files hash alike: the hash reads only the length and the chunk contents. */
  lemma HashCodeRespectsEquals(a: HFile, b: HFile)
    requires Equals(a, b)
    ensures HashCode(a) == HashCode(b)
  {
  }

  /** `writeData`: two longs, then the chunk list as its size followed by each
      array as its length and its elements. */
  function WriteData(f: HFile): (tokens: seq<int>)
    ensures |tokens| >= 3 && tokens[0] == f.length && tokens[1] == f.sizeInBytes
  {
    [f.length, f.sizeInBytes] + EncodeList(f.buffers)
  }

  function EncodeList(bufs: seq<seq<Byte>>): seq<int>
  {
    [|bufs|] + EncodeArrays(bufs)
  }

  function EncodeArrays(bufs: seq<seq<Byte>>): seq<int>
  {
    if |bufs| == 0 then [] else [|bufs[0]|] + bufs[0] + EncodeArrays(bufs[1..])
  }

  /** `readData`: restores length, size and chunks in the order they were
      written; the directory reference is not part of the stream. Returns None
      on a malformed or truncated stream. */
  function ReadData(tokens: seq<int>): (r: Option<HFile>)
    ensures r.Some? ==> !r.value.attached
  {
    if |tokens| < 3 || tokens[0] < 0 || tokens[1] < 0 || tokens[2] < 0 then None
    else match DecodeArrays(tokens[3..], tokens[2])
      case None => None
      case Some((bufs, rest)) =>
        if rest != [] then None else Some(HFile(bufs, tokens[0], tokens[1], false))
  }

  predicate AllBytes(s: seq<int>)
  {
    forall i :: 0 <= i < |s| ==> -128 <= s[i] < 128
  }

  /** Reads integer tokens as bytes. */
  function Narrow(s: seq<int>): (r: seq<Byte>)
    requires AllBytes(s)
    ensures |r| == |s| && forall i :: 0 <= i < |s| ==> r[i] == s[i]
  {
    seq(|s|, i requires 0 <= i < |s| => s[i])
  }

  /** Decodes `count` arrays from the front of the stream, returning them and the rest. */
  function DecodeArrays(tokens: seq<int>, count: nat): (r: Option<(seq<seq<Byte>>, seq<int>)>)
    ensures r.Some? ==> |r.value.0| == count
    decreases count
  {
    if count == 0 then Some(([], tokens))
    else if |tokens| == 0 || tokens[0] < 0 || tokens[0] > |tokens| - 1 then None
    else
      var n: nat := tokens[0];
      var body := tokens[1..1 + n];
      if !AllBytes(body) then None
      else
        var more := DecodeArrays(tokens[1 + n..], count - 1);
        if more.None? then None else Some(([Narrow(body)] + more.value.0, more.value.1))
  }

  lemma {:induction false} DecodeEncodeArrays(bufs: seq<seq<Byte>>, rest: seq<int>)
    ensures DecodeArrays(EncodeArrays(bufs) + rest, |bufs|) == Some((bufs, rest))
    decreases |bufs|
  {
    if |bufs| > 0 {
      var b := bufs[0];
      var tail := EncodeArrays(bufs[1..]) + rest;
      var t := EncodeArrays(bufs) + rest;
      assert t == [|b|] + b + tail;
      assert t[1..1 + |b|] == b;
      assert t[1 + |b|..] == tail;
      assert t[0] == |b| && |t| - 1 >= |b|;
      assert AllBytes(t[1..1 + |b|]);
      DecodeEncodeArrays(bufs[1..], rest);
      assert Narrow(t[1..1 + |b|]) == b;
      assert DecodeArrays(tail, |bufs| - 1) == Some((bufs[1..], rest));
      assert DecodeArrays(t, |bufs|) == Some(([b] + bufs[1..], rest));
      assert [b] + bufs[1..] == bufs;
    } else {
      assert EncodeArrays(bufs) + rest == rest;
    }
  }

  /** What the shared map hands back for a stored file: same chunks, length
      and size, no directory. */
  function Snapshot(f: HFile): HFile
  {
    f.(attached := false)
  }

  /** readData restores exactly what writeData emitted: the result is equal
      to the original and detached. */
  lemma WriteReadRoundTrip(f: HFile)
    ensures ReadData(WriteData(f)) == Some(Snapshot(f))
    ensures Equals(Snapshot(f), f) && !Snapshot(f).attached
  {
    var t := WriteData(f);
    assert t[3..] == EncodeArrays(f.buffers) + [];
    DecodeEncodeArrays(f.buffers, []);
  }
}
