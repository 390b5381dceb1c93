/**
  Shared vocabulary of the chunked-file model: Java bytes, the fixed chunk
  size, the error conditions the streams and the directory raise, and the
  view of a chunk list as one flat byte sequence.
 */
module Bytes {

  /** Every chunk a writer allocates holds exactly this many bytes. */
  const BUFFER_SIZE: nat := 1024

  /** Integer.MAX_VALUE, the bound on a reader's chunk index. */
  const INT_MAX: int := 0x7FFF_FFFF

  /** A Java `byte`: a signed 8-bit value. */
  type Byte = b: int | -128 <= b < 128

  /** The exceptions the modelled code throws, one constructor per kind. */
  datatype Error =
    | FileNotFound(name: string)   // java.io.FileNotFoundException
    | EndOfFile                    // java.io.EOFException
    | IllegalArgument              // IllegalArgumentException (slice bounds, negative seek)
    | AlreadyClosed                // ensureOpen() on a closed directory
    | TooLarge                     // the IOException of a reader whose length has too many chunks
    | IndexOutOfBounds             // an array index or System.arraycopy range outside the array

  datatype Result<+T> = Ok(value: T) | Err(error: Error)

  datatype Option<+T> = None | Some(value: T)

  /** A freshly allocated Java array: every element is zero. */
  function Zeros(n: nat): (z: seq<Byte>)
    ensures |z| == n
    ensures forall i :: 0 <= i < n ==> z[i] == 0
  {
    seq(n, _ => 0)
  }

  /** The bytes of a chunk list, in order, each chunk at full size. */
  function Flatten(bufs: seq<seq<Byte>>): seq<Byte>
  {
    if |bufs| == 0 then [] else bufs[0] + Flatten(bufs[1..])
  }

  /** Every chunk holds exactly BUFFER_SIZE bytes. */
  predicate AllFull(bufs: seq<seq<Byte>>)
  {
    forall i :: 0 <= i < |bufs| ==> |bufs[i]| == BUFFER_SIZE
  }

  /** Number of chunks needed for n bytes: ceil(n / BUFFER_SIZE). */
  function ChunksFor(n: nat): (k: nat)
    ensures BUFFER_SIZE * k >= n
    ensures k == 0 || BUFFER_SIZE * (k - 1) < n
  {
    (n + BUFFER_SIZE - 1) / BUFFER_SIZE
  }

  /** The zero bytes that fill the last chunk after n bytes of content. */
  function Padding(n: nat): (p: nat)
    ensures n + p == BUFFER_SIZE * ChunksFor(n)
    ensures p < BUFFER_SIZE
    ensures (n + p) % BUFFER_SIZE == 0
  {
    BUFFER_SIZE * ChunksFor(n) - n
  }

  /** Splits a sequence whose length is a multiple of BUFFER_SIZE into chunks. */
  function Chunk(s: seq<Byte>): (bufs: seq<seq<Byte>>)
    requires |s| % BUFFER_SIZE == 0
    ensures AllFull(bufs)
    ensures BUFFER_SIZE * |bufs| == |s|
    decreases |s|
  {
    if |s| == 0 then [] else [s[..BUFFER_SIZE]] + Chunk(s[BUFFER_SIZE..])
  }

  lemma {:induction false} FlattenAppend(bufs: seq<seq<Byte>>, b: seq<Byte>)
    ensures Flatten(bufs + [b]) == Flatten(bufs) + b
    decreases |bufs|
  {
    if |bufs| == 0 {
      assert bufs + [b] == [b];
    } else {
      assert (bufs + [b])[1..] == bufs[1..] + [b];
      FlattenAppend(bufs[1..], b);
    }
  }

  lemma {:induction false} FlattenLength(bufs: seq<seq<Byte>>)
    requires AllFull(bufs)
    ensures |Flatten(bufs)| == BUFFER_SIZE * |bufs|
    decreases |bufs|
  {
    if |bufs| > 0 {
      FlattenLength(bufs[1..]);
    }
  }

  /** Byte j of chunk i sits at flat position i * BUFFER_SIZE + j. */
  lemma {:induction false} FlattenIndex(bufs: seq<seq<Byte>>, i: nat, j: nat)
    requires AllFull(bufs)
    requires i < |bufs| && j < BUFFER_SIZE
    ensures BUFFER_SIZE * i + j < |Flatten(bufs)|
    ensures Flatten(bufs)[BUFFER_SIZE * i + j] == bufs[i][j]
    decreases i
  {
    FlattenLength(bufs);
    if i > 0 {
      FlattenIndex(bufs[1..], i - 1, j);
    }
  }

  /** The chunks before chunk i cover exactly the first i * BUFFER_SIZE flat bytes. */
  lemma {:induction false} FlattenSplit(bufs: seq<seq<Byte>>, i: nat)
    requires AllFull(bufs)
    requires i <= |bufs|
    ensures Flatten(bufs) == Flatten(bufs[..i]) + Flatten(bufs[i..])
    ensures |Flatten(bufs[..i])| == BUFFER_SIZE * i
    decreases i
  {
    if i == 0 {
      assert bufs[..0] == [];
      assert bufs[0..] == bufs;
    } else {
      FlattenSplit(bufs[1..], i - 1);
      assert bufs[1..][..i - 1] == bufs[1..i];
      assert bufs[1..][i - 1..] == bufs[i..];
      assert bufs[..i][1..] == bufs[1..i];
      assert AllFull(bufs[..i]);
      FlattenLength(bufs[..i]);
    }
  }

  /** Replacing chunk i by a full chunk x replaces the matching flat window. */
  lemma FlattenUpdate(bufs: seq<seq<Byte>>, i: nat, x: seq<Byte>)
    requires AllFull(bufs)
    requires i < |bufs| && |x| == BUFFER_SIZE
    ensures AllFull(bufs[i := x])
    ensures |Flatten(bufs)| == BUFFER_SIZE * |bufs|
    ensures Flatten(bufs[i := x])
         == Flatten(bufs)[..BUFFER_SIZE * i] + x + Flatten(bufs)[BUFFER_SIZE * (i + 1)..]
  {
    var nb := bufs[i := x];
    FlattenLength(bufs);
    FlattenSplit(bufs, i);
    FlattenSplit(nb, i);
    assert nb[..i] == bufs[..i];
    assert nb[i..] == [x] + bufs[i + 1..];
    assert bufs[i..] == [bufs[i]] + bufs[i + 1..];
    assert ([x] + bufs[i + 1..])[1..] == bufs[i + 1..];
    assert ([bufs[i]] + bufs[i + 1..])[1..] == bufs[i + 1..];
    var pre := Flatten(bufs[..i]);
    var post := Flatten(bufs[i + 1..]);
    assert Flatten(bufs) == pre + bufs[i] + post;
    assert Flatten(nb) == pre + x + post;
    assert Flatten(bufs)[..BUFFER_SIZE * i] == pre;
    assert Flatten(bufs)[BUFFER_SIZE * (i + 1)..] == post;
  }

  /** Chunk i occupies flat positions i * BUFFER_SIZE up to (i + 1) * BUFFER_SIZE. */
  lemma FlattenChunk(bufs: seq<seq<Byte>>, i: nat)
    requires AllFull(bufs)
    requires i < |bufs|
    ensures |Flatten(bufs)| == BUFFER_SIZE * |bufs|
    ensures Flatten(bufs)[BUFFER_SIZE * i..BUFFER_SIZE * (i + 1)] == bufs[i]
  {
    FlattenLength(bufs);
    FlattenSplit(bufs, i);
    assert bufs[i..] == [bufs[i]] + bufs[i + 1..];
    assert ([bufs[i]] + bufs[i + 1..])[1..] == bufs[i + 1..];
    assert Flatten(bufs[i..]) == bufs[i] + Flatten(bufs[i + 1..]);
  }

  /** Updating a position inside the middle part of a concatenation. */
  lemma UpdateMiddle(a: seq<Byte>, x: seq<Byte>, c: seq<Byte>, j: nat, b: Byte)
    requires j < |x|
    ensures (a + x + c)[|a| + j := b] == a + x[j := b] + c
  {
  }

  /** Chunking undoes flattening for lists of full chunks. */
  lemma {:induction false} ChunkFlatten(bufs: seq<seq<Byte>>)
    requires AllFull(bufs)
    ensures |Flatten(bufs)| % BUFFER_SIZE == 0
    ensures Chunk(Flatten(bufs)) == bufs
    decreases |bufs|
  {
    FlattenLength(bufs);
    if |bufs| > 0 {
      var f := Flatten(bufs);
      assert f == bufs[0] + Flatten(bufs[1..]);
      assert f[..BUFFER_SIZE] == bufs[0];
      assert f[BUFFER_SIZE..] == Flatten(bufs[1..]);
      ChunkFlatten(bufs[1..]);
    }
  }

  /** `b & 0xFF` on a Java int: the low eight bits, always in 0..255. */
  function Mask(x: int): (u: int)
    ensures 0 <= u < 256
    ensures (x - u) % 256 == 0
  {
    x % 256
  }

  /** The `(byte)` cast of a value in 0..255: two's-complement reinterpretation. */
  function ToByte(u: int): (b: Byte)
    requires 0 <= u < 256
    ensures (u - b) % 256 == 0
  {
    if u >= 128 then u - 256 else u
  }

  /** The unsigned value 0..255 of a byte, as the checksum update takes it. */
  function Unsigned(b: Byte): (u: int)
    ensures 0 <= u < 256
    ensures (u - b) % 256 == 0
  {
    if b < 0 then b + 256 else b
  }

  /** `(byte) (x & 0xFF)` keeps exactly the low eight bits of any int: it
      yields b precisely for the ints congruent to b modulo 256, among them
      b itself and its unsigned value. */
  lemma LowByte(x: int, b: Byte)
    ensures ToByte(Mask(x)) == b <==> (x - b) % 256 == 0
    ensures ToByte(Mask(b)) == b && ToByte(Mask(Unsigned(b))) == b
  {
    var u := Mask(x);
    assert (x - ToByte(u)) % 256 == 0 by {
      assert x - ToByte(u) == (x - u) + (u - ToByte(u));
    }
  }
}
