/**
  CRC-32 as java.util.zip.CRC32 computes it (the reflected ISO-HDLC
  polynomial 0xEDB88320, register preset to all ones, result inverted),
  written bit by bit. The writer keeps only the running register, exactly as
  the Java checksum object does; `Fold` describes what that register holds
  after a sequence of updates.
 */
module Crc32 {
  import opened Bytes

  const POLY: bv32 := 0xEDB8_8320
  const INIT: bv32 := 0xFFFF_FFFF

  /** k rounds of the shift-and-conditionally-xor step. */
  function Shift(c: bv32, k: nat): bv32
    decreases k
  {
    if k == 0 then c
    else Shift(if c & 1 == 1 then (c >> 1) ^ POLY else c >> 1, k - 1)
  }

  /** Feeds one byte (its low eight bits) into the register. */
  function UpdateByte(c: bv32, b: Byte): bv32
  {
    Shift(c ^ (Unsigned(b) as bv32), 8)
  }

  /** The register after feeding the bytes of bs, first to last. */
  function Fold(c: bv32, bs: seq<Byte>): bv32
    decreases |bs|
  {
    if |bs| == 0 then c else Fold(UpdateByte(c, bs[0]), bs[1..])
  }

  /** `getValue()`: the inverted register as a non-negative long. */
  function Value(c: bv32): (v: nat)
    ensures v < 0x1_0000_0000
  {
    (c ^ INIT) as nat
  }

  /** The CRC-32 of a byte sequence. */
  function Checksum(bs: seq<Byte>): (v: nat)
    ensures v < 0x1_0000_0000
  {
    Value(Fold(INIT, bs))
  }

  /** Updating over a span gives the same register as updating byte by byte. */
  lemma {:induction false} FoldAppend(c: bv32, a: seq<Byte>, b: seq<Byte>)
    ensures Fold(c, a + b) == Fold(Fold(c, a), b)
    decreases |a|
  {
    if |a| == 0 {
      assert a + b == b;
    } else {
      assert (a + b)[0] == a[0];
      assert (a + b)[1..] == a[1..] + b;
      FoldAppend(UpdateByte(c, a[0]), a[1..], b);
    }
  }
}
