/**
  The disk mirror of the shared map: one disk entry per key holding the raw
  bytes of a file. Storing writes every chunk in order at full size;
  loading feeds the bytes through a writer on a fresh detached file, one
  `writeByte` per byte, and never flushes. The disk is a map from key to
  bytes; paths, existence checks and the wrapping of I/O errors are not
  part of this model.
 */
module MapStore {
  import opened Bytes
  import opened ChunkedFile
  import OutputStream

  type Disk = map<string, seq<Byte>>

  /** `store`: the entry is replaced by the concatenation of all chunks,
      each at full size, regardless of the file's length. */
  function Store(disk: Disk, key: string, f: HFile): (r: Disk)
    ensures r.Keys == disk.Keys + {key}
    ensures forall k :: k in disk && k != key ==> r[k] == disk[k]
  {
    disk[key := Flatten(f.buffers)]
  }

  /** The stored entry of a file of full chunks holds BUFFER_SIZE bytes per
      chunk, byte j of chunk i at position i * BUFFER_SIZE + j, and cutting
      it into chunks gives the file's chunks back. */
  lemma StoredBytes(disk: Disk, key: string, f: HFile, i: nat, j: nat)
    requires AllFull(f.buffers)
    ensures |Store(disk, key, f)[key]| == BUFFER_SIZE * |f.buffers|
    ensures Chunk(Store(disk, key, f)[key]) == f.buffers
    ensures i < |f.buffers| && j < BUFFER_SIZE ==>
              BUFFER_SIZE * i + j < |Store(disk, key, f)[key]|
              && Store(disk, key, f)[key][BUFFER_SIZE * i + j] == f.buffers[i][j]
  {
    FlattenLength(f.buffers);
    ChunkFlatten(f.buffers);
    if i < |f.buffers| && j < BUFFER_SIZE {
      FlattenIndex(f.buffers, i, j);
    }
  }

  /** `store` for each listed key in turn. */
  function StoreEach(disk: Disk, m: map<string, HFile>, keys: seq<string>): (r: Disk)
    requires forall i :: 0 <= i < |keys| ==> keys[i] in m
    ensures r.Keys == disk.Keys + (set i | 0 <= i < |keys| :: keys[i])
    decreases |keys|
  {
    if |keys| == 0 then disk
    else
      var rest := keys[1..];
      assert forall i :: 0 <= i < |rest| ==> rest[i] == keys[i + 1];
      assert (set i | 0 <= i < |keys| :: keys[i]) == {keys[0]} + (set i | 0 <= i < |rest| :: rest[i]);
      StoreEach(Store(disk, keys[0], m[keys[0]]), m, rest)
  }

  /** After storing each listed key, a listed key holds its file's chunk
      bytes, and every other entry is as it was. */
  lemma {:induction false} StoreEachEffect(disk: Disk, m: map<string, HFile>, keys: seq<string>, k: string)
    requires forall i :: 0 <= i < |keys| ==> keys[i] in m
    ensures k in keys ==> k in StoreEach(disk, m, keys) && StoreEach(disk, m, keys)[k] == Flatten(m[k].buffers)
    ensures k !in keys && k in disk ==> k in StoreEach(disk, m, keys) && StoreEach(disk, m, keys)[k] == disk[k]
    decreases |keys|
  {
    if |keys| > 0 {
      var rest := keys[1..];
      StoreEachEffect(Store(disk, keys[0], m[keys[0]]), m, rest, k);
      assert k in keys <==> k == keys[0] || k in rest;
    }
  }

  /** `storeAll`: `store` for every entry of the map, in the order `keys`
      lists them (the iteration order of the entry set). */
  function StoreAll(disk: Disk, m: map<string, HFile>, keys: seq<string>): (r: Disk)
    requires forall i :: 0 <= i < |keys| ==> keys[i] in m
    requires forall k :: k in m ==> k in keys
    ensures r.Keys == disk.Keys + m.Keys
  {
    assert (set i | 0 <= i < |keys| :: keys[i]) == m.Keys;
    StoreEach(disk, m, keys)
  }

  /** Storing every entry of a map, whatever the iteration order: each key
      of the map holds its file's chunk bytes, and every other entry is as
      it was. */
  lemma StoreAllEffect(disk: Disk, m: map<string, HFile>, keys: seq<string>, k: string)
    requires forall i :: 0 <= i < |keys| ==> keys[i] in m
    requires forall k :: k in m ==> k in keys
    ensures k in m ==> k in StoreAll(disk, m, keys) && StoreAll(disk, m, keys)[k] == Flatten(m[k].buffers)
    ensures k !in m && k in disk ==> k in StoreAll(disk, m, keys) && StoreAll(disk, m, keys)[k] == disk[k]
  {
    StoreEachEffect(disk, m, keys, k);
  }

  /** The order in which storeAll visits the entries does not matter: any
      two listings of the map's keys leave the same disk. */
  lemma StoreAllOrderIrrelevant(disk: Disk, m: map<string, HFile>, keys1: seq<string>, keys2: seq<string>)
    requires forall i :: 0 <= i < |keys1| ==> keys1[i] in m
    requires forall k :: k in m ==> k in keys1
    requires forall k :: k in keys1 <==> k in keys2
    ensures forall i :: 0 <= i < |keys2| ==> keys2[i] in m
    ensures forall k :: k in m ==> k in keys2
    ensures StoreAll(disk, m, keys1) == StoreAll(disk, m, keys2)
  {
    assert forall i :: 0 <= i < |keys2| ==> keys2[i] in keys1;
    var a := StoreAll(disk, m, keys1);
    var b := StoreAll(disk, m, keys2);
    forall k | k in a.Keys || k in b.Keys
      ensures k in a && k in b && a[k] == b[k]
    {
      StoreAllEffect(disk, m, keys1, k);
      StoreAllEffect(disk, m, keys2, k);
    }
    assert a.Keys == b.Keys;
  }

  /** `delete`: removes the entry if there is one. */
  function Delete(disk: Disk, key: string): (r: Disk)
    ensures key !in r
    ensures r.Keys == disk.Keys - {key}
    ensures forall k :: k in r ==> r[k] == disk[k]
  {
    disk - {key}
  }

  /** `deleteAll`: `delete` once per listed key. */
  function DeleteAll(disk: Disk, keys: seq<string>): (r: Disk)
    ensures forall k :: k in r ==> k in disk && r[k] == disk[k]
    decreases |keys|
  {
    if |keys| == 0 then disk else DeleteAll(Delete(disk, keys[0]), keys[1..])
  }

  /** After deleteAll exactly the unlisted keys remain. */
  lemma {:induction false} DeleteAllEffect(disk: Disk, keys: seq<string>, k: string)
    ensures k in DeleteAll(disk, keys) <==> k in disk && k !in keys
    decreases |keys|
  {
    if |keys| > 0 {
      DeleteAllEffect(Delete(disk, keys[0]), keys[1..], k);
      assert k in keys <==> k == keys[0] || k in keys[1..];
    }
  }

  /** A deleted entry loads as nothing, and deleting right after a store
      undoes the store. */
  lemma DeleteUndoesStore(disk: Disk, key: string, f: HFile)
    ensures Load(Delete(disk, key), key).None?
    ensures Delete(Store(disk, key, f), key) == Delete(disk, key)
  {
  }

  /** `HOutStream.write`: the copy hands each byte over as a signed int, and
      `(byte) (b & 0xFF)` turns it back into the same byte. */
  function Recast(b: Byte): (r: Byte)
    ensures r == b
  {
    ToByte(Mask(b))
  }

  /** The bytes the copy hands to the writer, one Recast per disk byte. */
  function RecastAll(bs: seq<Byte>): (r: seq<Byte>)
    ensures r == bs
    decreases |bs|
  {
    if |bs| == 0 then [] else [Recast(bs[0])] + RecastAll(bs[1..])
  }

  /** `load`: nothing for a missing entry; otherwise the bytes written one
      by one into a fresh detached file through a fresh writer, never
      flushed. */
  function Load(disk: Disk, key: string): (r: Option<HFile>)
    ensures r.Some? <==> key in disk
    ensures r.Some? ==> !r.value.attached
  {
    if key !in disk then None
    else
      var w := OutputStream.NewWriter(key, NewFile(false));
      Some(OutputStream.WriteAll(w, RecastAll(disk[key]), 0).writer.file)
  }

  /** What `load` builds from n bytes: ceil(n / BUFFER_SIZE) full chunks
      holding the bytes and then zeros, one allocated chunk each, and a
      length of 0 because nothing is flushed. */
  lemma LoadShape(disk: Disk, key: string)
    requires key in disk
    ensures Load(disk, key).Some?
    ensures var f := Load(disk, key).value;
            var bs := disk[key];
            && f.buffers == Chunk(bs + Zeros(Padding(|bs|)))
            && |f.buffers| == ChunksFor(|bs|)
            && (forall p :: 0 <= p < |bs| ==>
                  && p / BUFFER_SIZE < |f.buffers|
                  && f.buffers[p / BUFFER_SIZE][p % BUFFER_SIZE] == bs[p])
            && f.length == 0
            && f.sizeInBytes == BUFFER_SIZE * |f.buffers|
  {
    var bs := disk[key];
    OutputStream.FreshWrite(key, false, bs, 0);
  }

  /** `loadAll`: the files `load` finds for the listed keys, or nothing at
      all when it finds none. */
  function LoadAll(disk: Disk, keys: seq<string>): (r: Option<map<string, HFile>>)
    ensures r.None? <==> forall i :: 0 <= i < |keys| ==> keys[i] !in disk
    ensures r.Some? ==> forall k :: k in r.value <==> k in disk && k in keys
    ensures r.Some? ==> forall k :: k in r.value ==> Load(disk, k) == Some(r.value[k])
  {
    var found := map k | k in disk.Keys && k in keys :: Load(disk, k).value;
    if forall k | k in keys :: k !in disk then
      None
    else Some(found)
  }

  /** Storing a file of full chunks and loading it back gives the same
      chunks, detached, with length 0. */
  lemma StoreLoadRoundTrip(disk: Disk, key: string, f: HFile)
    requires AllFull(f.buffers)
    ensures Load(Store(disk, key, f), key).Some?
    ensures var g := Load(Store(disk, key, f), key).value;
            && g.buffers == f.buffers && g.length == 0 && !g.attached
            && g.sizeInBytes == BUFFER_SIZE * |f.buffers|
  {
    var d := Store(disk, key, f);
    var bs := d[key];
    StoredBytes(disk, key, f, 0, 0);
    PaddingOfWhole(|f.buffers|);
    assert Padding(|bs|) == 0;
    assert bs + Zeros(0) == bs;
    LoadShape(d, key);
  }

  /** A whole number of chunks needs no padding. */
  lemma PaddingOfWhole(n: nat)
    ensures ChunksFor(BUFFER_SIZE * n) == n
    ensures Padding(BUFFER_SIZE * n) == 0
  {
  }

  /** Loading then storing gives the disk bytes back followed by the zero
      padding of the last chunk. */
  lemma LoadStoreRoundTrip(disk: Disk, key: string)
    requires key in disk
    ensures var f := Load(disk, key).value;
            Store(disk, key, f)[key] == disk[key] + Zeros(Padding(|disk[key]|))
  {
    var bs := disk[key];
    LoadShape(disk, key);
    var padded := bs + Zeros(Padding(|bs|));
    var f := Load(disk, key).value;
    assert f.buffers == Chunk(padded);
    ChunkThenFlatten(padded);
  }

  /** Flattening undoes chunking. */
  lemma {:induction false} ChunkThenFlatten(s: seq<Byte>)
    requires |s| % BUFFER_SIZE == 0
    ensures Flatten(Chunk(s)) == s
    decreases |s|
  {
    if |s| > 0 {
      ChunkThenFlatten(s[BUFFER_SIZE..]);
      assert Chunk(s)[1..] == Chunk(s[BUFFER_SIZE..]);
      assert s == s[..BUFFER_SIZE] + s[BUFFER_SIZE..];
    }
  }
}
