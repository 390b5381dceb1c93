# lucene-hazelcast: chunked in-memory files for a Lucene directory

This project models the storage core of lucene-hazelcast. That is a Lucene
`Directory` that keeps each index file in a cluster-wide map as a chunked
byte file. The core has five parts:

- `HFile`: an ordered list of 1024-byte chunks. It records a logical length
  and an allocated size. It can be attached to a directory, whose byte
  counter it charges for every chunk it allocates.
- `HOutputStream`: the writer. It fills the chunks, allocates new chunks on
  demand and keeps a running CRC-32. Flushing records the length and
  publishes the file in the shared map.
- `HInputStream`: the random-access reader. It has lazy chunk switching,
  end-of-file detection, seeking and nested slices.
- `HazelcastDirectory`: the directory operations (list, length, delete,
  create, open, rename, close). Each is guarded by an open flag. The
  directory also keeps the aggregate byte counter.
- `HFileMapStore`: the disk mirror of the map. It stores a file as the
  concatenation of its chunks and loads one back by streaming the bytes
  through a writer.

The model is written over values:

- Java bytes are the `Byte` subset type, -128..127.
- Exceptions are the `Error` constructors of a `Result`.
- The shared map is a Dafny `map`. Its values are detached copies, which is
  what a cluster map hands back.
- The directory's counter is passed into every allocating step and handed
  back, because there is no shared mutable reference.
- The reader takes a `Variant`. `AsWritten` follows the code as it stands.
  `Corrected` repairs the three defects listed under Findings. The reader
  properties are proved about `Corrected` on every state it reaches, and
  carried over to `AsWritten` from those same states for the reads, seeks
  and slices that stay below the length. The code as written reaches one
  more kind of state, a forced end with a stale readable count. Its
  operations keep to these states, and a seek below the length leads from
  any of them back to a state the corrected reader reaches.

Modules, one per source class:

- `Bytes`: chunk size, errors, the flat view of a chunk list, masks and casts.
- `Crc32`: CRC-32 as `java.util.zip.CRC32` computes it.
- `ChunkedFile`: `HFile`.
- `OutputStream`: `HOutputStream`.
- `InputStream`: `HInputStream`.
- `IndexDirectory`: `HazelcastDirectory`.
- `MapStore`: `HFileMapStore`.

## Model

Source paths are relative to the repository root.

| member | source | states |
|---|---|---|
| ChunkedFile.NewFile | src/main/java/se/marza/lucene/HFile.java:20-31 | a new file has no chunks, length 0 and size 0; its allocated size agrees with its chunks |
| ChunkedFile.SetLength | src/main/java/se/marza/lucene/HFile.java:34-40 | getLength returns the length just set; chunks, size and directory are untouched |
| ChunkedFile.AddBuffer | src/main/java/se/marza/lucene/HFile.java:42-53 | appends one zero-filled chunk of the requested size after the existing chunks and raises the size by that amount; the directory counter grows by the size exactly when the file is attached |
| ChunkedFile.RamBytesUsedAfterAdds | src/main/java/se/marza/lucene/HFile.java:42-77 | after any sequence of additions, ramBytesUsed equals the sum of the chunk sizes, numBuffers equals the number of additions, and chunk i has the i-th requested size |
| ChunkedFile.Equals | src/main/java/se/marza/lucene/HFile.java:98-114 | the length check, the count check and the pairwise chunk loop hold exactly when the lengths agree and the chunk lists are equal |
| ChunkedFile.BuffersEqualFrom | src/main/java/se/marza/lucene/HFile.java:108-113 | the comparison loop from chunk i on succeeds exactly when the two chunk suffixes from i are equal |
| ChunkedFile.EqualsReflexive | src/main/java/se/marza/lucene/HFile.java:98-114 | every file equals itself |
| ChunkedFile.EqualsSymmetric | src/main/java/se/marza/lucene/HFile.java:98-114 | equality does not depend on argument order |
| ChunkedFile.Int32 | src/main/java/se/marza/lucene/HFile.java:91-93 | Java int arithmetic: the result is in the int range and congruent to the exact value modulo 2^32 |
| ChunkedFile.Int32Congruent | src/main/java/se/marza/lucene/HFile.java:91-93 | numbers that agree modulo 2^32 wrap to the same int, so int arithmetic depends only on the residues |
| ChunkedFile.LongHash | src/main/java/se/marza/lucene/HFile.java:91 | `(int) (length ^ (length >>> 32))` lies in the int range |
| ChunkedFile.ArrayHash | src/main/java/se/marza/lucene/HFile.java:93 | `Arrays.hashCode` of a chunk lies in the int range and is 1 for an empty chunk |
| ChunkedFile.ArrayHashExact | src/main/java/se/marza/lucene/HFile.java:93 | wrapping 31 * h + element at every step gives the documented polynomial 31^n + sum of b[i] * 31^(n-1-i), wrapped once into an int |
| ChunkedFile.HashChunks | src/main/java/se/marza/lucene/HFile.java:92-94 | the loop over the chunks yields an int whenever there is a chunk, and leaves the seed as it is when there is none |
| ChunkedFile.HashCode | src/main/java/se/marza/lucene/HFile.java:89-96 | hashCode lies in the int range, and a file without chunks hashes as LongHash(length) |
| ChunkedFile.HashCodeRespectsEquals | src/main/java/se/marza/lucene/HFile.java:89-96 | files that are equal have equal hash codes |
| ChunkedFile.WriteData | src/main/java/se/marza/lucene/HFile.java:116-121 | the stream starts with the length and the size, followed by the encoded chunk list, which WriteReadRoundTrip recovers |
| ChunkedFile.ReadData | src/main/java/se/marza/lucene/HFile.java:123-128 | a decoded file never carries a directory reference |
| ChunkedFile.DecodeEncodeArrays | src/main/java/se/marza/lucene/HFile.java:116-128 | decoding the encoded chunk list returns exactly those chunks and leaves the rest of the stream unread |
| ChunkedFile.WriteReadRoundTrip | src/main/java/se/marza/lucene/HFile.java:116-128 | readData of writeData gives back the same length, size and chunks, detached; the copy is equal to the original |
| Crc32.FoldAppend | src/main/java/se/marza/lucene/HOutputStream.java:138-150 | updating the checksum over a block gives the same register as updating it byte by byte |
| Bytes.LowByte | src/main/java/se/marza/lucene/HFileMapStore.java:123-126 | `(byte) (x & 0xFF)` yields b for exactly the ints x congruent to b modulo 256, among them b itself and its unsigned value |
| OutputStream.NewWriter | src/main/java/se/marza/lucene/HOutputStream.java:31-43 | a new writer has no chunk selected, file pointer 0 and the checksum of no bytes; on a fresh file it is in a valid state |
| OutputStream.SwitchCurrentBuffer | src/main/java/se/marza/lucene/HOutputStream.java:167-176 | at index numBuffers it appends a zero chunk and charges the counter if attached; below that it selects the existing chunk and allocates nothing; either way the cursor is at the chunk start |
| OutputStream.Advance | src/main/java/se/marza/lucene/HOutputStream.java:134-137 | when the current chunk is full, a chunk is selected; the file pointer, checksum and length do not change |
| OutputStream.WriteByte | src/main/java/se/marza/lucene/HOutputStream.java:132-143 | one byte advances the file pointer by 1 and the checksum by that byte, and keeps the writer valid |
| OutputStream.WriteByteContent | src/main/java/se/marza/lucene/HOutputStream.java:132-143 | inside the allocated chunks, a byte overwrites the content at the file pointer with no allocation; at the end, it starts a new zero chunk and charges the counter |
| OutputStream.WriteAllEffect | src/main/java/se/marza/lucene/HOutputStream.java:132-176 | writing bytes one at a time gives this result: the content is overwritten at the pointer, the chunk count grows to cover the end, the counter is charged one chunk per new chunk, the checksum folds the bytes, and the length is untouched |
| OutputStream.WriteAllAppend | src/main/java/se/marza/lucene/HOutputStream.java:132-143 | writing x and then y is the same as writing x + y |
| OutputStream.FreshWrite | src/main/java/se/marza/lucene/HOutputStream.java:31-43 | on a new file, the chunks hold the bytes followed by zeros, byte p sits in chunk p/1024 at p%1024, the length stays 0, and the counter is charged 1024 bytes per chunk when attached |
| OutputStream.WriteBytes | src/main/java/se/marza/lucene/HOutputStream.java:145-165 | the block copy loop has exactly the effect of writing the range byte by byte, including the checksum |
| OutputStream.CopyLoop | src/main/java/se/marza/lucene/HOutputStream.java:151-163 | the loop's invariant: the writer after the copied prefix equals writing that prefix byte by byte |
| OutputStream.CopyRound | src/main/java/se/marza/lucene/HOutputStream.java:152-162 | one loop round, copying up to the rest of the chunk, keeps the invariant |
| OutputStream.Reset | src/main/java/se/marza/lucene/HOutputStream.java:93-104 | after reset, the file pointer and length are 0 and the checksum is that of no bytes; the chunks and size are kept |
| OutputStream.ResetReusesBuffers | src/main/java/se/marza/lucene/HOutputStream.java:93-104 | writing after reset overwrites the old chunks from the start, allocating nothing while the bytes fit |
| OutputStream.Flush | src/main/java/se/marza/lucene/HOutputStream.java:178-194 | the length becomes the larger of the old length and getFilePointer, and the file is published under the writer's name; other entries are untouched; the chunks, the file pointer and the checksum are kept |
| OutputStream.Close | src/main/java/se/marza/lucene/HOutputStream.java:106-109 | close raises the length to the file pointer when that is larger, keeps the chunks, publishes the file's snapshot under the writer's name and leaves every other entry untouched |
| OutputStream.RamBytesUsedMatchesFile | src/main/java/se/marza/lucene/HOutputStream.java:196-202 | numBuffers * 1024 equals the file's own ramBytesUsed and covers the file length |
| OutputStream.ChecksumOfWrites | src/main/java/se/marza/lucene/HOutputStream.java:209-216 | getChecksum is the CRC-32 of every byte written since creation or reset |
| OutputStream.ChecksumDeterministic | src/main/java/se/marza/lucene/HOutputStream.java:93-104 | after reset, the checksum depends only on the bytes written |
| InputStream.OpenRaw | src/main/java/se/marza/lucene/HInputStream.java:28-40 | the constructor fails with an IOException exactly when length / 1024 reaches Integer.MAX_VALUE; otherwise no chunk is selected |
| InputStream.Open | src/main/java/se/marza/lucene/HInputStream.java:24-26 | the public constructor reads up to the file's recorded length, starting at pointer 0 |
| InputStream.SwitchCurrentBuffer | src/main/java/se/marza/lucene/HInputStream.java:78-95 | a chunk it selects is held at position 0 with readable bytes min(1024, length - start); past the last chunk it raises EOFException when EOF is enforced, and otherwise steps the index back with position 1024 and, as written, the old readable count (corrected: none) |
| InputStream.AsWrittenEndOfFile | src/main/java/se/marza/lucene/HInputStream.java:78-95 | as written, EOFException is raised exactly when the chunk index reaches the chunk count, whatever the length; a chunk past the length is selected with a readable count of zero or less |
| InputStream.Advance | src/main/java/se/marza/lucene/HInputStream.java:52-67 | the head of readByte and of each readBytes round: while readable bytes remain the reader is unchanged; otherwise it lands at position 0 of the next existing chunk or fails, with EOFException except for an index below -1 |
| InputStream.AgreeAdvance | src/main/java/se/marza/lucene/HInputStream.java:52-95 | below the length the head switch as written equals the corrected one |
| InputStream.ReadByte | src/main/java/se/marza/lucene/HInputStream.java:52-59 | readByte fails only with EOFException or an index error, and keeps the file, the length and the view |
| InputStream.AgreeReadByte | src/main/java/se/marza/lucene/HInputStream.java:52-95 | below the length, readByte as written returns the same byte and reader as the corrected one |
| InputStream.ReadByteSpec | src/main/java/se/marza/lucene/HInputStream.java:52-59 | readByte succeeds exactly when the pointer is before the length, returns the file byte at the pointer and advances by 1; otherwise EOFException; below the length the code as written does the same |
| InputStream.RawSeek | src/main/java/se/marza/lucene/HInputStream.java:102-109 | a seek inside the held chunk keeps that chunk; otherwise it selects chunk pos / 1024, or steps back from a chunk past the last one; either way bufferStart + bufferPosition becomes pos, with the in-chunk position pos % 1024 |
| InputStream.AgreeRawSeek | src/main/java/se/marza/lucene/HInputStream.java:102-109 | below the length, seek as written and corrected give the same reader |
| InputStream.AgreeSeek | src/main/java/se/marza/lucene/HInputStream.java:102-127 | the same for the seek of the base reader and of a slice |
| InputStream.SeekSpec | src/main/java/se/marza/lucene/HInputStream.java:97-137 | a seek to any position from 0 to the length succeeds and getFilePointer then returns it, for the corrected reader and for the code as written alike, with length() unchanged, on the base reader and on slices; below the length the two give the same reader |
| InputStream.ValidReached | src/main/java/se/marza/lucene/HInputStream.java:78-109 | every state the corrected reader reaches is one the code as written reaches |
| InputStream.ReachedRawSeek | src/main/java/se/marza/lucene/HInputStream.java:102-109 | as written, a successful seek from any reached state stays among them, and a seek to any position up to the length, the length itself included, succeeds and sets the pointer there |
| InputStream.ReachedSeek | src/main/java/se/marza/lucene/HInputStream.java:97-127 | the same for the seek of the base reader and of a slice, through getFilePointer |
| InputStream.ReachedSeekBack | src/main/java/se/marza/lucene/HInputStream.java:97-127 | as written, a seek below the length from any reached state, a stale forced end included, is the corrected seek and lands in a state the corrected reader reaches, at the position sought |
| InputStream.ReachedReadByte | src/main/java/se/marza/lucene/HInputStream.java:52-59 | as written, a successful readByte from a reached state stays among them |
| InputStream.Seek | src/main/java/se/marza/lucene/HInputStream.java:121-127 | a slice refuses a negative position with IllegalArgumentException |
| InputStream.SeekThenRead | src/main/java/se/marza/lucene/HInputStream.java:52-59 | corrected: after seeking to pos, readByte returns the byte at pos when pos is before the length, and EOFException when pos equals it |
| InputStream.ReadAllSpec | src/main/java/se/marza/lucene/HInputStream.java:52-59 | n consecutive readByte calls succeed exactly when n bytes remain, return the next n file bytes, and advance the pointer by n; while the n bytes lie below the length the code as written does the same |
| InputStream.AgreeReadAll | src/main/java/se/marza/lucene/HInputStream.java:52-59 | n readByte calls below the length give the same bytes and reader in both variants |
| InputStream.ReadAllAppend | src/main/java/se/marza/lucene/HInputStream.java:52-59 | reading d and then k bytes is reading d + k bytes, for the code as written and the corrected reader alike |
| InputStream.Round | src/main/java/se/marza/lucene/HInputStream.java:63-74 | a round copies at most n bytes, and copying none means it moved to the next existing chunk; a negative readable count after the head switch raises IndexOutOfBoundsException; which bytes it copies is stated by RoundSpec |
| InputStream.RoundSpec | src/main/java/se/marza/lucene/HInputStream.java:61-76 | a corrected round continues the run of readByte calls by at least one byte, or fails with EOFException exactly when the whole run would; while the bytes asked for lie below the length, the round as written is the same round |
| InputStream.AgreeRound | src/main/java/se/marza/lucene/HInputStream.java:63-74 | below the length, a readBytes round as written copies the same bytes and leaves the same reader as the corrected one |
| InputStream.ReachedRound | src/main/java/se/marza/lucene/HInputStream.java:63-74 | as written, a successful readBytes round from a reached state stays among them |
| InputStream.CopyBlock | src/main/java/se/marza/lucene/HInputStream.java:63-75 | one round writes only at the next offset; on the corrected reader, and as written below the length, it copies what readByte would return or fails with EOFException exactly when readByte would |
| InputStream.CopyBlocks | src/main/java/se/marza/lucene/HInputStream.java:61-76 | the readBytes loop writes only inside the destination range; on the corrected reader, and as written below the length, it fills that range with the bytes of len readByte calls and ends in the same reader state, or fails with EOFException exactly when they would; as written it never leaves the reached states |
| InputStream.ReadBytes | src/main/java/se/marza/lucene/HInputStream.java:61-76 | readBytes writes only b[offset..offset+len] and returns at once for len 0; on the corrected reader, and as written below the length, it succeeds exactly when len bytes remain, writes the file bytes from the pointer there and advances by len; as written it never leaves the reached states |
| InputStream.Slice | src/main/java/se/marza/lucene/HInputStream.java:111-144 | a slice reads the same file, starts at the parent's offset plus off and has length len |
| InputStream.AgreeSlice | src/main/java/se/marza/lucene/HInputStream.java:111-144 | for a non-negative offset, slice as written and corrected give the same reader |
| InputStream.SliceSpec | src/main/java/se/marza/lucene/HInputStream.java:111-137 | slice succeeds exactly when off and len are non-negative and the slice ends within the parent, else IllegalArgumentException; the slice starts at pointer 0 and reports length len; for a non-negative offset the code as written gives the same slice |
| InputStream.ReachedSlice | src/main/java/se/marza/lucene/HInputStream.java:111-144 | as written, a slice that succeeds from any reached state, even with a negative nested offset, yields a reader the corrected code reaches, at pointer 0 |
| InputStream.OpenSliceValid | src/main/java/se/marza/lucene/HInputStream.java:116-119 | the reader a slice opens is the same for both variants and starts at pointer 0 in a state the corrected reader reaches |
| InputStream.SliceTwice | src/main/java/se/marza/lucene/HInputStream.java:139-142 | corrected: a slice of a slice is allowed exactly when it lies within the outer slice, and equals the single slice at the summed offset |
| InputStream.SliceReads | src/main/java/se/marza/lucene/HInputStream.java:111-144 | reading n bytes from a new slice returns the file bytes starting at the slice's offset, in both variants |
| InputStream.StaleReadAfterSeek | src/main/java/se/marza/lucene/HInputStream.java:61-109 | as written, after a read and a seek to the end of a one-chunk file, readByte returns the chunk's first byte again and a readBytes round copies the chunk's first bytes; corrected, both raise EOFException |
| InputStream.ReadPastSliceEnd | src/main/java/se/marza/lucene/HInputStream.java:61-95 | as written, at the end of a 10-byte slice over a two-chunk file, readByte returns the first byte of the second chunk and a readBytes round raises IndexOutOfBoundsException on its negative count; corrected, both raise EOFException |
| InputStream.NegativeNestedSlice | src/main/java/se/marza/lucene/HInputStream.java:139-142 | as written, a slice of a slice accepts offset -5 and starts before its parent; corrected, it raises IllegalArgumentException |
| IndexDirectory.NewDirectory | src/main/java/se/marza/lucene/HazelcastDirectory.java:35-66 | a new directory is open, counts 0 bytes, and holds and lists exactly the files already in the cluster map |
| IndexDirectory.DeleteInherited | src/main/java/se/marza/lucene/HazelcastDirectory.java:74-85 | deleting a file that was in the cluster map before the directory was made succeeds and drives the counter below zero by that file's size |
| IndexDirectory.ListAll | src/main/java/se/marza/lucene/HazelcastDirectory.java:68-72 | listAll succeeds exactly when the directory is open |
| IndexDirectory.FileLength | src/main/java/se/marza/lucene/HazelcastDirectory.java:87-96 | fileLength succeeds exactly for a present name in an open directory; otherwise it is already-closed or FileNotFoundException |
| IndexDirectory.ListedIffPresent | src/main/java/se/marza/lucene/HazelcastDirectory.java:68-96 | a name is listed exactly when fileLength succeeds for it |
| IndexDirectory.DeleteFile | src/main/java/se/marza/lucene/HazelcastDirectory.java:74-85 | delete succeeds exactly for a present name; afterwards the name is gone and the counter drops by the file's size; every other file is unchanged |
| IndexDirectory.CreateOutput | src/main/java/se/marza/lucene/HazelcastDirectory.java:98-110 | the name now holds an empty file of length 0; a replaced file's size is subtracted from the counter; the writer is valid at pointer 0 on an attached new file; other files are unchanged |
| IndexDirectory.Sync | src/main/java/se/marza/lucene/HazelcastDirectory.java:112-115 | sync changes nothing an operation can observe: the listing, the counter, every length and every opened reader stay as they were |
| IndexDirectory.OpenInput | src/main/java/se/marza/lucene/HazelcastDirectory.java:117-126 | open succeeds for a present name whose length passes the reader's size check; the reader reports the file's length and starts at 0 |
| IndexDirectory.Close | src/main/java/se/marza/lucene/HazelcastDirectory.java:128-133 | close clears the map and the open flag |
| IndexDirectory.RenameFile | src/main/java/se/marza/lucene/HazelcastDirectory.java:135-145 | rename needs the source to be present; the destination then holds the source's file, the source is gone, other names are unchanged, and the counter is unchanged |
| IndexDirectory.RamBytesUsed | src/main/java/se/marza/lucene/HazelcastDirectory.java:147-151 | ramBytesUsed succeeds exactly when the directory is open |
| IndexDirectory.ClosedRejects | src/main/java/se/marza/lucene/HazelcastDirectory.java:68-151 | after close, every guarded operation raises the already-closed error |
| IndexDirectory.RenameBack | src/main/java/se/marza/lucene/HazelcastDirectory.java:135-145 | renaming to a fresh name and back restores the directory exactly |
| IndexDirectory.CreateThenDelete | src/main/java/se/marza/lucene/HazelcastDirectory.java:74-110 | creating a file and then deleting it leaves the map as it was minus that name, with any replaced file's size subtracted from the counter |
| IndexDirectory.Write | src/main/java/se/marza/lucene/HOutputStream.java:132-165 | writes through a created writer leave the map alone until a flush |
| IndexDirectory.Flush | src/main/java/se/marza/lucene/HOutputStream.java:178-189 | a writer's flush replaces only its own name's entry in the directory's map, with the snapshot of its file at the larger of the old length and the pointer; the chunks and the counter are kept |
| IndexDirectory.WrittenReadsBack | src/main/java/se/marza/lucene/HazelcastDirectory.java:98-126 | create, write bs, flush: fileLength is the size of bs; the counter has grown by 1024 per chunk; when the length passes the size check, openInput reads bs back through the code as written as well as the corrected reader |
| MapStore.Store | src/main/java/se/marza/lucene/HFileMapStore.java:29-44 | store sets the key's entry and leaves every other entry alone |
| MapStore.StoredBytes | src/main/java/se/marza/lucene/HFileMapStore.java:37-39 | the stored entry holds every chunk at full size in order, whatever the length; cutting it into chunks gives the chunks back |
| MapStore.StoreEach | src/main/java/se/marza/lucene/HFileMapStore.java:46-51 | storing each listed key in turn adds exactly the listed keys to the disk |
| MapStore.StoreEachEffect | src/main/java/se/marza/lucene/HFileMapStore.java:46-51 | after storing each listed key, a listed key holds its file's chunk bytes and every other entry is unchanged |
| MapStore.StoreAll | src/main/java/se/marza/lucene/HFileMapStore.java:46-51 | given a listing of every key of the map, storeAll leaves the disk with exactly its old keys plus the map's keys |
| MapStore.StoreAllEffect | src/main/java/se/marza/lucene/HFileMapStore.java:46-51 | after storeAll, every key of the map holds its own file's bytes and every other entry is unchanged |
| MapStore.StoreAllOrderIrrelevant | src/main/java/se/marza/lucene/HFileMapStore.java:46-51 | any two listings of the map's keys are valid iteration orders and leave the same disk |
| MapStore.Delete | src/main/java/se/marza/lucene/HFileMapStore.java:53-63 | delete removes the key if present and leaves every other entry alone |
| MapStore.DeleteAll | src/main/java/se/marza/lucene/HFileMapStore.java:65-68 | deleteAll never adds or changes an entry |
| MapStore.DeleteAllEffect | src/main/java/se/marza/lucene/HFileMapStore.java:65-68 | after deleteAll, exactly the unlisted keys remain |
| MapStore.DeleteUndoesStore | src/main/java/se/marza/lucene/HFileMapStore.java:29-63 | a deleted key loads as null, and delete right after store is delete alone |
| MapStore.Recast | src/main/java/se/marza/lucene/HFileMapStore.java:123-126 | `(byte) (b & 0xFF)` of a byte passed as an int is that byte |
| MapStore.Load | src/main/java/se/marza/lucene/HFileMapStore.java:70-85 | load returns a file exactly when the entry exists, and that file has no directory |
| MapStore.LoadShape | src/main/java/se/marza/lucene/HFileMapStore.java:70-85 | a loaded file holds ceil(n/1024) chunks of the n disk bytes followed by zeros, byte p at chunk p/1024, with size 1024 per chunk and length 0 |
| MapStore.LoadAll | src/main/java/se/marza/lucene/HFileMapStore.java:87-101 | loadAll returns null exactly when no listed key is on disk; otherwise it maps exactly the listed keys on disk to their loaded files |
| MapStore.StoreLoadRoundTrip | src/main/java/se/marza/lucene/HFileMapStore.java:29-85 | loading a stored file gives the same chunks, detached, with the size matching, but length 0 |
| MapStore.LoadStoreRoundTrip | src/main/java/se/marza/lucene/HFileMapStore.java:29-85 | storing a loaded file gives the disk bytes back with the last chunk's zero padding appended |

## Left out

- Hazelcast cluster start-up, network and group configuration, and the
  `SingleInstanceLockFactory`. The map is a plain value, and distribution,
  serialization transport and near caching are not modelled.
- Concurrency: `synchronized` methods, the `volatile` directory field and
  the atomic counter are modelled as sequential updates.
- File-system I/O in `HFileMapStore`: paths, `Files.exists`, the wrapping of
  `IOException` into `IllegalStateException`, and `loadAllKeys`, which only
  lists a directory on disk.
- `getChildResources`, `toString`, `getFactoryId`, `getId` and the
  serialization factory. They carry no logic about the stored bytes.
- `HInputStream.close`, which does nothing, and the clone support it
  inherits. `HOutputStream`'s commented-out `writeTo`, `seek` and `length`
  are not part of the code.
- `long` overflow of lengths, positions and the counter is not modelled.
  Lengths are natural numbers, which the code never makes negative. The
  reader's chunk index is narrowed to an int with an explicit wrap
  (`ChunkedFile.Int32`). The readable count `(int) (length - bufferStart)`
  is kept as an unbounded integer.
- InputStream.Seek: a negative position on the base reader is a caller
  error in Lucene's contract and is excluded by a precondition rather than
  modelled.
- Errors carry no reader state. After an exception the reader is not used
  again, so the partially updated fields are not modelled.
- InputStream.ReadBytes: block reads are proved equal to repeated
  `readByte` on the corrected reader, and on the code as written while the
  bytes asked for lie below the length. Past the length the code as
  written fails with IndexOutOfBounds on a negative readable count, or
  copies stale bytes after a seek to the end (see Findings); there the
  contract states only the error kinds and the untouched parts of the
  array.
- InputStream.CopyBlocks: the same holds for the copy loop; outside the
  specified cases only the error kinds and the untouched parts of the
  array are stated.
- InputStream.AgreeReadByte: the agreement lemmas start from a state the
  corrected reader reaches. From a stale forced end, the reads as written
  before the next seek are only shown to stay among the reached states;
  what they return there is the defect of Findings row 1.
- InputStream.ReadByte: its own contract names only the error kinds and
  what is kept. The byte returned and the step of the pointer are stated
  by ReadByteSpec, and for the code as written below the length by
  AgreeReadByte.
- OutputStream.WriteBytes: an array range outside `b` (a negative offset
  or length, or `offset + len` beyond the array) raises
  IndexOutOfBoundsException in the source; the model excludes it by a
  precondition and natural-number parameters.
- InputStream.ReadBytes: the same bad array range is excluded the same
  way.
- A `null` chunk dereference (NullPointerException) and an array index
  outside the held chunk are both reported as IndexOutOfBounds.
- ChunkedFile.LongHash: only the int range is stated; that a length below
  2^31 hashes to itself is not.
- Crc32.FoldAppend: the checksum is a bit-by-bit CRC-32 standing in for
  `BufferedChecksum(CRC32)`. Buffering does not change the value.
- IndexDirectory.DeleteFile: the counter is not tied to the sum of the
  sizes of the stored files. Writers charge the counter as they allocate,
  but the map only learns of their chunks when they flush, so no such
  invariant holds between a write and a flush.
- IndexDirectory.RenameFile: `renameFile(x, x)` sets and then removes `x`,
  so the file disappears. The model keeps this and only states the
  destination for distinct names.
- MapStore.Load: `load` never flushes its writer, so a loaded file has
  length 0 even when its chunks hold data. The model keeps this.
- MapStore.StoreLoadRoundTrip: the round trip is stated for files whose
  chunks are all full, the only kind a writer creates.

## Findings

| source | as written | input that shows it | evidently intended | confidence | as-written member | corrected member |
|---|---|---|---|---|---|---|
| src/main/java/se/marza/lucene/HInputStream.java:78-109 | a seek past the last chunk steps the index back but keeps the old readable count, so the stale chunk stays readable | a one-chunk file of length 1024: `readByte()`, then `seek(1024)`, then `readByte()` returns the first byte again; a `readBytes` of n bytes there copies the chunk's first n bytes | the forced end leaves nothing readable, and the next read raises EOFException | not executed | InputStream.StaleReadAfterSeek | InputStream.SeekThenRead |
| src/main/java/se/marza/lucene/HInputStream.java:61-93 | the end-of-file test compares the chunk index with the chunk count, not the start with the length; spare chunks beyond the length are selected with a negative readable count; `readByte` still returns a byte from such a chunk, and `readBytes` passes the negative count to `System.arraycopy` | `slice(0, 10)` of a file with two full chunks: `seek(10)` then `readByte()` returns the first byte of the second chunk, and `readBytes(b, 0, 11)` from the start raises IndexOutOfBoundsException | a chunk that starts at or past the length raises EOFException | not executed | InputStream.ReadPastSliceEnd | InputStream.ReadByteSpec |
| src/main/java/se/marza/lucene/HInputStream.java:139-142 | a nested slice adds its offset to the parent's before the bounds check, so a negative offset passes while the sum stays non-negative | `slice(10, 10)` of a 20-byte file, then `slice(-5, 5)` on it succeeds and starts 5 bytes before the parent | a negative offset raises IllegalArgumentException, as it does on the base reader | not executed | InputStream.NegativeNestedSlice | InputStream.SliceTwice |
