/**
  The directory: a shared map from file names to stored files, an aggregate
  byte counter that attached files charge as they allocate chunks, and an
  open flag. The map holds what a cluster map hands back, a detached copy of
  the file as it was last stored; a writer publishes its file only when it
  flushes. The static map is passed around as part of the directory value.
 */
module IndexDirectory {
  import opened Bytes
  import opened ChunkedFile
  import OutputStream
  import InputStream

  datatype Directory = Directory(files: map<string, HFile>, sizeInBytes: int, isOpen: bool)

  /** The directory after `createOutput`, and the writer it returned. */
  datatype Created = Created(dir: Directory, writer: OutputStream.Writer)

  /** The directory and a writer of its after a step of that writer. */
  datatype Session = Session(dir: Directory, writer: OutputStream.Writer)

  /** A freshly constructed directory: open, nothing counted, attached to
      the cluster map as it stands, which holds whatever files other members
      have stored already (none on a cluster of its own). The cluster
      start-up is configuration of the map library. */
  function NewDirectory(shared: map<string, HFile>): (d: Directory)
    ensures d.isOpen && d.sizeInBytes == 0
    ensures d.files == shared
    ensures ListAll(d) == Ok(shared.Keys)
  {
    Directory(shared, 0, true)
  }

  /** The counter starts at 0 whatever the cluster map holds, so deleting a
      file that was there before takes its size off a count that never
      included it. */
  lemma DeleteInherited(shared: map<string, HFile>, name: string)
    requires name in shared
    ensures DeleteFile(NewDirectory(shared), name).Ok?
    ensures DeleteFile(NewDirectory(shared), name).value.sizeInBytes + shared[name].sizeInBytes == 0
  {
  }

  /** `listAll`: the names in the map, in no particular order. */
  function ListAll(d: Directory): (r: Result<set<string>>)
    ensures r.Ok? <==> d.isOpen
    ensures r.Err? ==> r.error == AlreadyClosed
  {
    if !d.isOpen then Err(AlreadyClosed) else Ok(d.files.Keys)
  }

  /** `fileLength`: the stored file's length. */
  function FileLength(d: Directory, name: string): (r: Result<nat>)
    ensures r.Ok? <==> d.isOpen && name in d.files
    ensures !d.isOpen ==> r == Err(AlreadyClosed)
    ensures d.isOpen && name !in d.files ==> r == Err(FileNotFound(name))
  {
    if !d.isOpen then Err(AlreadyClosed)
    else if name !in d.files then Err(FileNotFound(name))
    else Ok(GetLength(d.files[name]))
  }

  /** A name is listed exactly when its length can be asked for. */
  lemma ListedIffPresent(d: Directory, name: string)
    requires d.isOpen
    ensures name in ListAll(d).value <==> FileLength(d, name).Ok?
  {
  }

  /** `deleteFile`: removes the name and takes the removed copy's size off
      the counter. */
  function DeleteFile(d: Directory, name: string): (r: Result<Directory>)
    ensures r.Ok? <==> d.isOpen && name in d.files
    ensures !d.isOpen ==> r == Err(AlreadyClosed)
    ensures d.isOpen && name !in d.files ==> r == Err(FileNotFound(name))
    ensures r.Ok? ==> && r.value.isOpen
                      && FileLength(r.value, name) == Err(FileNotFound(name))
                      && name !in ListAll(r.value).value
                      && RamBytesUsed(r.value) == Ok(d.sizeInBytes - d.files[name].sizeInBytes)
                      && (forall n :: n != name ==> FileLength(r.value, n) == FileLength(d, n))
                      && (forall n :: n != name && n in d.files ==> n in r.value.files && r.value.files[n] == d.files[n])
  {
    if !d.isOpen then Err(AlreadyClosed)
    else if name !in d.files then Err(FileNotFound(name))
    else Ok(d.(files := d.files - {name}, sizeInBytes := d.sizeInBytes - d.files[name].sizeInBytes))
  }

  /** `createOutput`: a new empty file attached to this directory; an
      existing entry under the name is dropped and its size taken off the
      counter; the name then maps to a copy of the new file, and the writer
      is bound to the new file itself. */
  function CreateOutput(d: Directory, name: string): (r: Result<Created>)
    ensures r.Ok? <==> d.isOpen
    ensures r.Err? ==> r.error == AlreadyClosed
    ensures r.Ok? ==> var e := r.value.dir;
                      && e.isOpen
                      && FileLength(e, name) == Ok(0)
                      && name in ListAll(e).value
                      && e.files[name] == Snapshot(NewFile(true))
                      && (forall n :: n != name ==> FileLength(e, n) == FileLength(d, n))
                      && (forall n :: n != name && n in d.files ==> n in e.files && e.files[n] == d.files[n])
                      && RamBytesUsed(e)
                         == Ok(d.sizeInBytes - (if name in d.files then d.files[name].sizeInBytes else 0))
    ensures r.Ok? ==> var w := r.value.writer;
                      && w.name == name && w.file == NewFile(true)
                      && OutputStream.Valid(w) && OutputStream.FilePointer(w) == 0
  {
    if !d.isOpen then Err(AlreadyClosed)
    else
      var file := NewFile(true);
      var existing := if name in d.files then d.files[name].sizeInBytes else 0;
      var e := Directory(d.files[name := Snapshot(file)], d.sizeInBytes - existing, true);
      Ok(Created(e, OutputStream.NewWriter(name, file)))
  }

  /** `sync` does nothing, and unlike the other operations it does not
      check that the directory is open: every observation is as before. */
  function Sync(d: Directory, names: set<string>): (r: Directory)
    ensures ListAll(r) == ListAll(d) && RamBytesUsed(r) == RamBytesUsed(d)
    ensures forall n :: FileLength(r, n) == FileLength(d, n) && OpenInput(r, n) == OpenInput(d, n)
  {
    d
  }

  /** `openInput`: a reader over the stored copy, up to its length. */
  function OpenInput(d: Directory, name: string): (r: Result<InputStream.Reader>)
    ensures !d.isOpen ==> r == Err(AlreadyClosed)
    ensures d.isOpen && name !in d.files ==> r == Err(FileNotFound(name))
    ensures d.isOpen && name in d.files ==>
              (r.Ok? <==> d.files[name].length / BUFFER_SIZE < INT_MAX)
    ensures r.Err? && d.isOpen && name in d.files ==> r.error == TooLarge
    ensures r.Ok? ==> && FileLength(d, name) == Ok(InputStream.Length(r.value))
                      && InputStream.FilePointer(r.value) == 0
                      && r.value.file == d.files[name]
  {
    if !d.isOpen then Err(AlreadyClosed)
    else if name !in d.files then Err(FileNotFound(name))
    else InputStream.Open(d.files[name])
  }

  /** `close`: marks the directory closed and empties the shared map. It does
      not check that the directory is open, and the counter stays. */
  function Close(d: Directory): (r: Directory)
    ensures !r.isOpen && r.files == map[]
    ensures r.sizeInBytes == d.sizeInBytes
  {
    Directory(map[], d.sizeInBytes, false)
  }

  /** `renameFile`: the target name is set to the source's copy, then the
      source name is removed. The counter does not change, even when the
      target held a file; renaming a name to itself removes it. */
  function RenameFile(d: Directory, source: string, dest: string): (r: Result<Directory>)
    ensures r.Ok? <==> d.isOpen && source in d.files
    ensures !d.isOpen ==> r == Err(AlreadyClosed)
    ensures d.isOpen && source !in d.files ==> r == Err(FileNotFound(source))
    ensures r.Ok? ==> && r.value.isOpen
                      && FileLength(r.value, source) == Err(FileNotFound(source))
                      && (source != dest ==> dest in r.value.files && r.value.files[dest] == d.files[source])
                      && (forall n :: n != source && n != dest ==> FileLength(r.value, n) == FileLength(d, n))
                      && (forall n :: n != source && n != dest && n in d.files ==> n in r.value.files && r.value.files[n] == d.files[n])
                      && RamBytesUsed(r.value) == RamBytesUsed(d)
  {
    if !d.isOpen then Err(AlreadyClosed)
    else if source !in d.files then Err(FileNotFound(source))
    else Ok(d.(files := d.files[dest := d.files[source]] - {source}))
  }

  /** `ramBytesUsed`: the counter. */
  function RamBytesUsed(d: Directory): (r: Result<int>)
    ensures r.Ok? <==> d.isOpen
    ensures r.Err? ==> r.error == AlreadyClosed
  {
    if !d.isOpen then Err(AlreadyClosed) else Ok(d.sizeInBytes)
  }

  /** Once closed, everything except `close` and `sync` fails with
      AlreadyClosed, and nothing is listed any more. */
  lemma ClosedRejects(d: Directory, name: string, other: string)
    ensures var c := Close(d);
            && ListAll(c) == Err(AlreadyClosed)
            && FileLength(c, name) == Err(AlreadyClosed)
            && DeleteFile(c, name) == Err(AlreadyClosed)
            && CreateOutput(c, name) == Err(AlreadyClosed)
            && OpenInput(c, name) == Err(AlreadyClosed)
            && RenameFile(c, name, other) == Err(AlreadyClosed)
            && RamBytesUsed(c) == Err(AlreadyClosed)
            && Close(c) == c && Sync(c, {name}) == c
  {
  }

  /** Renaming to a fresh name and back restores the directory. */
  lemma RenameBack(d: Directory, source: string, dest: string)
    requires d.isOpen && source in d.files && dest !in d.files
    ensures RenameFile(d, source, dest).Ok?
    ensures var e := RenameFile(d, source, dest).value;
            && ListAll(e).value == ListAll(d).value - {source} + {dest}
            && RenameFile(e, dest, source) == Ok(d)
  {
    var e := RenameFile(d, source, dest).value;
    assert e.files[source := e.files[dest]] - {dest} == d.files;
  }

  /** Creating a name and deleting it again leaves the other names as they
      were and the name itself absent, with any earlier file under the name
      taken off the counter. */
  lemma CreateThenDelete(d: Directory, name: string)
    requires d.isOpen
    ensures var e := CreateOutput(d, name).value.dir;
            && DeleteFile(e, name).Ok?
            && DeleteFile(e, name).value.files == d.files - {name}
            && RamBytesUsed(DeleteFile(e, name).value)
               == Ok(d.sizeInBytes - (if name in d.files then d.files[name].sizeInBytes else 0))
  {
  }

  /** A writer step as the directory sees it: the writer writes bs, and any
      chunk its attached file allocates is charged to the counter. */
  function Write(d: Directory, w: OutputStream.Writer, bs: seq<Byte>): (r: Session)
    requires OutputStream.Valid(w)
    ensures OutputStream.Valid(r.writer) && r.dir.files == d.files && r.dir.isOpen == d.isOpen
  {
    var s := OutputStream.WriteAll(w, bs, d.sizeInBytes);
    Session(d.(sizeInBytes := s.counter), s.writer)
  }

  /** The writer's `flush` as the directory sees it: the writer's copy is
      published under its name, whether or not the directory is open. */
  function Flush(d: Directory, w: OutputStream.Writer): (r: Session)
    requires OutputStream.Valid(w)
    ensures OutputStream.Valid(r.writer)
    ensures r.dir.sizeInBytes == d.sizeInBytes && r.dir.isOpen == d.isOpen
    ensures r.dir.files == d.files[w.name := Snapshot(r.writer.file)]
    ensures r.writer.file.length == OutputStream.Max(w.file.length, OutputStream.FilePointer(w))
    ensures r.writer.file.buffers == w.file.buffers
  {
    var f := OutputStream.Flush(w, d.files);
    Session(d.(files := f.files), f.writer)
  }

  /** The round trip through the directory: create a file, write bs, flush,
      and open it again. The length is |bs|, the counter has been charged
      one chunk per started BUFFER_SIZE bytes, the reader opens unless the
      length is too large for it, and reading |bs| bytes yields bs, through
      the code as written as well as the corrected reader. */
  lemma WrittenReadsBack(d: Directory, name: string, bs: seq<Byte>)
    requires d.isOpen
    ensures var c := CreateOutput(d, name).value;
            var s := Flush(Write(c.dir, c.writer, bs).dir, Write(c.dir, c.writer, bs).writer);
            && FileLength(s.dir, name) == Ok(|bs|)
            && s.dir.sizeInBytes == c.dir.sizeInBytes + BUFFER_SIZE * ChunksFor(|bs|)
            && (OpenInput(s.dir, name).Ok? <==> |bs| / BUFFER_SIZE < INT_MAX)
            && (OpenInput(s.dir, name).Ok? ==>
                  var r := OpenInput(s.dir, name).value;
                  && InputStream.Valid(r)
                  && InputStream.ReadAll(InputStream.Corrected, r, |bs|).Ok?
                  && InputStream.ReadAll(InputStream.Corrected, r, |bs|).value.bytes == bs
                  && InputStream.ReadAll(InputStream.AsWritten, r, |bs|)
                     == InputStream.ReadAll(InputStream.Corrected, r, |bs|))
  {
    var c := CreateOutput(d, name).value;
    var w := c.writer;
    var s1 := Write(c.dir, w, bs);
    OutputStream.FreshWrite(name, true, bs, c.dir.sizeInBytes);
    OutputStream.WriteAllEffect(w, bs, c.dir.sizeInBytes);
    OutputStream.FreshOverwrite(bs);
    var s := Flush(s1.dir, s1.writer);
    var file := s.dir.files[name];
    assert file.length == |bs|;
    assert file.buffers == s1.writer.file.buffers;
    assert Flatten(file.buffers) == bs + Zeros(Padding(|bs|));
    FlattenLength(file.buffers);
    if |bs| / BUFFER_SIZE < INT_MAX {
      OpenedReadsBack(file, bs);
    }
  }

  /** A file of full chunks holding bs and then zeros, with length |bs|,
      opens to a reader that reads bs back in both variants. */
  lemma OpenedReadsBack(file: HFile, bs: seq<Byte>)
    requires AllFull(file.buffers) && Flatten(file.buffers) == bs + Zeros(Padding(|bs|))
    requires file.length == |bs| <= BUFFER_SIZE * |file.buffers| && |bs| / BUFFER_SIZE < INT_MAX
    ensures InputStream.Open(file).Ok?
    ensures var r := InputStream.Open(file).value;
            && InputStream.Valid(r)
            && InputStream.ReadAll(InputStream.Corrected, r, |bs|).Ok?
            && InputStream.ReadAll(InputStream.Corrected, r, |bs|).value.bytes == bs
            && InputStream.ReadAll(InputStream.AsWritten, r, |bs|)
               == InputStream.ReadAll(InputStream.Corrected, r, |bs|)
  {
    InputStream.OpenValid(file);
    var r := InputStream.Open(file).value;
    InputStream.ReadAllSpec(r, |bs|);
    if |bs| == 0 {
      assert InputStream.ReadAll(InputStream.Corrected, r, 0).value.bytes == [];
    } else {
      assert (bs + Zeros(Padding(|bs|)))[0..|bs|] == bs;
    }
  }
}
