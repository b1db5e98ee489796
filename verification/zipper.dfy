/** The Zipper: packing files into one encrypted archive, and extracting an
    archive's entries into a directory with a guard against entries that would
    land outside it. The archive container is modelled as its sequence of
    entries; the file system as a map from canonical paths to nodes. */
module Zipper {
  import opened Base
  import opened Paths
  import opened Disk
  import opened Cipher

  const BUFFER_SIZE: nat := 1024

  /** A container entry: its name and the bytes stored under it. */
  datatype Entry = Entry(name: string, data: seq<byte>)

  /** `ZipEntry.isDirectory`: the name ends with '/'. */
  predicate IsDirectoryEntry(e: Entry) {
    |e.name| > 0 && e.name[|e.name| - 1] == '/'
  }

  datatype ZipError =
    | OutsideTargetDir(name: string)           // "Entry is outside of the target dir: "
    | FailedToCreateDirectory(path: Segments)  // "Failed to create directory "
    | CannotOpen(path: Segments)               // FileOutputStream refused the path
    | EmptyOrWrongPassword                     // "File empty and/or failed to decrypt. Check password."
    | FileNotFound(source: string)              // FileInputStream refused a source file
    | DuplicateEntry(name: string)             // ZipOutputStream refuses a repeated entry name

  /** The file system after an extraction, and the exception that stopped it, if any.
      Nothing is rolled back: work done before the exception stays. */
  datatype Outcome = Outcome(fs: FileSys, error: Option<ZipError>)

  /** The encrypted archive file: the cipher wraps the whole container. */
  type Archive = Sealed<seq<Entry>>

  // ---------------------------------------------------------------------
  // Streams and the copy loop

  /** An input stream over a fixed sequence of bytes. */
  class ByteSource {
    const data: seq<byte>
    var position: nat

    ghost predicate Valid()
      reads this
    {
      position <= |data|
    }

    constructor (data: seq<byte>)
      ensures Valid() && this.data == data && position == 0
    {
      this.data := data;
      position := 0;
    }

    /** `InputStream.read(byte[])`: 0 for an empty buffer, -1 at the end of the
        data, otherwise some number of bytes between 1 and the buffer length,
        copied to the front of the buffer. */
    method Read(buffer: array<byte>) returns (n: int)
      requires Valid()
      modifies this, buffer
      ensures Valid()
      ensures buffer.Length == 0 ==> n == 0 && position == old(position)
      ensures buffer.Length > 0 && old(position) == |data| ==> n == -1 && position == old(position)
      ensures buffer.Length > 0 && old(position) < |data| ==>
        && 0 < n <= buffer.Length
        && position == old(position) + n
        && buffer[..n] == data[old(position)..position]
    {
      if buffer.Length == 0 {
        return 0;
      }
      if position == |data| {
        return -1;
      }
      var available := |data| - position;
      var most := if available < buffer.Length then available else buffer.Length;
      n :| 0 < n <= most;
      var start := position;
      var k := 0;
      while k < n
        invariant 0 <= k <= n
        invariant position == start
        invariant buffer[..k] == data[start..start + k]
      {
        buffer[k] := data[start + k];
        k := k + 1;
      }
      position := start + n;
    }
  }

  /** An output stream that keeps what was written to it. */
  class ByteSink {
    var written: seq<byte>

    constructor ()
      ensures written == []
    {
      written := [];
    }

    /** `OutputStream.write(byte[], int, int)`. */
    method Write(buffer: array<byte>, offset: nat, length: nat)
      requires offset + length <= buffer.Length
      modifies this
      ensures written == old(written) + buffer[offset..offset + length]
    {
      written := written + buffer[offset..offset + length];
    }
  }

  /** `writeToFile`: copies the rest of the input to the output, one buffer's
      worth at a time, until `read` reports nothing more. With a non-empty
      buffer the output receives exactly the remaining input, in order. */
  method WriteToFile(input: ByteSource, output: ByteSink, buffer: array<byte>)
    requires input.Valid()
    modifies input, output, buffer
    ensures input.Valid()
    ensures buffer.Length > 0 ==>
      output.written == old(output.written) + input.data[old(input.position)..] && input.position == |input.data|
    ensures buffer.Length == 0 ==> output.written == old(output.written) && input.position == old(input.position)
  {
    ghost var start := input.position;
    while true
      invariant input.Valid() && start <= input.position
      invariant output.written == old(output.written) + input.data[start..input.position]
      invariant buffer.Length == 0 ==> input.position == start
      decreases |input.data| - input.position
    {
      var readBytes := input.Read(buffer);
      if readBytes <= 0 {
        break;
      }
      ghost var before := input.position - readBytes;
      output.Write(buffer, 0, readBytes);
      assert input.data[start..input.position] == input.data[start..before] + input.data[before..input.position];
    }
  }

  // ---------------------------------------------------------------------
  // The containment guard

  /** The destination of an entry: `new File(dir, name)`, canonicalised, which
      is the name's segments walked from the canonical directory
      (`Paths.ChildCanonical`). `dir` is an absolute path, as the command
      passes; a relative one would be resolved from the root. */
  function Destination(dir: string, name: string): Segments {
    Resolve(Canonical(dir), Split(name))
  }

  /** `newFile` as written: the canonical destination text must start with the
      canonical directory text followed by the separator. */
  function NewFileAsWritten(dir: string, name: string): (r: Result<Segments, ZipError>)
    ensures r.Ok? ==> r.value == Destination(dir, name) && IsCanonical(r.value)
    ensures r.Err? ==> r.error == OutsideTargetDir(name)
  {
    var destDirPath := CanonicalPath(dir);
    var destFilePath := CanonicalPath(dir + "/" + name);
    if StartsWith(destFilePath, destDirPath + "/") then Ok(Destination(dir, name))
    else Err(OutsideTargetDir(name))
  }

  /** `newFile` as intended: the canonical destination must lie strictly inside
      the canonical directory. The extraction below uses this guard. */
  function NewFile(dir: string, name: string): (r: Result<Segments, ZipError>)
    ensures r.Ok? <==> StrictlyInside(Canonical(dir), Destination(dir, name))
    ensures r.Ok? ==> r.value == Destination(dir, name) && IsCanonical(r.value)
    ensures r.Err? ==> r.error == OutsideTargetDir(name)
  {
    if StrictlyInside(Canonical(dir), Destination(dir, name)) then Ok(Destination(dir, name))
    else Err(OutsideTargetDir(name))
  }

  /** `newFile(...).getParentFile()`, canonicalised: the name without its last
      segment, walked from the canonical directory. */
  function ParentDir(dir: string, name: string): Segments {
    var segments := Split(name);
    Resolve(Canonical(dir), segments[..|segments| - 1])
  }

  // ---------------------------------------------------------------------
  // Extraction

  /** `unzipFile`: checks the destination, then creates a directory for a
      directory entry, or creates the missing parent and writes the entry's
      bytes for a file entry. */
  function UnzipEntry(dir: string, e: Entry, fs: FileSys): (o: Outcome)
  {
    match NewFile(dir, e.name)
    case Err(err) => Outcome(fs, Some(err))
    case Ok(dest) =>
      if IsDirectoryEntry(e) then
        if IsDirectory(fs, dest) then Outcome(fs, None)
        else
          match Mkdirs(fs, dest)
          case None => Outcome(fs, Some(FailedToCreateDirectory(dest)))
          case Some(made) => Outcome(made, None)
      else
        var parent := ParentDir(dir, e.name);
        var made := if IsDirectory(fs, parent) then Some(fs) else Mkdirs(fs, parent);
        match made
        case None => Outcome(fs, Some(FailedToCreateDirectory(parent)))
        case Some(ready) =>
          if CanOpenForWrite(ready, dest) then Outcome(ready[dest := File(e.data)], None)
          else Outcome(ready, Some(CannotOpen(dest)))
  }

  /** The entries in stream order; the first exception stops the rest. */
  function ExtractAll(dir: string, entries: seq<Entry>, fs: FileSys): Outcome
    decreases |entries|
  {
    if entries == [] then Outcome(fs, None)
    else
      var first := UnzipEntry(dir, entries[0], fs);
      if first.error.Some? then first else ExtractAll(dir, entries[1..], first.fs)
  }

  /** `unzip(File, ZipInputStream)`: a stream without a first entry is reported
      as empty or undecryptable. */
  function UnzipEntries(dir: string, entries: seq<Entry>, fs: FileSys): Outcome {
    if entries == [] then Outcome(fs, Some(EmptyOrWrongPassword))
    else ExtractAll(dir, entries, fs)
  }

  /** The entries the container stream yields once decrypted under `key`: an
      undecodable stream yields no entry at all. */
  function EntriesOf(key: Key, archive: Archive): seq<Entry> {
    match Decrypt(key, archive)
    case None => []
    case Some(entries) => entries
  }

  /** `unzip(File, File)`: decrypt, read the container, extract. */
  function UnzipArchive(key: Key, dir: string, archive: Archive, fs: FileSys): Outcome {
    UnzipEntries(dir, EntriesOf(key, archive), fs)
  }

  /** `unzipFile` step by step, copying a file entry's bytes through the shared
      buffer. */
  method UnzipFile(dir: string, e: Entry, fs: FileSys, buffer: array<byte>) returns (o: Outcome)
    requires buffer.Length == BUFFER_SIZE
    modifies buffer
    ensures o == UnzipEntry(dir, e, fs)
  {
    var dest := NewFile(dir, e.name);
    if dest.Err? {
      return Outcome(fs, Some(dest.error));
    }
    if IsDirectoryEntry(e) {
      if !IsDirectory(fs, dest.value) {
        var made := Mkdirs(fs, dest.value);
        if made.None? {
          return Outcome(fs, Some(FailedToCreateDirectory(dest.value)));
        }
        return Outcome(made.value, None);
      }
      return Outcome(fs, None);
    }
    var parent := ParentDir(dir, e.name);
    var ready := fs;
    if !IsDirectory(fs, parent) {
      var made := Mkdirs(fs, parent);
      if made.None? {
        return Outcome(fs, Some(FailedToCreateDirectory(parent)));
      }
      ready := made.value;
    }
    if !CanOpenForWrite(ready, dest.value) {
      return Outcome(ready, Some(CannotOpen(dest.value)));
    }
    var written := CopyEntry(e.data, buffer);
    o := Outcome(ready[dest.value := File(written)], None);
  }

  /** The entry's stream copied into a new output file through the shared
      buffer. */
  method CopyEntry(data: seq<byte>, buffer: array<byte>) returns (written: seq<byte>)
    requires buffer.Length == BUFFER_SIZE
    modifies buffer
    ensures written == data
  {
    var input := new ByteSource(data);
    var output := new ByteSink();
    WriteToFile(input, output, buffer);
    written := output.written;
  }

  /** `unzip(File, ZipInputStream)`: takes entries one at a time, in stream
      order, until there is none left. */
  method Unzip(dir: string, stream: seq<Entry>, fs: FileSys) returns (o: Outcome)
    ensures o == UnzipEntries(dir, stream, fs)
    ensures stream == [] ==> o == Outcome(fs, Some(EmptyOrWrongPassword))
  {
    if |stream| == 0 {
      return Outcome(fs, Some(EmptyOrWrongPassword));
    }
    var buffer := new byte[BUFFER_SIZE];
    var current := fs;
    var i := 0;
    while i < |stream|
      invariant 0 <= i <= |stream|
      invariant buffer.Length == BUFFER_SIZE
      invariant ExtractAll(dir, stream[i..], current) == ExtractAll(dir, stream, fs)
    {
      assert stream[i..][1..] == stream[i + 1..];
      var step := UnzipFile(dir, stream[i], current, buffer);
      if step.error.Some? {
        return step;
      }
      current := step.fs;
      i := i + 1;
    }
    o := Outcome(current, None);
  }

  // ---------------------------------------------------------------------
  // Packing

  /** `new FileInputStream(path)`, for a path relative to `cwd`: only an
      ordinary file can be read. */
  function ReadSource(fs: FileSys, cwd: string, path: string): (r: Result<seq<byte>, ZipError>)
    ensures r.Ok? <==> path != "" && Canonical(Absolute(cwd, path)) in fs && fs[Canonical(Absolute(cwd, path))].File?
    ensures r.Ok? ==> fs[Canonical(Absolute(cwd, path))] == File(r.value)
    ensures r.Err? ==> r.error == FileNotFound(path)
  {
    var p := Canonical(Absolute(cwd, path));
    if path != "" && p in fs && fs[p].File? then Ok(fs[p].data) else Err(FileNotFound(path))
  }

  predicate HasEntryNamed(entries: seq<Entry>, name: string) {
    exists j :: 0 <= j < |entries| && entries[j].name == name
  }

  /** What the packing loop leaves in the container when it ends: the entries
      put so far, and the exception that ended it early, if any. */
  datatype Packing = Packing(entries: seq<Entry>, error: Option<ZipError>)

  /** The entries `zip` writes after `done`: for each source in order, open it,
      then put an entry named by the file's name, then copy its bytes. An
      exception ends the loop with the entries already put. */
  function ZipFrom(fs: FileSys, cwd: string, sources: seq<string>, done: seq<Entry>): Packing
    decreases |sources|
  {
    if sources == [] then Packing(done, None)
    else
      match ReadSource(fs, cwd, sources[0])
      case Err(err) => Packing(done, Some(err))
      case Ok(bytes) =>
        var name := Name(sources[0]);
        if HasEntryNamed(done, name) then Packing(done, Some(DuplicateEntry(name)))
        else ZipFrom(fs, cwd, sources[1..], done + [Entry(name, bytes)])
  }

  /** One step of `ZipFrom`, for the loop in `Zip`. */
  lemma ZipFromStep(fs: FileSys, cwd: string, sources: seq<string>, done: seq<Entry>)
    requires sources != []
    ensures ReadSource(fs, cwd, sources[0]).Err? ==>
      ZipFrom(fs, cwd, sources, done) == Packing(done, Some(ReadSource(fs, cwd, sources[0]).error))
    ensures ReadSource(fs, cwd, sources[0]).Ok? && HasEntryNamed(done, Name(sources[0])) ==>
      ZipFrom(fs, cwd, sources, done) == Packing(done, Some(DuplicateEntry(Name(sources[0]))))
    ensures ReadSource(fs, cwd, sources[0]).Ok? && !HasEntryNamed(done, Name(sources[0])) ==>
      ZipFrom(fs, cwd, sources, done) ==
        ZipFrom(fs, cwd, sources[1..], done + [Entry(Name(sources[0]), ReadSource(fs, cwd, sources[0]).value)])
  {
  }

  /** Where `new File(directory, name)` lies, as a canonical path. */
  function Place(cwd: string, directory: Option<string>, name: string): (p: Segments)
    ensures IsCanonical(p)
  {
    Canonical(Absolute(cwd, ChildFile(directory, name)))
  }

  /** What `zip` leaves: the sealed archive the output file holds, `None` when
      the output file could not be opened, and the exception raised, if any. */
  datatype ZipRun = ZipRun(written: Option<Archive>, error: Option<ZipError>)

  /** `zip`: the output file `name` under `directory` is opened first, which
      creates or empties it, then the container of all sources, read from the
      file system as the open left it, is written to it, encrypted under `key`.
      An exception while packing still closes the streams, so the output file
      holds the archive of the entries put before it. */
  function ZipArchive(fs: FileSys, cwd: string, key: Key, sources: seq<string>, name: string, directory: Option<string>): (r: ZipRun)
    ensures !CanOpenForWrite(fs, Place(cwd, directory, name)) ==> r == ZipRun(None, Some(CannotOpen(Place(cwd, directory, name))))
    ensures CanOpenForWrite(fs, Place(cwd, directory, name)) ==>
      var packing := ZipFrom(Truncated(fs, Place(cwd, directory, name)), cwd, sources, []);
      r.written.Some? && Decrypt(key, r.written.value) == Some(packing.entries) && r.error == packing.error
  {
    if !CanOpenForWrite(fs, Place(cwd, directory, name)) then ZipRun(None, Some(CannotOpen(Place(cwd, directory, name))))
    else
      var packing := ZipFrom(Truncated(fs, Place(cwd, directory, name)), cwd, sources, []);
      ZipRun(Some(Encrypt(key, packing.entries)), packing.error)
  }

  /** `zip` and `zipFile` step by step: the output file opened and emptied,
      then one entry per source file, in list order, each copied through a
      fresh buffer; the archive is closed on the way out of an exception. */
  method Zip(fs: FileSys, cwd: string, key: Key, sources: seq<string>, name: string, directory: Option<string>) returns (r: ZipRun)
    ensures r == ZipArchive(fs, cwd, key, sources, name, directory)
  {
    var outputFile := Place(cwd, directory, name);
    if !CanOpenForWrite(fs, outputFile) {
      return ZipRun(None, Some(CannotOpen(outputFile)));
    }
    var afterOpen := Truncated(fs, outputFile);
    var entries: seq<Entry> := [];
    var i := 0;
    while i < |sources|
      invariant 0 <= i <= |sources|
      invariant ZipFrom(afterOpen, cwd, sources[i..], entries) == ZipFrom(afterOpen, cwd, sources, [])
    {
      ZipFromStep(afterOpen, cwd, sources[i..], entries);
      assert sources[i..][1..] == sources[i + 1..];
      var read := ReadSource(afterOpen, cwd, sources[i]);
      if read.Err? {
        return ZipRun(Some(Encrypt(key, entries)), Some(read.error));
      }
      var entryName := Name(sources[i]);
      if HasEntryNamed(entries, entryName) {
        return ZipRun(Some(Encrypt(key, entries)), Some(DuplicateEntry(entryName)));
      }
      var input := new ByteSource(read.value);
      var output := new ByteSink();
      var buffer := new byte[BUFFER_SIZE];
      WriteToFile(input, output, buffer);
      assert output.written == read.value;
      entries := entries + [Entry(entryName, output.written)];
      i := i + 1;
    }
    r := ZipRun(Some(Encrypt(key, entries)), None);
  }
}
