/** A parsed command: the mode, the source files, the password, the archive
    name and the output directory, filled in flag by flag, then printed or
    carried out through the Zipper. Paths are kept as the text a java.io.File
    holds; the working directory is a parameter wherever a path is made
    absolute. */
module Commands {
  import opened Base
  import opened Paths
  import opened Disk
  import opened Cipher
  import opened Zipper
  import opened Flags

  datatype ArgError = InvalidArgument(message: string)

  /** The fields of a command; None stands for null. */
  datatype CommandState = CommandState(
    mode: Option<Mode>,
    files: seq<string>,
    password: Option<string>,
    name: Option<string>,
    outputDirectory: Option<string>)

  const EMPTY: CommandState := CommandState(None, [], None, None, None)

  // ---------------------------------------------------------------------
  // Setting properties

  /** `setMode(String)`: only the spellings of encrypt and decrypt are modes. */
  function ModeOf(value: string): (r: Result<Mode, ArgError>)
    ensures value in MODE_VALUE_ENCRYPT ==> r == Ok(ENCRYPT)
    ensures value in MODE_VALUE_DECRYPT ==> r == Ok(DECRYPT)
    ensures r.Ok? <==> value in MODE_VALUE_ENCRYPT || value in MODE_VALUE_DECRYPT
    ensures r.Ok? ==> r.value != HELP
    ensures r.Err? ==> r.error == InvalidArgument("Invalid mode")
  {
    if value in MODE_VALUE_ENCRYPT then Ok(ENCRYPT)
    else if value in MODE_VALUE_DECRYPT then Ok(DECRYPT)
    else Err(InvalidArgument("Invalid mode"))
  }

  /** `setProperty` on the fields: each recognised flag sets its own field, an
      output directory is made absolute against `cwd`. */
  function ApplyProperty(s: CommandState, cwd: string, flag: string, value: string): (r: Result<CommandState, ArgError>)
    ensures r.Ok? ==> r.value.files == s.files
    ensures !IsPropertyFlag(flag) ==> r == Err(InvalidArgument("Unrecognised argument: " + flag + "."))
  {
    if flag in MODE_FLAG then
      match ModeOf(value)
      case Err(e) => Err(e)
      case Ok(m) => Ok(s.(mode := Some(m)))
    else if flag in PASSWORD_FLAG then Ok(s.(password := Some(value)))
    else if flag in NAME_FLAG then Ok(s.(name := Some(value)))
    else if flag in OUTPUT_DIRECTORY_FLAG then Ok(s.(outputDirectory := Some(Absolute(cwd, value))))
    else Err(InvalidArgument("Unrecognised argument: " + flag + "."))
  }

  /** `setDefaultOutputDirectory`: the working directory when encrypting, its
      `decrypted` child when decrypting; otherwise the field is left alone. */
  function DefaultOutputDirectory(s: CommandState, cwd: string): (r: CommandState)
    ensures r == s.(outputDirectory := r.outputDirectory)
    ensures s.mode == Some(ENCRYPT) || s.mode == Some(DECRYPT) ==> r.outputDirectory.Some?
  {
    if s.mode == Some(ENCRYPT) then s.(outputDirectory := Some(Absolute(cwd, "")))
    else if s.mode == Some(DECRYPT) then s.(outputDirectory := Some(Absolute(cwd, "decrypted")))
    else s
  }

  // ---------------------------------------------------------------------
  // Printing

  /** One line per source file, each its file name after a tab. */
  function FileLines(files: seq<string>): string {
    if files == [] then "" else FileLines(files[..|files| - 1]) + "\n\t" + Name(files[|files| - 1])
  }

  lemma FileLinesStep(files: seq<string>, i: nat)
    requires i < |files|
    ensures FileLines(files[..i + 1]) == FileLines(files[..i]) + "\n\t" + Name(files[i])
  {
    assert files[..i + 1][..i] == files[..i];
  }

  /** The lines before the source files. */
  function Heading(s: CommandState): string {
    var withMode := if s.mode.Some? then "Mode:\n\t" + ModeName(s.mode.value) else "";
    var withPassword := if s.password.Some? then withMode + "\nPassword:\n\t" + Repeat('*', |s.password.value|) else withMode;
    var withDirectory := if s.outputDirectory.Some? then withPassword + "\nOutput directory:\n\t" + s.outputDirectory.value else withPassword;
    if s.name.Some? && s.mode == Some(ENCRYPT) then withDirectory + "\nOutput filename:\n\t" + s.name.value else withDirectory
  }

  /** `toString`: the set fields in a fixed order; the password only as one
      '*' per character; the archive name only when encrypting. */
  function Describe(s: CommandState): (r: string)
    ensures s.mode.Some? ==> StartsWith(r, "Mode:\n\t" + ModeName(s.mode.value))
    ensures s.files == [] ==> r == Heading(s)
  {
    if s.files != [] then Heading(s) + "\nSource file(s):" + FileLines(s.files) else Heading(s)
  }

  // ---------------------------------------------------------------------
  // Carrying out

  /** The disk as a command sees it: the file system, in which an archive
      file is an `ArchiveFile` node, and the sealed content of each archive
      file, kept beside it by path. */
  datatype World = World(fs: FileSys, archives: map<Segments, Archive>)

  /** The world after a command, and the exception that ended it, if any. */
  datatype Run = Run(world: World, error: Option<ZipError>)

  /** `p` is an archive file that can be opened for reading. */
  predicate HoldsArchive(w: World, p: Segments) {
    p in w.fs && w.fs[p] == ArchiveFile && p in w.archives
  }

  /** The decrypting loop: each archive in turn into the directory named after
      it under the output directory; the first exception ends the loop and
      keeps what earlier archives wrote. */
  function DecryptAll(cwd: string, key: Key, outputDirectory: Option<string>, files: seq<string>, w: World): (r: Run)
    ensures r.world.archives == w.archives
    ensures files == [] ==> r == Run(w, None)
    ensures files != [] && (files[0] == "" || !HoldsArchive(w, Canonical(Absolute(cwd, files[0])))) ==>
      r == Run(w, Some(FileNotFound(files[0])))
    decreases |files|
  {
    if files == [] then Run(w, None)
    else
      var archive := Canonical(Absolute(cwd, files[0]));
      if files[0] == "" || !HoldsArchive(w, archive) then Run(w, Some(FileNotFound(files[0])))
      else
        var target := Absolute(cwd, ChildFile(outputDirectory, Name(files[0])));
        var o := UnzipArchive(key, target, w.archives[archive], w.fs);
        if o.error.Some? then Run(w.(fs := o.fs), o.error)
        else DecryptAll(cwd, key, outputDirectory, files[1..], w.(fs := o.fs))
  }

  /** What carrying out a command needs: a mode and a password, and an archive
      name when encrypting. */
  predicate Executable(s: CommandState) {
    s.mode.Some? && s.password.Some? && (s.mode == Some(ENCRYPT) ==> s.name.Some?)
  }

  /** `execute`: encrypting packs every source into one archive placed at the
      name under the output directory; decrypting unpacks each archive. */
  function Perform(s: CommandState, cwd: string, w: World): (r: Run)
    requires Executable(s)
    ensures s.mode == Some(HELP) ==> r == Run(w, None)
    ensures s.mode == Some(ENCRYPT) ==>
      var place := Place(cwd, s.outputDirectory, s.name.value);
      r.world.fs == (if CanOpenForWrite(w.fs, place) then w.fs[place := ArchiveFile] else w.fs)
    ensures s.mode == Some(DECRYPT) ==> r.world.archives == w.archives
  {
    var key := DeriveKey(s.password.value);
    match s.mode.value
    case ENCRYPT =>
      var place := Place(cwd, s.outputDirectory, s.name.value);
      var zipped := ZipArchive(w.fs, cwd, key, s.files, s.name.value, s.outputDirectory);
      (match zipped.written
       case None => Run(w, zipped.error)
       case Some(archive) => Run(World(w.fs[place := ArchiveFile], w.archives[place := archive]), zipped.error))
    case DECRYPT => DecryptAll(cwd, key, s.outputDirectory, s.files, w)
    case HELP => Run(w, None)
  }

  /** The decrypting loop of `execute`: each archive in turn into the directory
      named after it, stopping at the first exception. */
  method DecryptEach(cwd: string, key: Key, outputDirectory: Option<string>, files: seq<string>, w: World) returns (r: Run)
    ensures r == DecryptAll(cwd, key, outputDirectory, files, w)
  {
    var current := w;
    var i := 0;
    while i < |files|
      invariant 0 <= i <= |files|
      invariant DecryptAll(cwd, key, outputDirectory, files[i..], current) == DecryptAll(cwd, key, outputDirectory, files, w)
    {
      var file := files[i];
      var archive := Canonical(Absolute(cwd, file));
      if file == "" || !HoldsArchive(current, archive) {
        return Run(current, Some(FileNotFound(file)));
      }
      var target := Absolute(cwd, ChildFile(outputDirectory, Name(file)));
      var o := Unzip(target, EntriesOf(key, current.archives[archive]), current.fs);
      assert files[i..][1..] == files[i + 1..];
      current := current.(fs := o.fs);
      if o.error.Some? {
        return Run(current, o.error);
      }
      i := i + 1;
    }
    r := Run(current, None);
  }

  // ---------------------------------------------------------------------
  // The command object

  class Command {
    var mode: Option<Mode>
    var files: seq<string>
    var password: Option<string>
    var name: Option<string>
    var outputDirectory: Option<string>

    function State(): CommandState
      reads this
    {
      CommandState(mode, files, password, name, outputDirectory)
    }

    /** `Command()`: every field null, no files. */
    constructor ()
      ensures State() == EMPTY
    {
      mode, files, password, name, outputDirectory := None, [], None, None, None;
    }

    /** `Command(Mode)`: the mode alone. */
    constructor WithMode(mode: Mode)
      ensures State() == EMPTY.(mode := Some(mode))
    {
      this.mode, files, password, name, outputDirectory := Some(mode), [], None, None, None;
    }

    /** `addFile`: appends the file, as `new File(file)` holds it. */
    method AddFile(file: string)
      modifies this
      ensures State() == old(State()).(files := old(files) + [Normalize(file)])
    {
      files := files + [Normalize(file)];
    }

    method SetMode(mode: Mode)
      modifies this
      ensures State() == old(State()).(mode := Some(mode))
    {
      this.mode := Some(mode);
    }

    /** `setMode(String)`: an unknown value leaves the mode as it was. */
    method SetModeValue(value: string) returns (err: Option<ArgError>)
      modifies this
      ensures ModeOf(value).Ok? ==> err == None && State() == old(State()).(mode := Some(ModeOf(value).value))
      ensures ModeOf(value).Err? ==> err == Some(ModeOf(value).error) && State() == old(State())
    {
      if value in MODE_VALUE_ENCRYPT {
        mode := Some(ENCRYPT);
        return None;
      } else if value in MODE_VALUE_DECRYPT {
        mode := Some(DECRYPT);
        return None;
      }
      return Some(InvalidArgument("Invalid mode"));
    }

    method SetName(name: string)
      modifies this
      ensures State() == old(State()).(name := Some(name))
    {
      this.name := Some(name);
    }

    /** `setProperty`: a rejected flag or mode value changes nothing. */
    method SetProperty(flag: string, value: string, cwd: string) returns (err: Option<ArgError>)
      modifies this
      ensures ApplyProperty(old(State()), cwd, flag, value).Ok? ==>
        err == None && State() == ApplyProperty(old(State()), cwd, flag, value).value
      ensures ApplyProperty(old(State()), cwd, flag, value).Err? ==>
        err == Some(ApplyProperty(old(State()), cwd, flag, value).error) && State() == old(State())
    {
      if flag in MODE_FLAG {
        err := SetModeValue(value);
      } else if flag in PASSWORD_FLAG {
        password := Some(value);
        err := None;
      } else if flag in NAME_FLAG {
        name := Some(value);
        err := None;
      } else if flag in OUTPUT_DIRECTORY_FLAG {
        outputDirectory := Some(Absolute(cwd, value));
        err := None;
      } else {
        err := Some(InvalidArgument("Unrecognised argument: " + flag + "."));
      }
    }

    method SetDefaultOutputDirectory(cwd: string)
      modifies this
      ensures State() == DefaultOutputDirectory(old(State()), cwd)
    {
      if mode == Some(ENCRYPT) {
        outputDirectory := Some(Absolute(cwd, ""));
      }
      if mode == Some(DECRYPT) {
        outputDirectory := Some(Absolute(cwd, "decrypted"));
      }
    }

    /** `toString`, building the text piece by piece. */
    method ToString() returns (s: string)
      ensures s == Describe(State())
    {
      s := "";
      if mode.Some? {
        s := "Mode:\n\t" + ModeName(mode.value);
      }
      if password.Some? {
        s := s + "\nPassword:\n\t" + Repeat('*', |password.value|);
      }
      if outputDirectory.Some? {
        s := s + "\nOutput directory:\n\t" + outputDirectory.value;
      }
      if name.Some? && mode == Some(ENCRYPT) {
        s := s + "\nOutput filename:\n\t" + name.value;
      }
      if files != [] {
        var list := "";
        var i := 0;
        while i < |files|
          invariant 0 <= i <= |files|
          invariant list == FileLines(files[..i])
        {
          FileLinesStep(files, i);
          list := list + "\n\t" + Name(files[i]);
          i := i + 1;
        }
        assert files[..|files|] == files;
        s := s + "\nSource file(s):" + list;
      }
    }

    /** `execute`: one Zipper for the password; then either one archive of all
        files, or each file unpacked in turn until one fails. */
    method Execute(cwd: string, w: World) returns (r: Run)
      requires Executable(State())
      ensures r == Perform(State(), cwd, w)
    {
      var key := DeriveKey(password.value);
      if mode == Some(ENCRYPT) {
        var place := Place(cwd, outputDirectory, name.value);
        var zipped := Zip(w.fs, cwd, key, files, name.value, outputDirectory);
        if zipped.written.None? {
          return Run(w, zipped.error);
        }
        return Run(World(w.fs[place := ArchiveFile], w.archives[place := zipped.written.value]), zipped.error);
      }
      if mode == Some(DECRYPT) {
        r := DecryptEach(cwd, key, outputDirectory, files, w);
        return;
      }
      r := Run(w, None);
    }
  }
}
