/** What a command promises: each flag sets its own field and the last one
    wins, the printed form hides the password, and carrying out an encrypting
    command followed by a decrypting one gives back every source file. */
module CommandProperties {
  import opened Base
  import opened Paths
  import opened Disk
  import opened Cipher
  import opened Zipper
  import opened ZipperProperties
  import opened Flags
  import opened Commands

  // ---------------------------------------------------------------------
  // Setting properties

  /** A flag is refused exactly when it is not one of the four property flags
      or when it is the mode flag with a value that is no mode. */
  lemma PropertyRefused(s: CommandState, cwd: string, flag: string, value: string)
    ensures ApplyProperty(s, cwd, flag, value).Err? <==>
      !IsPropertyFlag(flag) || (flag in MODE_FLAG && ModeOf(value).Err?)
  {
  }

  /** An accepted flag sets the field of its own group to the value (made
      absolute for the output directory) and leaves every other field, the
      files included, as it was. */
  lemma OneFieldPerFlag(s: CommandState, cwd: string, flag: string, value: string)
    requires IsPropertyFlag(flag) && ApplyProperty(s, cwd, flag, value).Ok?
    ensures var t := ApplyProperty(s, cwd, flag, value).value;
      && t.files == s.files
      && (if FlagGroup(flag) == 0 then ModeOf(value).Ok? && t.mode == Some(ModeOf(value).value) else t.mode == s.mode)
      && (if FlagGroup(flag) == 1 then t.password == Some(value) else t.password == s.password)
      && (if FlagGroup(flag) == 2 then t.name == Some(value) else t.name == s.name)
      && (if FlagGroup(flag) == 3 then t.outputDirectory == Some(Absolute(cwd, value)) else t.outputDirectory == s.outputDirectory)
  {
  }

  /** Setting the same property twice keeps the second value: the first
      setting leaves no trace. */
  lemma LastPropertyWins(s: CommandState, cwd: string, first: string, v1: string, second: string, v2: string)
    requires IsPropertyFlag(first) && IsPropertyFlag(second) && FlagGroup(first) == FlagGroup(second)
    requires ApplyProperty(s, cwd, first, v1).Ok?
    ensures ApplyProperty(ApplyProperty(s, cwd, first, v1).value, cwd, second, v2) == ApplyProperty(s, cwd, second, v2)
  {
    OneFieldPerFlag(s, cwd, first, v1);
  }

  /** Properties of different groups can be given in either order. */
  lemma PropertiesCommute(s: CommandState, cwd: string, f1: string, v1: string, f2: string, v2: string)
    requires IsPropertyFlag(f1) && IsPropertyFlag(f2) && FlagGroup(f1) != FlagGroup(f2)
    requires ApplyProperty(s, cwd, f1, v1).Ok? && ApplyProperty(s, cwd, f2, v2).Ok?
    ensures ApplyProperty(ApplyProperty(s, cwd, f1, v1).value, cwd, f2, v2).Ok?
    ensures ApplyProperty(ApplyProperty(s, cwd, f2, v2).value, cwd, f1, v1).Ok?
    ensures ApplyProperty(ApplyProperty(s, cwd, f1, v1).value, cwd, f2, v2).value
         == ApplyProperty(ApplyProperty(s, cwd, f2, v2).value, cwd, f1, v1).value
  {
    var a := ApplyProperty(s, cwd, f1, v1).value;
    var b := ApplyProperty(s, cwd, f2, v2).value;
    OneFieldPerFlag(s, cwd, f1, v1);
    OneFieldPerFlag(s, cwd, f2, v2);
    assert ApplyProperty(a, cwd, f2, v2).Ok?;
    assert ApplyProperty(b, cwd, f1, v1).Ok?;
    OneFieldPerFlag(a, cwd, f2, v2);
    OneFieldPerFlag(b, cwd, f1, v1);
  }

  // ---------------------------------------------------------------------
  // Printing

  /** The printed form depends on the password only through its length: two
      passwords of the same length print the same. */
  lemma DescribeHidesPassword(s: CommandState, p: string, q: string)
    requires |p| == |q|
    ensures Describe(s.(password := Some(p))) == Describe(s.(password := Some(q)))
  {
  }

  /** The archive name is printed only when encrypting. */
  lemma NameOnlyWhenEncrypting(s: CommandState, name: Option<string>)
    requires s.mode != Some(ENCRYPT)
    ensures Describe(s.(name := name)) == Describe(s)
  {
  }

  /** The file lines of a list are those of its parts, in list order. */
  lemma {:induction false} FileLinesAppend(a: seq<string>, b: seq<string>)
    ensures FileLines(a + b) == FileLines(a) + FileLines(b)
    decreases |b|
  {
    if b != [] {
      var front := b[..|b| - 1];
      var last := b[|b| - 1];
      assert b == front + [last];
      assert a + b == (a + front) + [last];
      var name := Name(last);
      LastLine(a + b, a + front, last, name);
      LastLine(b, front, last, name);
      FileLinesAppend(a, front);
      Associate(FileLines(a), FileLines(front), "\n\t", name);
    } else {
      assert a + b == a;
    }
  }

  /** A list that ends in `last` prints one more line than its front: the
      name of `last` after a tab. */
  lemma LastLine(files: seq<string>, front: seq<string>, last: string, name: string)
    requires files == front + [last] && name == Name(last)
    ensures FileLines(files) == FileLines(front) + "\n\t" + name
  {
    assert files[..|files| - 1] == front;
  }

  /** Regrouping four strings; stated apart so that the proof above sees no
      other string. */
  lemma Associate(x: string, y: string, z: string, u: string)
    ensures x + y + z + u == x + (y + z + u)
  {
  }

  // ---------------------------------------------------------------------
  // Carrying out

  /** The decrypting loop over two lists is the loop over the first, then, if
      nothing failed, the loop over the second from the world it left. */
  lemma {:induction false} DecryptAllAppend(cwd: string, key: Key, out: Option<string>, a: seq<string>, b: seq<string>, w: World)
    ensures var first := DecryptAll(cwd, key, out, a, w);
      DecryptAll(cwd, key, out, a + b, w) ==
        if first.error.Some? then first else DecryptAll(cwd, key, out, b, first.world)
    decreases |a|
  {
    if a == [] {
      assert a + b == b;
    } else {
      assert (a + b)[0] == a[0];
      assert (a + b)[1..] == a[1..] + b;
      var archive := Canonical(Absolute(cwd, a[0]));
      if a[0] != "" && HoldsArchive(w, archive) {
        var target := Absolute(cwd, ChildFile(out, Name(a[0])));
        var o := UnzipArchive(key, target, w.archives[archive], w.fs);
        DecryptAllAppend(cwd, key, out, a[1..], b, w.(fs := o.fs));
      }
    }
  }

  /** Encrypting opens the output file first and fails, changing nothing, if
      it cannot. Otherwise the output file becomes an archive file: with no
      exception it holds the archive of all sources, in order, as read after
      the open; when a source is unreadable or repeats a name, it holds the
      archive of the sources before that one. Nothing else changes. */
  lemma EncryptStoresArchive(s: CommandState, cwd: string, w: World)
    requires Executable(s) && s.mode == Some(ENCRYPT)
    ensures var place := Place(cwd, s.outputDirectory, s.name.value);
      Perform(s, cwd, w).error.None? <==>
        CanOpenForWrite(w.fs, place) && Readable(Truncated(w.fs, place), cwd, s.files) && DistinctNames(s.files)
    ensures var place := Place(cwd, s.outputDirectory, s.name.value);
      !CanOpenForWrite(w.fs, place) ==> Perform(s, cwd, w) == Run(w, Some(CannotOpen(place)))
    ensures var place := Place(cwd, s.outputDirectory, s.name.value);
      Perform(s, cwd, w).error.None? ==>
        Readable(Truncated(w.fs, place), cwd, s.files) &&
        Perform(s, cwd, w).world ==
          World(w.fs[place := ArchiveFile],
                w.archives[place := Encrypt(DeriveKey(s.password.value), Packed(Truncated(w.fs, place), cwd, s.files))])
    ensures var place := Place(cwd, s.outputDirectory, s.name.value);
      var afterOpen := Truncated(w.fs, place);
      CanOpenForWrite(w.fs, place) && Perform(s, cwd, w).error.Some? ==>
        exists k :: 0 <= k < |s.files| && Readable(afterOpen, cwd, s.files[..k]) && DistinctNames(s.files[..k])
          && Perform(s, cwd, w).world ==
               World(w.fs[place := ArchiveFile],
                     w.archives[place := Encrypt(DeriveKey(s.password.value), Packed(afterOpen, cwd, s.files[..k]))])
  {
    var key := DeriveKey(s.password.value);
    ZipArchiveSucceeds(w.fs, cwd, key, s.files, s.name.value, s.outputDirectory);
    if CanOpenForWrite(w.fs, Place(cwd, s.outputDirectory, s.name.value)) && Perform(s, cwd, w).error.Some? {
      ZipArchiveStops(w.fs, cwd, key, s.files, s.name.value, s.outputDirectory);
    }
  }

  /** Decrypting an archive with a password other than the one it was made
      with fails as an empty archive and leaves the world as it was. */
  lemma WrongPasswordChangesNothing(cwd: string, password: string, other: string, out: Option<string>, file: string, files: seq<string>, w: World, entries: seq<Entry>)
    requires password != other
    requires file != "" && HoldsArchive(w, Canonical(Absolute(cwd, file)))
    requires w.archives[Canonical(Absolute(cwd, file))] == Encrypt(DeriveKey(password), entries)
    ensures DecryptAll(cwd, DeriveKey(other), out, [file] + files, w) == Run(w, Some(EmptyOrWrongPassword))
  {
    var target := Absolute(cwd, ChildFile(out, Name(file)));
    WrongPasswordLeavesDiskUnchanged(password, other, target, entries, w.fs);
    assert ([file] + files)[0] == file;
  }

  /** The round trip through the command line: encrypting the sources into an
      archive file, then decrypting that archive file with the same password,
      puts every source's bytes under its name in the directory named after
      the archive. No source may be the archive file, which the open empties
      before it is read; the archive file must lie outside that directory,
      and not be one of the files extracted from it. */
  lemma EncryptThenDecrypt(
    cwd: string, password: string, sources: seq<string>, name: string, out: Option<string>,
    archiveFile: string, decryptOut: Option<string>, w: World)
    requires sources != []
    requires Readable(w.fs, cwd, sources) && DistinctNames(sources)
    requires forall i :: 0 <= i < |sources| ==> Plain(Name(sources[i]))
    requires CanOpenForWrite(w.fs, Place(cwd, out, name))
    requires forall i :: 0 <= i < |sources| ==> Canonical(Absolute(cwd, sources[i])) != Place(cwd, out, name)
    requires archiveFile != "" && Canonical(Absolute(cwd, archiveFile)) == Place(cwd, out, name)
    requires var dir := Canonical(Absolute(cwd, ChildFile(decryptOut, Name(archiveFile))));
      && WellFormed(w.fs) && CanHold(w.fs, dir)
      && !IsPrefix(Place(cwd, out, name), dir)
      && forall i :: 0 <= i < |sources| ==>
           !IsDirectory(w.fs, dir + [Name(sources[i])]) && dir + [Name(sources[i])] != Place(cwd, out, name)
    ensures var encrypt := CommandState(Some(ENCRYPT), sources, Some(password), Some(name), out);
      var decrypt := CommandState(Some(DECRYPT), [archiveFile], Some(password), None, decryptOut);
      var first := Perform(encrypt, cwd, w);
      var second := Perform(decrypt, cwd, first.world);
      var dir := Canonical(Absolute(cwd, ChildFile(decryptOut, Name(archiveFile))));
      && first.error == None
      && second.error == None
      && forall i :: 0 <= i < |sources| ==>
           dir + [Name(sources[i])] in second.world.fs &&
           second.world.fs[dir + [Name(sources[i])]] == File(ReadSource(w.fs, cwd, sources[i]).value)
  {
    var encrypt := CommandState(Some(ENCRYPT), sources, Some(password), Some(name), out);
    var place := Place(cwd, out, name);
    var dir := Canonical(Absolute(cwd, ChildFile(decryptOut, Name(archiveFile))));
    ArchiveFileBesideTarget(w.fs, place, dir);
    OpenKeepsSources(w.fs, cwd, sources, place);
    EncryptStoresArchive(encrypt, cwd, w);
    DecryptPacked(cwd, password, sources, archiveFile, decryptOut, Perform(encrypt, cwd, w).world, w.fs);
  }

  /** Decrypting an archive file that holds the packed sources, with the
      password they were packed under, recreates every source under its name
      in the directory named after the archive. */
  lemma DecryptPacked(cwd: string, password: string, sources: seq<string>, archiveFile: string, decryptOut: Option<string>,
                      v: World, fsA: FileSys)
    requires sources != []
    requires Readable(fsA, cwd, sources) && DistinctNames(sources)
    requires forall i :: 0 <= i < |sources| ==> Plain(Name(sources[i]))
    requires archiveFile != "" && HoldsArchive(v, Canonical(Absolute(cwd, archiveFile)))
    requires v.archives[Canonical(Absolute(cwd, archiveFile))] == Encrypt(DeriveKey(password), Packed(fsA, cwd, sources))
    requires var dir := Canonical(Absolute(cwd, ChildFile(decryptOut, Name(archiveFile))));
      && WellFormed(v.fs) && CanHold(v.fs, dir)
      && forall i :: 0 <= i < |sources| ==> !IsDirectory(v.fs, dir + [Name(sources[i])])
    ensures var decrypt := CommandState(Some(DECRYPT), [archiveFile], Some(password), None, decryptOut);
      var second := Perform(decrypt, cwd, v);
      var dir := Canonical(Absolute(cwd, ChildFile(decryptOut, Name(archiveFile))));
      && second.error == None
      && forall i :: 0 <= i < |sources| ==>
           dir + [Name(sources[i])] in second.world.fs &&
           second.world.fs[dir + [Name(sources[i])]] == File(ReadSource(fsA, cwd, sources[i]).value)
  {
    var key := DeriveKey(password);
    var decrypt := CommandState(Some(DECRYPT), [archiveFile], Some(password), None, decryptOut);
    var targetText := Absolute(cwd, ChildFile(decryptOut, Name(archiveFile)));
    var entries := Packed(fsA, cwd, sources);
    var o := ExtractAll(targetText, entries, v.fs);
    assert UnzipArchive(key, targetText, v.archives[Canonical(Absolute(cwd, archiveFile))], v.fs) == o by {
      DecryptEncrypt(password, entries);
      PackedEntries(fsA, cwd, sources);
    }
    assert Perform(decrypt, cwd, v) == Run(v.(fs := o.fs), o.error) by {
      DecryptSingle(cwd, key, decryptOut, archiveFile, v);
    }
    ExtractPacked(fsA, cwd, sources, targetText, v.fs);
  }

  /** An archive file written outside a directory that can hold files keeps
      the file system well formed and the directory able to hold them. */
  lemma ArchiveFileBesideTarget(fs: FileSys, place: Segments, dir: Segments)
    requires WellFormed(fs) && CanOpenForWrite(fs, place)
    requires CanHold(fs, dir) && !IsPrefix(place, dir)
    ensures WellFormed(fs[place := ArchiveFile]) && CanHold(fs[place := ArchiveFile], dir)
  {
    WriteKeepsWellFormed(fs, place, ArchiveFile);
    assert place != dir by {
      assert dir[..|dir|] == dir;
    }
    forall k | 0 <= k < |dir| ensures !IsFile(fs[place := ArchiveFile], dir[..k]) {
      assert IsPrefix(dir[..k], dir);
    }
  }

  /** Decrypting one archive file that exists: its entries are extracted into
      the directory named after it, and that extraction's outcome is the
      command's. */
  lemma DecryptSingle(cwd: string, key: Key, out: Option<string>, file: string, w: World)
    requires file != "" && HoldsArchive(w, Canonical(Absolute(cwd, file)))
    ensures var o := UnzipArchive(key, Absolute(cwd, ChildFile(out, Name(file))), w.archives[Canonical(Absolute(cwd, file))], w.fs);
      DecryptAll(cwd, key, out, [file], w) == Run(w.(fs := o.fs), o.error)
  {
    assert [file][1..] == [];
  }
}
