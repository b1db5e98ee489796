/** What the Zipper promises: the containment guard, where extraction may
    write, the order and all-or-stop shape of extraction, and the round trip
    from packing files to unpacking them with the right password. */
module ZipperProperties {
  import opened Base
  import opened Paths
  import opened Disk
  import opened Cipher
  import opened Zipper

  // ---------------------------------------------------------------------
  // The containment guard

  /** Below any directory but the root, the guard as written and the intended
      guard agree. */
  lemma NewFileMatchesSource(dir: string, name: string)
    requires Canonical(dir) != []
    ensures NewFileAsWritten(dir, name) == NewFile(dir, name)
  {
    var c, p := Canonical(dir), Destination(dir, name);
    ChildCanonical(dir, name);
    assert CanonicalPath(dir) == Render(c);
    if p == [] {
      assert |Render(c) + "/"| > 1;
    } else {
      RenderPrefix(c, p);
    }
  }

  /** With the root as the target directory the guard as written refuses every
      entry: the prefix it looks for is "//". */
  lemma RootTargetRejectsEverything(dir: string, name: string)
    requires Canonical(dir) == []
    ensures NewFileAsWritten(dir, name) == Err(OutsideTargetDir(name))
  {
    ChildCanonical(dir, name);
    RootPrefixNeverMatches(Destination(dir, name));
  }

  /** An entry named by one plain name lands directly inside the directory. */
  lemma PlainNameAccepted(dir: string, name: string)
    requires Plain(name)
    ensures NewFile(dir, name) == Ok(Canonical(dir) + [name])
  {
    var c := Canonical(dir);
    assert Split(name) == [name];
    assert Resolve(c, [name]) == Resolve(c + [name], []) by { assert [name][1..] == []; }
  }

  /** The counterexample to the guard as written: "/" as target and the entry
      "a", which the intended guard places at "/a". */
  lemma RootTargetCounterexample()
    ensures NewFileAsWritten("/", "a") == Err(OutsideTargetDir("a"))
    ensures NewFile("/", "a") == Ok(["a"])
  {
    assert Split("/") == ["", ""] by { assert "/"[1..] == ""; }
    assert Canonical("/") == [];
    RootTargetRejectsEverything("/", "a");
    PlainNameAccepted("/", "a");
  }

  /** A leading '/' in an entry name does not escape: the name is walked from
      the directory like any other. */
  lemma AbsoluteNameStaysInside(dir: string, name: string)
    requires Plain(name)
    ensures NewFile(dir, "/" + name) == Ok(Canonical(dir) + [name])
  {
    var c := Canonical(dir);
    assert Split("/" + name) == ["", name] by {
      assert ("/" + name)[1..] == name;
    }
    assert Resolve(c, ["", name]) == Resolve(c, [name]) by { assert ["", name][1..] == [name]; }
    assert Resolve(c, [name]) == Resolve(c + [name], []) by { assert [name][1..] == []; }
  }

  /** A name that never climbs and names at least one real segment is accepted. */
  lemma DescendingNameAccepted(dir: string, name: string)
    requires forall i :: 0 <= i < |Split(name)| ==> Split(name)[i] != ".."
    requires exists i :: 0 <= i < |Split(name)| && Plain(Split(name)[i])
    ensures NewFile(dir, name).Ok?
  {
    ResolveDescends(Canonical(dir), Split(name));
  }

  /** An accepted name holds at least one real segment: names made only of
      empty, `.` and `..` segments are refused. */
  lemma AcceptedNameHasPlainSegment(dir: string, name: string)
    requires NewFile(dir, name).Ok?
    ensures exists i :: 0 <= i < |Split(name)| && Plain(Split(name)[i])
  {
    if forall i :: 0 <= i < |Split(name)| ==> !Plain(Split(name)[i]) {
      ResolveNeverGrows(Canonical(dir), Split(name));
      assert false;
    }
  }

  /** The path traversal the guard exists for: "../x" from below the root is
      refused. */
  lemma ParentEscapeRejected(dir: string, name: string)
    requires Canonical(dir) != [] && Plain(name)
    ensures NewFile(dir, "../" + name) == Err(OutsideTargetDir("../" + name))
  {
    assert "../" + name == ".." + "/" + name;
    SplitJoin("..", name);
    assert Split("..") == [".."];
    assert Split(name) == [name];
    var c := Canonical(dir);
    var up := c[..|c| - 1];
    assert Resolve(c, ["..", name]) == Resolve(up, [name]) by { assert ["..", name][1..] == [name]; }
    assert Resolve(up, [name]) == Resolve(up + [name], []) by { assert [name][1..] == []; }
  }

  /** The parent directory an accepted file entry needs lies at or below the
      target directory, and the destination is one step from it. */
  lemma ParentWithinTarget(dir: string, name: string)
    requires NewFile(dir, name).Ok?
    ensures IsPrefix(Canonical(dir), ParentDir(dir, name))
    ensures NewFile(dir, name).value == StepInto(ParentDir(dir, name), Split(name)[|Split(name)| - 1])
  {
    var c, segments := Canonical(dir), Split(name);
    var init, last := segments[..|segments| - 1], segments[|segments| - 1];
    assert segments == init + [last];
    ResolveAppend(c, init, [last]);
    var parent := Resolve(c, init);
    assert Destination(dir, name) == StepInto(parent, last);
    StepBelow(c, parent, last);
  }

  /** A step that lands strictly inside `c` started at or below `c`. */
  lemma StepBelow(c: Segments, parent: Segments, last: string)
    requires StrictlyInside(c, StepInto(parent, last))
    ensures IsPrefix(c, parent)
  {
    var dest := StepInto(parent, last);
    if last == ".." {
      assert dest == parent[..|parent| - 1];
      assert parent[..|c|] == dest[..|c|];
    } else if last != "" && last != "." {
      assert dest == parent + [last];
      if |c| <= |parent| {
        assert parent[..|c|] == dest[..|c|];
      }
    }
  }

  // ---------------------------------------------------------------------
  // Where extraction writes

  /** Nothing is removed, and every node created or changed lies strictly
      inside `d`, or is a new directory on the way down to `d`. */
  ghost predicate ConfinedTo(before: FileSys, after: FileSys, d: Segments) {
    && (forall q :: q in before ==> q in after)
    && (forall q :: q in after && !StrictlyInside(d, q) ==>
          (q in before && after[q] == before[q]) || (q !in before && IsPrefix(q, d) && after[q] == Directory))
  }

  /** Confinement composes: two confined steps in a row are one confined step. */
  lemma ConfinedTrans(a: FileSys, b: FileSys, c: FileSys, d: Segments)
    requires ConfinedTo(a, b, d) && ConfinedTo(b, c, d)
    ensures ConfinedTo(a, c, d)
  {
  }

  /** `mkdirs` of a path at or below `d` stays confined to `d`. */
  lemma MkdirsConfined(fs: FileSys, p: Segments, d: Segments)
    requires IsPrefix(d, p)
    requires Mkdirs(fs, p).Some?
    ensures ConfinedTo(fs, Mkdirs(fs, p).value, d)
  {
    MkdirsEffect(fs, p);
    var after := Mkdirs(fs, p).value;
    forall q | q in after && q !in fs ensures StrictlyInside(d, q) || IsPrefix(q, d) {
      if |q| <= |d| {
        assert d[..|q|] == p[..|q|];
      } else {
        assert q[..|d|] == p[..|d|];
      }
    }
  }

  /** One entry writes only inside the canonical target directory. */
  lemma UnzipEntryConfined(dir: string, e: Entry, fs: FileSys)
    ensures ConfinedTo(fs, UnzipEntry(dir, e, fs).fs, Canonical(dir))
  {
    if NewFile(dir, e.name).Ok? {
      if IsDirectoryEntry(e) {
        DirectoryEntryConfined(dir, e, fs);
      } else {
        FileEntryConfined(dir, e, fs);
      }
    }
  }

  /** A directory entry only creates directories, at or inside the target. */
  lemma DirectoryEntryConfined(dir: string, e: Entry, fs: FileSys)
    requires NewFile(dir, e.name).Ok? && IsDirectoryEntry(e)
    ensures ConfinedTo(fs, UnzipEntry(dir, e, fs).fs, Canonical(dir))
  {
    var d, dest := Canonical(dir), NewFile(dir, e.name).value;
    assert IsPrefix(d, dest);
    if !IsDirectory(fs, dest) && Mkdirs(fs, dest).Some? {
      MkdirsConfined(fs, dest, d);
    }
  }

  /** A file entry creates its parent at or inside the target and writes its
      file strictly inside it. */
  lemma FileEntryConfined(dir: string, e: Entry, fs: FileSys)
    requires NewFile(dir, e.name).Ok? && !IsDirectoryEntry(e)
    ensures ConfinedTo(fs, UnzipEntry(dir, e, fs).fs, Canonical(dir))
  {
    var d, dest := Canonical(dir), NewFile(dir, e.name).value;
    var parent := ParentDir(dir, e.name);
    ParentWithinTarget(dir, e.name);
    var made := if IsDirectory(fs, parent) then Some(fs) else Mkdirs(fs, parent);
    if made.Some? {
      var ready := made.value;
      assert ConfinedTo(fs, ready, d) by {
        if !IsDirectory(fs, parent) {
          MkdirsConfined(fs, parent, d);
        }
      }
      if CanOpenForWrite(ready, dest) {
        WriteConfined(ready, dest, e.data, d);
        ConfinedTrans(fs, ready, ready[dest := File(e.data)], d);
      }
    }
  }

  /** Writing one file strictly inside `d` stays confined to `d`. */
  lemma WriteConfined(fs: FileSys, dest: Segments, data: seq<byte>, d: Segments)
    requires StrictlyInside(d, dest)
    ensures ConfinedTo(fs, fs[dest := File(data)], d)
  {
  }

  lemma {:induction false} ExtractAllConfined(dir: string, entries: seq<Entry>, fs: FileSys)
    ensures ConfinedTo(fs, ExtractAll(dir, entries, fs).fs, Canonical(dir))
    decreases |entries|
  {
    if entries != [] {
      var first := UnzipEntry(dir, entries[0], fs);
      UnzipEntryConfined(dir, entries[0], fs);
      if first.error.None? {
        ExtractAllConfined(dir, entries[1..], first.fs);
        ConfinedTrans(fs, first.fs, ExtractAll(dir, entries[1..], first.fs).fs, Canonical(dir));
      }
    }
  }

  /** Whatever the archive holds and whatever the password, unzipping removes
      nothing and changes nothing outside the target directory except by
      creating that directory and its missing ancestors. */
  lemma UnzipConfined(key: Key, dir: string, archive: Archive, fs: FileSys)
    ensures ConfinedTo(fs, UnzipArchive(key, dir, archive, fs).fs, Canonical(dir))
  {
    ExtractAllConfined(dir, EntriesOf(key, archive), fs);
  }

  // ---------------------------------------------------------------------
  // Well-formedness

  /** Opening and writing a file keeps the file system well formed. */
  lemma WriteKeepsWellFormed(fs: FileSys, dest: Segments, n: Node)
    requires WellFormed(fs) && CanOpenForWrite(fs, dest)
    ensures WellFormed(fs[dest := n])
  {
  }

  /** One entry: a name the guard refuses changes nothing and raises the
      guard's exception; otherwise, when nothing is raised, a directory entry
      leaves a directory at its destination and a file entry leaves a file
      holding the entry's bytes there. */
  lemma UnzipEntryEffect(dir: string, e: Entry, fs: FileSys)
    ensures NewFile(dir, e.name).Err? ==>
      UnzipEntry(dir, e, fs) == Outcome(fs, Some(OutsideTargetDir(e.name)))
    ensures UnzipEntry(dir, e, fs).error.None? ==> NewFile(dir, e.name).Ok?
    ensures var o, dest := UnzipEntry(dir, e, fs), NewFile(dir, e.name);
      o.error.None? && IsDirectoryEntry(e) ==> IsDirectory(o.fs, dest.value)
    ensures var o, dest := UnzipEntry(dir, e, fs), NewFile(dir, e.name);
      o.error.None? && !IsDirectoryEntry(e) ==> dest.value in o.fs && o.fs[dest.value] == File(e.data)
  {
    var dest := NewFile(dir, e.name);
    if dest.Ok? && IsDirectoryEntry(e) && !IsDirectory(fs, dest.value) && Mkdirs(fs, dest.value).Some? {
      MkdirsEffect(fs, dest.value);
    }
  }

  /** A directory entry the guard accepts succeeds exactly when its
      destination is already a directory or `mkdirs` can make it; otherwise
      nothing changes and the failure names the destination. */
  lemma DirectoryEntryOutcome(dir: string, e: Entry, fs: FileSys)
    requires NewFile(dir, e.name).Ok? && IsDirectoryEntry(e)
    ensures var o, dest := UnzipEntry(dir, e, fs), NewFile(dir, e.name).value;
      o.error.None? <==> IsDirectory(fs, dest) || Mkdirs(fs, dest).Some?
    ensures var o, dest := UnzipEntry(dir, e, fs), NewFile(dir, e.name).value;
      !IsDirectory(fs, dest) && Mkdirs(fs, dest).None? ==>
        o == Outcome(fs, Some(FailedToCreateDirectory(dest)))
  {
  }

  /** A file entry the guard accepts first needs its parent directory: when
      that is not a directory and `mkdirs` cannot make it, nothing changes and
      the failure names the parent; when the parent is ready but the
      destination cannot be opened for writing, the failure names the
      destination. It succeeds exactly when neither happens. */
  lemma FileEntryOutcome(dir: string, e: Entry, fs: FileSys)
    requires NewFile(dir, e.name).Ok? && !IsDirectoryEntry(e)
    ensures var o, parent := UnzipEntry(dir, e, fs), ParentDir(dir, e.name);
      !IsDirectory(fs, parent) && Mkdirs(fs, parent).None? ==>
        o == Outcome(fs, Some(FailedToCreateDirectory(parent)))
    ensures var o, dest, parent := UnzipEntry(dir, e, fs), NewFile(dir, e.name).value, ParentDir(dir, e.name);
      var ready := if IsDirectory(fs, parent) then Some(fs) else Mkdirs(fs, parent);
      ready.Some? && !CanOpenForWrite(ready.value, dest) ==>
        o == Outcome(ready.value, Some(CannotOpen(dest)))
    ensures var o, dest, parent := UnzipEntry(dir, e, fs), NewFile(dir, e.name).value, ParentDir(dir, e.name);
      var ready := if IsDirectory(fs, parent) then Some(fs) else Mkdirs(fs, parent);
      o.error.None? <==> ready.Some? && CanOpenForWrite(ready.value, dest)
  {
  }

  /** Whatever it raises, a directory entry never removes a node, and every
      node it adds or changes is a directory: it never creates a file. */
  lemma DirectoryEntryAddsDirectories(dir: string, e: Entry, fs: FileSys)
    requires IsDirectoryEntry(e)
    ensures var o := UnzipEntry(dir, e, fs);
      forall p :: p in fs ==> p in o.fs
    ensures var o := UnzipEntry(dir, e, fs);
      forall p :: p in o.fs && (p !in fs || o.fs[p] != fs[p]) ==> o.fs[p] == Directory
  {
    var dest := NewFile(dir, e.name);
    if dest.Ok? && !IsDirectory(fs, dest.value) && Mkdirs(fs, dest.value).Some? {
      MkdirsEffect(fs, dest.value);
    }
  }

  /** Whatever it raises, a file entry never removes a node, and every node
      it adds or changes other than its destination is a directory. */
  lemma FileEntryAddsDirectories(dir: string, e: Entry, fs: FileSys)
    requires !IsDirectoryEntry(e)
    ensures var o := UnzipEntry(dir, e, fs);
      forall p :: p in fs ==> p in o.fs
    ensures var o, dest := UnzipEntry(dir, e, fs), NewFile(dir, e.name);
      forall p :: p in o.fs && (p !in fs || o.fs[p] != fs[p]) && (dest.Err? || p != dest.value) ==>
        o.fs[p] == Directory
  {
    var o, dest, parent := UnzipEntry(dir, e, fs), NewFile(dir, e.name), ParentDir(dir, e.name);
    var ready := if IsDirectory(fs, parent) then Some(fs) else Mkdirs(fs, parent);
    if dest.Err? || ready.None? {
      assert o.fs == fs;
    } else {
      if !IsDirectory(fs, parent) {
        MkdirsEffect(fs, parent);
      }
      var made := ready.value;
      assert forall p :: p in fs ==> p in made;
      assert forall p :: p in made && (p !in fs || made[p] != fs[p]) ==> made[p] == Directory;
      if CanOpenForWrite(made, dest.value) {
        assert o.fs == made[dest.value := File(e.data)];
      } else {
        assert o.fs == made;
      }
    }
  }

  lemma UnzipEntryKeepsWellFormed(dir: string, e: Entry, fs: FileSys)
    requires WellFormed(fs)
    ensures WellFormed(UnzipEntry(dir, e, fs).fs)
  {
    match NewFile(dir, e.name)
    case Err(_) =>
    case Ok(dest) =>
      if IsDirectoryEntry(e) {
        if !IsDirectory(fs, dest) && Mkdirs(fs, dest).Some? {
          MkdirsEffect(fs, dest);
        }
      } else {
        var parent := ParentDir(dir, e.name);
        var made := if IsDirectory(fs, parent) then Some(fs) else Mkdirs(fs, parent);
        if made.Some? {
          if !IsDirectory(fs, parent) {
            MkdirsEffect(fs, parent);
          }
          if CanOpenForWrite(made.value, dest) {
            WriteKeepsWellFormed(made.value, dest, File(e.data));
          }
        }
      }
  }

  /** Extraction keeps the file system well formed, even when it stops early. */
  lemma {:induction false} UnzipKeepsWellFormed(dir: string, entries: seq<Entry>, fs: FileSys)
    requires WellFormed(fs)
    ensures WellFormed(ExtractAll(dir, entries, fs).fs)
    decreases |entries|
  {
    if entries != [] {
      UnzipEntryKeepsWellFormed(dir, entries[0], fs);
      var first := UnzipEntry(dir, entries[0], fs);
      if first.error.None? {
        UnzipKeepsWellFormed(dir, entries[1..], first.fs);
      }
    }
  }

  // ---------------------------------------------------------------------
  // Order and early stop

  /** Extraction is sequential and is not rolled back: extracting `a + b`
      extracts `a`, keeps whatever it wrote, and continues with `b` only if
      nothing went wrong. */
  lemma {:induction false} ExtractAppend(dir: string, a: seq<Entry>, b: seq<Entry>, fs: FileSys)
    ensures ExtractAll(dir, a + b, fs) ==
      var first := ExtractAll(dir, a, fs);
      if first.error.Some? then first else ExtractAll(dir, b, first.fs)
    decreases |a|
  {
    if a == [] {
      assert a + b == b;
    } else {
      assert (a + b)[0] == a[0];
      assert (a + b)[1..] == a[1..] + b;
      var step := UnzipEntry(dir, a[0], fs);
      if step.error.None? {
        ExtractAppend(dir, a[1..], b, step.fs);
      }
    }
  }

  /** A wrong password leaves the disk as it was and reports the stream as
      empty or undecryptable. */
  lemma WrongPasswordLeavesDiskUnchanged(password: string, other: string, dir: string, entries: seq<Entry>, fs: FileSys)
    requires password != other
    ensures UnzipArchive(DeriveKey(other), dir, Encrypt(DeriveKey(password), entries), fs)
      == Outcome(fs, Some(EmptyOrWrongPassword))
  {
    WrongPasswordFails(password, other, entries);
  }

  // ---------------------------------------------------------------------
  // Packing

  /** Every source opens as a regular file. */
  predicate Readable(fs: FileSys, cwd: string, sources: seq<string>) {
    forall i :: 0 <= i < |sources| ==> ReadSource(fs, cwd, sources[i]).Ok?
  }

  /** The file names of the sources, in order. */
  function Names(sources: seq<string>): (r: seq<string>)
    ensures |r| == |sources|
  {
    if sources == [] then [] else [Name(sources[0])] + Names(sources[1..])
  }

  lemma {:induction false} NamesAt(sources: seq<string>)
    ensures forall i :: 0 <= i < |sources| ==> Names(sources)[i] == Name(sources[i])
    decreases |sources|
  {
    if sources != [] {
      var rest := sources[1..];
      NamesAt(rest);
      forall i | 0 < i < |sources| ensures Names(sources)[i] == Name(sources[i]) {
        assert Names(sources)[i] == Names(rest)[i - 1];
        assert rest[i - 1] == sources[i];
      }
    }
  }

  predicate Distinct(names: seq<string>) {
    forall i, j :: 0 <= i < j < |names| ==> names[i] != names[j]
  }

  /** No two sources share a file name. */
  predicate DistinctNames(sources: seq<string>) {
    Distinct(Names(sources))
  }

  /** The entries of readable sources: one per source, in order, named by the
      file's name and holding its bytes. */
  function Packed(fs: FileSys, cwd: string, sources: seq<string>): (r: seq<Entry>)
    requires Readable(fs, cwd, sources)
    ensures |r| == |sources|
  {
    if sources == [] then []
    else
      assert Readable(fs, cwd, sources[1..]) by {
        assert forall i :: 0 <= i < |sources| - 1 ==> sources[1..][i] == sources[i + 1];
      }
      [Entry(Name(sources[0]), ReadSource(fs, cwd, sources[0]).value)] + Packed(fs, cwd, sources[1..])
  }

  /** Entry `i` of the packed sources is named by source `i` and holds its bytes. */
  lemma {:induction false} PackedEntries(fs: FileSys, cwd: string, sources: seq<string>)
    requires Readable(fs, cwd, sources)
    ensures forall i :: 0 <= i < |sources| ==>
      Packed(fs, cwd, sources)[i] == Entry(Name(sources[i]), ReadSource(fs, cwd, sources[i]).value)
    decreases |sources|
  {
    if sources != [] {
      var rest := sources[1..];
      assert Readable(fs, cwd, rest) by {
        forall i | 0 <= i < |rest| ensures ReadSource(fs, cwd, rest[i]).Ok? {
          assert rest[i] == sources[i + 1];
        }
      }
      PackedEntries(fs, cwd, rest);
      var packed := Packed(fs, cwd, sources);
      forall i | 0 < i < |sources|
        ensures packed[i] == Entry(Name(sources[i]), ReadSource(fs, cwd, sources[i]).value)
      {
        assert packed[i] == Packed(fs, cwd, rest)[i - 1];
        assert rest[i - 1] == sources[i];
      }
    }
  }

  /** Adding an entry adds exactly its name to the names written so far. */
  lemma HasEntryNamedAppend(done: seq<Entry>, e: Entry, n: string)
    ensures HasEntryNamed(done + [e], n) <==> HasEntryNamed(done, n) || n == e.name
  {
    var next := done + [e];
    if HasEntryNamed(done, n) {
      var j :| 0 <= j < |done| && done[j].name == n;
      assert next[j].name == n;
    }
    if n == e.name {
      assert next[|done|].name == n;
    }
    if HasEntryNamed(next, n) && n != e.name {
      var j :| 0 <= j < |next| && next[j].name == n;
      assert done[j].name == n;
    }
  }

  /** The condition under which the packing loop succeeds, one source at a time. */
  predicate Packable(fs: FileSys, cwd: string, sources: seq<string>, done: seq<Entry>) {
    && Readable(fs, cwd, sources)
    && Fresh(Names(sources), done)
  }

  /** The names are distinct and none of them is already written. */
  predicate Fresh(names: seq<string>, done: seq<Entry>) {
    Distinct(names) && forall i :: 0 <= i < |names| ==> !HasEntryNamed(done, names[i])
  }

  lemma FreshStep(names: seq<string>, done: seq<Entry>, e: Entry)
    requires names != [] && names[0] == e.name
    ensures Fresh(names, done) <==> !HasEntryNamed(done, e.name) && Fresh(names[1..], done + [e])
  {
    var rest := names[1..];
    assert forall i :: 0 <= i < |rest| ==> rest[i] == names[i + 1];
    forall i | 0 <= i < |rest| {
      HasEntryNamedAppend(done, e, rest[i]);
    }
    if !HasEntryNamed(done, e.name) && Fresh(rest, done + [e]) {
      forall i, j | 0 <= i < j < |names| ensures names[i] != names[j] {
        if i > 0 {
          assert rest[i - 1] != rest[j - 1];
        } else {
          assert !HasEntryNamed(done + [e], rest[j - 1]);
        }
      }
      forall i | 0 <= i < |names| ensures !HasEntryNamed(done, names[i]) {
        if i > 0 {
          assert !HasEntryNamed(done + [e], rest[i - 1]);
        }
      }
    }
    if Fresh(names, done) {
      forall i | 0 <= i < |rest| ensures !HasEntryNamed(done + [e], rest[i]) {
        assert names[0] != names[i + 1];
      }
    }
  }

  lemma ReadableStep(fs: FileSys, cwd: string, sources: seq<string>)
    requires sources != [] && ReadSource(fs, cwd, sources[0]).Ok?
    ensures Readable(fs, cwd, sources) <==> Readable(fs, cwd, sources[1..])
  {
    var rest := sources[1..];
    assert forall i :: 0 <= i < |rest| ==> rest[i] == sources[i + 1];
    if Readable(fs, cwd, rest) {
      forall i | 0 <= i < |sources| ensures ReadSource(fs, cwd, sources[i]).Ok? {
        if i > 0 {
          assert ReadSource(fs, cwd, rest[i - 1]).Ok?;
        }
      }
    }
  }

  lemma PackableStep(fs: FileSys, cwd: string, sources: seq<string>, done: seq<Entry>)
    requires sources != []
    requires ReadSource(fs, cwd, sources[0]).Ok? && !HasEntryNamed(done, Name(sources[0]))
    ensures Packable(fs, cwd, sources, done) <==>
      Packable(fs, cwd, sources[1..], done + [Entry(Name(sources[0]), ReadSource(fs, cwd, sources[0]).value)])
  {
    var e := Entry(Name(sources[0]), ReadSource(fs, cwd, sources[0]).value);
    assert Names(sources[1..]) == Names(sources)[1..];
    FreshStep(Names(sources), done, e);
    ReadableStep(fs, cwd, sources);
  }

  /** The packing loop succeeds exactly when every source is readable, no two
      share a name and none repeats a name already written. */
  lemma {:induction false} ZipFromSucceeds(fs: FileSys, cwd: string, sources: seq<string>, done: seq<Entry>)
    ensures ZipFrom(fs, cwd, sources, done).error.None? <==> Packable(fs, cwd, sources, done)
    decreases |sources|
  {
    if sources != [] {
      ZipFromStep(fs, cwd, sources, done);
      var read := ReadSource(fs, cwd, sources[0]);
      var name := Name(sources[0]);
      if read.Err? {
        assert !Readable(fs, cwd, sources);
      } else if HasEntryNamed(done, name) {
        assert Names(sources)[0] == name;
        assert !Packable(fs, cwd, sources, done);
      } else {
        PackableStep(fs, cwd, sources, done);
        ZipFromSucceeds(fs, cwd, sources[1..], done + [Entry(name, read.value)]);
      }
    }
  }

  /** When the packing loop succeeds it has appended the packed entries, in
      order. */
  lemma {:induction false} ZipFromResult(fs: FileSys, cwd: string, sources: seq<string>, done: seq<Entry>)
    requires ZipFrom(fs, cwd, sources, done).error.None?
    ensures Readable(fs, cwd, sources)
    ensures ZipFrom(fs, cwd, sources, done).entries == done + Packed(fs, cwd, sources)
    decreases |sources|
  {
    if sources == [] {
      assert done + [] == done;
    } else {
      var rest := sources[1..];
      var read := ReadSource(fs, cwd, sources[0]);
      var name := Name(sources[0]);
      ZipFromStep(fs, cwd, sources, done);
      assert read.Ok? && !HasEntryNamed(done, name);
      var e := Entry(name, read.value);
      ZipFromResult(fs, cwd, rest, done + [e]);
      ReadableStep(fs, cwd, sources);
      PackedStep(fs, cwd, sources, e);
      var packed := Packed(fs, cwd, rest);
      assert done + [e] + packed == done + ([e] + packed);
    }
  }

  /** The packing loop stops at source `k`: packing the sources before it
      succeeds with the entries the loop leaves, and source `k` itself is
      unreadable or repeats a name already put. */
  predicate StopsAt(fs: FileSys, cwd: string, sources: seq<string>, done: seq<Entry>, k: nat)
    requires k < |sources|
  {
    var r := ZipFrom(fs, cwd, sources, done);
    var read := ReadSource(fs, cwd, sources[k]);
    && ZipFrom(fs, cwd, sources[..k], done) == Packing(r.entries, None)
    && (read.Err? ==> r.error == Some(read.error))
    && (read.Ok? ==> HasEntryNamed(r.entries, Name(sources[k])) && r.error == Some(DuplicateEntry(Name(sources[k]))))
  }

  /** A packing loop that raises stops at some source, keeping the entries of
      the sources before it. */
  lemma {:induction false} ZipFromStops(fs: FileSys, cwd: string, sources: seq<string>, done: seq<Entry>)
    requires ZipFrom(fs, cwd, sources, done).error.Some?
    ensures exists k :: 0 <= k < |sources| && StopsAt(fs, cwd, sources, done, k)
    decreases |sources|
  {
    assert sources != [];
    ZipFromStep(fs, cwd, sources, done);
    var read := ReadSource(fs, cwd, sources[0]);
    if read.Err? || HasEntryNamed(done, Name(sources[0])) {
      assert sources[..0] == [];
      assert StopsAt(fs, cwd, sources, done, 0);
    } else {
      var rest, more := sources[1..], done + [Entry(Name(sources[0]), read.value)];
      assert ZipFrom(fs, cwd, sources, done) == ZipFrom(fs, cwd, rest, more);
      ZipFromStops(fs, cwd, rest, more);
      var k :| 0 <= k < |rest| && StopsAt(fs, cwd, rest, more, k);
      var before := sources[..k + 1];
      assert before[0] == sources[0];
      assert |before[1..]| == |rest[..k]| == k;
      assert forall i :: 0 <= i < k ==> before[1..][i] == rest[..k][i];
      assert before[1..] == rest[..k];
      ZipFromStep(fs, cwd, before, done);
      assert ZipFrom(fs, cwd, before, done) == ZipFrom(fs, cwd, rest[..k], more);
      assert rest[k] == sources[k + 1];
      assert StopsAt(fs, cwd, sources, done, k + 1);
    }
  }

  /** The packed entries of a list are the first source's entry followed by
      those of the rest. */
  lemma PackedStep(fs: FileSys, cwd: string, sources: seq<string>, e: Entry)
    requires sources != [] && Readable(fs, cwd, sources)
    requires e == Entry(Name(sources[0]), ReadSource(fs, cwd, sources[0]).value)
    ensures Readable(fs, cwd, sources[1..])
    ensures Packed(fs, cwd, sources) == [e] + Packed(fs, cwd, sources[1..])
  {
    ReadableStep(fs, cwd, sources);
  }

  /** `zip` succeeds exactly when the output file can be opened, every source
      is readable once it is open and no two share a name; the archive then
      holds one entry per source, in order, read after the open. */
  lemma ZipArchiveSucceeds(fs: FileSys, cwd: string, key: Key, sources: seq<string>, name: string, directory: Option<string>)
    ensures var afterOpen := Truncated(fs, Place(cwd, directory, name));
      ZipArchive(fs, cwd, key, sources, name, directory).error.None? <==>
        CanOpenForWrite(fs, Place(cwd, directory, name)) && Readable(afterOpen, cwd, sources) && DistinctNames(sources)
    ensures var afterOpen := Truncated(fs, Place(cwd, directory, name));
      ZipArchive(fs, cwd, key, sources, name, directory).error.None? ==>
        Readable(afterOpen, cwd, sources) &&
        ZipArchive(fs, cwd, key, sources, name, directory).written == Some(Encrypt(key, Packed(afterOpen, cwd, sources)))
  {
    var afterOpen := Truncated(fs, Place(cwd, directory, name));
    ZipFromSucceeds(afterOpen, cwd, sources, []);
    assert forall n :: !HasEntryNamed([], n);
    assert Fresh(Names(sources), []) <==> DistinctNames(sources);
    var z := ZipFrom(afterOpen, cwd, sources, []);
    if z.error.None? {
      ZipFromResult(afterOpen, cwd, sources, []);
      var packed := Packed(afterOpen, cwd, sources);
      assert z.entries == [] + packed;
      assert [] + packed == packed;
      assert CanOpenForWrite(fs, Place(cwd, directory, name)) ==>
        ZipArchive(fs, cwd, key, sources, name, directory) == ZipRun(Some(Encrypt(key, packed)), None);
    }
  }

  /** A `zip` that raises after the open leaves in the output file the archive
      of the sources before the one that raised: those are readable with
      distinct names, and the one that raised is unreadable or repeats a name. */
  lemma ZipArchiveStops(fs: FileSys, cwd: string, key: Key, sources: seq<string>, name: string, directory: Option<string>)
    requires CanOpenForWrite(fs, Place(cwd, directory, name))
    requires ZipArchive(fs, cwd, key, sources, name, directory).error.Some?
    ensures var afterOpen := Truncated(fs, Place(cwd, directory, name));
      exists k :: 0 <= k < |sources| && Readable(afterOpen, cwd, sources[..k]) && DistinctNames(sources[..k])
        && ZipArchive(fs, cwd, key, sources, name, directory).written == Some(Encrypt(key, Packed(afterOpen, cwd, sources[..k])))
        && (ReadSource(afterOpen, cwd, sources[k]).Ok? ==> HasEntryNamed(Packed(afterOpen, cwd, sources[..k]), Name(sources[k])))
  {
    var afterOpen := Truncated(fs, Place(cwd, directory, name));
    var z := ZipFrom(afterOpen, cwd, sources, []);
    ZipFromStops(afterOpen, cwd, sources, []);
    var k :| 0 <= k < |sources| && StopsAt(afterOpen, cwd, sources, [], k);
    ZipFromSucceeds(afterOpen, cwd, sources[..k], []);
    ZipFromResult(afterOpen, cwd, sources[..k], []);
    assert forall n :: !HasEntryNamed([], n);
    assert Fresh(Names(sources[..k]), []) <==> DistinctNames(sources[..k]);
    var packed := Packed(afterOpen, cwd, sources[..k]);
    assert z.entries == [] + packed;
    assert [] + packed == packed;
  }

  /** A source that is the output file itself is read after the open, so it
      is read as an empty file, whether it existed before or not. */
  lemma OutputReadEmpty(fs: FileSys, cwd: string, path: string, place: Segments)
    requires path != "" && Canonical(Absolute(cwd, path)) == place
    ensures ReadSource(Truncated(fs, place), cwd, path) == Ok([])
  {
  }

  /** Packing the output file as the only source succeeds, whether or not the
      file existed, with one empty entry. */
  lemma OwnOutputPacksEmpty(fs: FileSys, cwd: string, key: Key, path: string, name: string, directory: Option<string>)
    requires path != "" && Canonical(Absolute(cwd, path)) == Place(cwd, directory, name)
    requires CanOpenForWrite(fs, Place(cwd, directory, name))
    ensures ZipArchive(fs, cwd, key, [path], name, directory) == ZipRun(Some(Encrypt(key, [Entry(Name(path), [])])), None)
  {
    var place := Place(cwd, directory, name);
    var afterOpen := Truncated(fs, place);
    OutputReadEmpty(fs, cwd, path, place);
    assert Readable(afterOpen, cwd, [path]);
    assert DistinctNames([path]) by { assert Names([path]) == [Name(path)]; }
    PackedStep(afterOpen, cwd, [path], Entry(Name(path), []));
    assert [path][1..] == [];
    assert Packed(afterOpen, cwd, [path]) == [Entry(Name(path), [])] + [];
    ZipArchiveSucceeds(fs, cwd, key, [path], name, directory);
    var r := ZipArchive(fs, cwd, key, [path], name, directory);
    assert r.error.None?;
    assert r.written == Some(Encrypt(key, Packed(afterOpen, cwd, [path])));
    assert [Entry(Name(path), [])] + [] == [Entry(Name(path), [])];
  }

  /** Sources other than the output file read the same before and after the
      open, so they pack the same entries. */
  lemma {:induction false} OpenKeepsSources(fs: FileSys, cwd: string, sources: seq<string>, place: Segments)
    requires forall i :: 0 <= i < |sources| ==> Canonical(Absolute(cwd, sources[i])) != place
    ensures Readable(Truncated(fs, place), cwd, sources) <==> Readable(fs, cwd, sources)
    ensures Readable(fs, cwd, sources) ==> Packed(Truncated(fs, place), cwd, sources) == Packed(fs, cwd, sources)
    decreases |sources|
  {
    var afterOpen := Truncated(fs, place);
    assert forall i :: 0 <= i < |sources| ==> ReadSource(afterOpen, cwd, sources[i]) == ReadSource(fs, cwd, sources[i]);
    if sources != [] && Readable(fs, cwd, sources) {
      OpenKeepsSources(fs, cwd, sources[1..], place);
      PackedStep(fs, cwd, sources, Entry(Name(sources[0]), ReadSource(fs, cwd, sources[0]).value));
      PackedStep(afterOpen, cwd, sources, Entry(Name(sources[0]), ReadSource(fs, cwd, sources[0]).value));
    }
  }

  // ---------------------------------------------------------------------
  // The round trip

  /** No ancestor of `d` is a file, and neither is `d` itself. */
  predicate CanHold(fs: FileSys, d: Segments) {
    !IsFile(fs, d) && NoFileAbove(fs, d)
  }

  lemma DirectoryCanHold(fs: FileSys, d: Segments)
    requires WellFormed(fs) && IsDirectory(fs, d)
    ensures CanHold(fs, d)
  {
    forall k | 0 <= k < |d| ensures !IsFile(fs, d[..k]) {
      AncestorsAreDirectories(fs, d, k);
    }
  }

  /** A file entry with a plain name, extracted into a directory that can hold
      it: the directory exists afterwards, the file holds the entry's bytes,
      every other node keeps its value, and the only new nodes are the file
      and directories on the way down to the target. */
  lemma PlainEntryStep(dir: string, e: Entry, fs: FileSys)
    requires WellFormed(fs) && CanHold(fs, Canonical(dir))
    requires Plain(e.name) && !IsDirectory(fs, Canonical(dir) + [e.name])
    ensures var d, o := Canonical(dir), UnzipEntry(dir, e, fs);
      && o.error == None
      && WellFormed(o.fs)
      && IsDirectory(o.fs, d)
      && d + [e.name] in o.fs && o.fs[d + [e.name]] == File(e.data)
      && (forall q :: q in fs && q != d + [e.name] ==> q in o.fs && o.fs[q] == fs[q])
      && (forall q :: q in o.fs && q !in fs ==> q == d + [e.name] || IsPrefix(q, d))
  {
    var d, n := Canonical(dir), e.name;
    var ready := EnsureDirectory(fs, d);
    assert !IsDirectory(ready, d + [n]) by {
      assert !IsPrefix(d + [n], d);
    }
    PlainEntryOutcome(dir, e, fs, ready);
    WriteKeepsWellFormed(ready, d + [n], File(e.data));
    var written := ready[d + [n] := File(e.data)];
    assert UnzipEntry(dir, e, fs).fs == written;
    assert forall q :: q in written && q !in fs ==> q == d + [n] || IsPrefix(q, d);
  }

  /** The parent directory of a plain entry before its file is written: the
      file system as it was when the directory exists, otherwise what `mkdirs`
      made of it. */
  lemma EnsureDirectory(fs: FileSys, d: Segments) returns (ready: FileSys)
    requires WellFormed(fs) && CanHold(fs, d)
    ensures (if IsDirectory(fs, d) then Some(fs) else Mkdirs(fs, d)) == Some(ready)
    ensures WellFormed(ready) && IsDirectory(ready, d)
    ensures forall q :: q in fs ==> q in ready && ready[q] == fs[q]
    ensures forall q :: q in ready && q !in fs ==> IsPrefix(q, d)
  {
    ready := fs;
    if !IsDirectory(fs, d) {
      MkdirsSucceeds(fs, d);
      MkdirsEffect(fs, d);
      ready := Mkdirs(fs, d).value;
    }
  }

  /** A plain entry whose parent directory is ready is written as a file. */
  lemma PlainEntryOutcome(dir: string, e: Entry, fs: FileSys, ready: FileSys)
    requires Plain(e.name)
    requires (if IsDirectory(fs, Canonical(dir)) then Some(fs) else Mkdirs(fs, Canonical(dir))) == Some(ready)
    requires IsDirectory(ready, Canonical(dir)) && !IsDirectory(ready, Canonical(dir) + [e.name])
    ensures UnzipEntry(dir, e, fs) == Outcome(ready[Canonical(dir) + [e.name] := File(e.data)], None)
  {
    var d, n := Canonical(dir), e.name;
    PlainNameAccepted(dir, n);
    assert n[|n| - 1] in n;
    assert !IsDirectoryEntry(e);
    assert Split(n) == [n];
    assert ParentDir(dir, n) == d;
    assert (d + [n])[..|d|] == d;
    assert CanOpenForWrite(ready, d + [n]);
  }

  /** Entries with plain, distinct names, extracted into a directory that can
      hold them and holds no directory under any of those names: extraction
      succeeds, each entry's bytes are in the file of its name, and every
      other node keeps its value. */
  lemma {:induction false} ExtractPlainFiles(dir: string, entries: seq<Entry>, fs: FileSys)
    requires WellFormed(fs) && CanHold(fs, Canonical(dir))
    requires forall i :: 0 <= i < |entries| ==>
      Plain(entries[i].name) && !IsDirectory(fs, Canonical(dir) + [entries[i].name])
    requires forall i, j :: 0 <= i < j < |entries| ==> entries[i].name != entries[j].name
    ensures var d, o := Canonical(dir), ExtractAll(dir, entries, fs);
      && o.error == None
      && (forall i :: 0 <= i < |entries| ==>
            d + [entries[i].name] in o.fs && o.fs[d + [entries[i].name]] == File(entries[i].data))
      && (forall q :: q in fs && (forall i :: 0 <= i < |entries| ==> q != d + [entries[i].name]) ==>
            q in o.fs && o.fs[q] == fs[q])
    decreases |entries|
  {
    if entries != [] {
      var d, e, rest := Canonical(dir), entries[0], entries[1..];
      PlainEntryStep(dir, e, fs);
      var next := UnzipEntry(dir, e, fs).fs;
      RestFits(dir, entries, fs, next);
      ExtractPlainFiles(dir, rest, next);
      var o := ExtractAll(dir, rest, next);
      assert ExtractAll(dir, entries, fs) == o;
      FilesAfterFirst(d, entries, fs, next, o.fs);
    }
  }

  /** After the first entry is written the rest still have plain, distinct
      names and no directory in their way. */
  lemma RestFits(dir: string, entries: seq<Entry>, fs: FileSys, next: FileSys)
    requires entries != []
    requires forall i :: 0 <= i < |entries| ==> Plain(entries[i].name)
    requires forall i, j :: 0 <= i < j < |entries| ==> entries[i].name != entries[j].name
    requires forall i :: 0 <= i < |entries| ==> !IsDirectory(fs, Canonical(dir) + [entries[i].name])
    requires var d := Canonical(dir);
      && WellFormed(next) && IsDirectory(next, d)
      && (forall q :: q in fs && q != d + [entries[0].name] ==> q in next && next[q] == fs[q])
      && (forall q :: q in next && q !in fs ==> q == d + [entries[0].name] || IsPrefix(q, d))
    ensures var d, rest := Canonical(dir), entries[1..];
      && WellFormed(next) && CanHold(next, d)
      && (forall i :: 0 <= i < |rest| ==> Plain(rest[i].name) && !IsDirectory(next, d + [rest[i].name]))
      && (forall i, j :: 0 <= i < j < |rest| ==> rest[i].name != rest[j].name)
  {
    var d, e, rest := Canonical(dir), entries[0], entries[1..];
    DirectoryCanHold(next, d);
    forall i | 0 <= i < |rest| ensures Plain(rest[i].name) && !IsDirectory(next, d + [rest[i].name]) {
      assert rest[i] == entries[i + 1];
      assert d + [rest[i].name] != d + [e.name] by {
        assert (d + [rest[i].name])[|d|] != (d + [e.name])[|d|];
      }
      assert !IsPrefix(d + [rest[i].name], d);
    }
    forall i, j | 0 <= i < j < |rest| ensures rest[i].name != rest[j].name {
      assert rest[i] == entries[i + 1] && rest[j] == entries[j + 1];
    }
  }

  /** How the facts about the first entry and about the rest combine. */
  lemma FilesAfterFirst(d: Segments, entries: seq<Entry>, fs: FileSys, next: FileSys, after: FileSys)
    requires entries != []
    requires forall i, j :: 0 <= i < j < |entries| ==> entries[i].name != entries[j].name
    requires d + [entries[0].name] in next && next[d + [entries[0].name]] == File(entries[0].data)
    requires forall q :: q in fs && q != d + [entries[0].name] ==> q in next && next[q] == fs[q]
    requires var rest := entries[1..];
      && (forall i :: 0 <= i < |rest| ==>
            d + [rest[i].name] in after && after[d + [rest[i].name]] == File(rest[i].data))
      && (forall q :: q in next && (forall i :: 0 <= i < |rest| ==> q != d + [rest[i].name]) ==>
            q in after && after[q] == next[q])
    ensures forall i :: 0 <= i < |entries| ==>
      d + [entries[i].name] in after && after[d + [entries[i].name]] == File(entries[i].data)
    ensures forall q :: q in fs && (forall i :: 0 <= i < |entries| ==> q != d + [entries[i].name]) ==>
      q in after && after[q] == fs[q]
  {
    var target, rest := d + [entries[0].name], entries[1..];
    forall i | 1 <= i < |entries| ensures target != d + [entries[i].name] {
      assert target[|d|] != (d + [entries[i].name])[|d|];
    }
    forall i | 1 <= i < |entries|
      ensures d + [entries[i].name] in after && after[d + [entries[i].name]] == File(entries[i].data)
    {
      assert entries[i] == rest[i - 1];
    }
    forall q | q in fs && (forall i :: 0 <= i < |entries| ==> q != d + [entries[i].name])
      ensures q in after && after[q] == fs[q]
    {
      forall i | 0 <= i < |rest| ensures q != d + [rest[i].name] {
        assert rest[i] == entries[i + 1];
      }
    }
  }

  /** Extracting the packed entries of readable sources with distinct plain
      names recreates each source file under its name. */
  lemma ExtractPacked(fsA: FileSys, cwd: string, sources: seq<string>, dir: string, fsB: FileSys)
    requires Readable(fsA, cwd, sources) && DistinctNames(sources)
    requires forall i :: 0 <= i < |sources| ==> Plain(Name(sources[i]))
    requires WellFormed(fsB) && CanHold(fsB, Canonical(dir))
    requires forall i :: 0 <= i < |sources| ==> !IsDirectory(fsB, Canonical(dir) + [Name(sources[i])])
    ensures var o := ExtractAll(dir, Packed(fsA, cwd, sources), fsB);
      && o.error == None
      && forall i :: 0 <= i < |sources| ==>
           var target := Canonical(dir) + [Name(sources[i])];
           target in o.fs && o.fs[target] == File(ReadSource(fsA, cwd, sources[i]).value)
  {
    var entries := Packed(fsA, cwd, sources);
    PackedEntries(fsA, cwd, sources);
    NamesAt(sources);
    var d := Canonical(dir);
    assert forall i :: 0 <= i < |entries| ==> entries[i].name == Name(sources[i]);
    assert forall i, j :: 0 <= i < j < |entries| ==> entries[i].name != entries[j].name by {
      assert Distinct(Names(sources));
    }
    assert forall i :: 0 <= i < |entries| ==> Plain(entries[i].name) && !IsDirectory(fsB, d + [entries[i].name]);
    ExtractPlainFiles(dir, entries, fsB);
  }

  /** Packing readable files with distinct plain names, none of them the
      output file, and unpacking the archive with the same password, into a
      directory that can hold them, recreates every file under its name with
      its bytes unchanged. */
  lemma PackThenUnpack(fsA: FileSys, cwd: string, password: string, sources: seq<string>, name: string, directory: Option<string>,
                       dir: string, fsB: FileSys)
    requires sources != []
    requires CanOpenForWrite(fsA, Place(cwd, directory, name))
    requires forall i :: 0 <= i < |sources| ==> Canonical(Absolute(cwd, sources[i])) != Place(cwd, directory, name)
    requires Readable(fsA, cwd, sources) && DistinctNames(sources)
    requires forall i :: 0 <= i < |sources| ==> Plain(Name(sources[i]))
    requires WellFormed(fsB) && CanHold(fsB, Canonical(dir))
    requires forall i :: 0 <= i < |sources| ==> !IsDirectory(fsB, Canonical(dir) + [Name(sources[i])])
    ensures ZipArchive(fsA, cwd, DeriveKey(password), sources, name, directory).error.None?
    ensures var o := UnzipArchive(DeriveKey(password), dir, ZipArchive(fsA, cwd, DeriveKey(password), sources, name, directory).written.value, fsB);
      && o.error == None
      && forall i :: 0 <= i < |sources| ==>
           var target := Canonical(dir) + [Name(sources[i])];
           target in o.fs && o.fs[target] == File(ReadSource(fsA, cwd, sources[i]).value)
  {
    var key := DeriveKey(password);
    OpenKeepsSources(fsA, cwd, sources, Place(cwd, directory, name));
    ZipArchiveSucceeds(fsA, cwd, key, sources, name, directory);
    var entries := Packed(fsA, cwd, sources);
    DecryptEncrypt(password, entries);
    assert UnzipArchive(key, dir, Encrypt(key, entries), fsB) == ExtractAll(dir, entries, fsB);
    ExtractPacked(fsA, cwd, sources, dir, fsB);
  }
}
