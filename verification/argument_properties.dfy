/** What the command-line parser promises: which argument vectors it refuses,
    where the file list starts, where each field of a parsed command comes
    from, and the behaviour its unit tests describe. */
module ArgumentProperties {
  import opened Base
  import opened Paths
  import opened Flags
  import opened Commands
  import opened Arguments

  // ---------------------------------------------------------------------
  // The flag pairs

  /** Index `j` lies an even number of places after `i`, where the pairs
      starting at `i` put a flag. */
  predicate PairStart(i: nat, j: int) {
    i <= j && (j - i) % 2 == 0
  }

  lemma NextPairStarts(i: nat)
    ensures forall j :: PairStart(i, j) && j != i ==> PairStart(i + 2, j)
    ensures forall j :: PairStart(i + 2, j) ==> PairStart(i, j)
  {
  }

  /** Reading pairs fails when no token at an even offset from `i` is a file:
      either a flag lacks its value, a flag or mode is refused, or the tokens
      run out. */
  lemma {:induction false} AllFlagsFail(args: seq<string>, i: nat, s: CommandState, cwd: string)
    requires forall j :: PairStart(i, j) && j < |args| ==> StartsWith(args[j], "-")
    ensures ParseFlagsFrom(args, i, s, cwd).Err?
    decreases |args| - i
  {
    if i < |args| && i + 2 <= |args| {
      match ApplyProperty(s, cwd, args[i], args[i + 1])
      case Err(_) =>
      case Ok(next) =>
        NextPairStarts(i);
        AllFlagsFail(args, i + 2, next, cwd);
    }
  }

  /** The file list starts at the first token at an even offset that is not a
      flag: every token at an even offset before it is one. */
  lemma {:induction false} FlagsBeforeFirstFile(args: seq<string>, i: nat, s: CommandState, cwd: string)
    requires ParseFlagsFrom(args, i, s, cwd).Ok?
    ensures forall j :: PairStart(i, j) && j < ParseFlagsFrom(args, i, s, cwd).value.0 ==> StartsWith(args[j], "-")
    decreases |args| - i
  {
    if StartsWith(args[i], "-") {
      var next := ApplyProperty(s, cwd, args[i], args[i + 1]).value;
      FlagsBeforeFirstFile(args, i + 2, next, cwd);
      NextPairStarts(i);
    }
  }

  /** Each field the pairs leave set is either the one it started with or the
      value after some flag of its own group, read at an even offset before
      the first file. */
  lemma FieldsFromFlags(args: seq<string>, i: nat, s: CommandState, cwd: string)
    requires ParseFlagsFrom(args, i, s, cwd).Ok?
    ensures var (first, t) := ParseFlagsFrom(args, i, s, cwd).value;
      && (t.password == s.password || exists j :: PairStart(i, j) && j + 1 < first && args[j] in PASSWORD_FLAG && t.password == Some(args[j + 1]))
      && (t.mode == s.mode || exists j :: PairStart(i, j) && j + 1 < first && args[j] in MODE_FLAG && ModeOf(args[j + 1]).Ok? && t.mode == Some(ModeOf(args[j + 1]).value))
      && (t.name == s.name || exists j :: PairStart(i, j) && j + 1 < first && args[j] in NAME_FLAG && t.name == Some(args[j + 1]))
      && (t.outputDirectory == s.outputDirectory || exists j :: PairStart(i, j) && j + 1 < first && args[j] in OUTPUT_DIRECTORY_FLAG && t.outputDirectory == Some(Absolute(cwd, args[j + 1])))
  {
    PasswordFromFlags(args, i, s, cwd);
    ModeFromFlags(args, i, s, cwd);
    NameFromFlags(args, i, s, cwd);
    DirectoryFromFlags(args, i, s, cwd);
  }

  lemma {:induction false} PasswordFromFlags(args: seq<string>, i: nat, s: CommandState, cwd: string)
    requires ParseFlagsFrom(args, i, s, cwd).Ok?
    ensures var (first, t) := ParseFlagsFrom(args, i, s, cwd).value;
      t.password == s.password || exists j :: PairStart(i, j) && j + 1 < first && args[j] in PASSWORD_FLAG && t.password == Some(args[j + 1])
    decreases |args| - i
  {
    if StartsWith(args[i], "-") {
      var next := ApplyProperty(s, cwd, args[i], args[i + 1]).value;
      PasswordFromFlags(args, i + 2, next, cwd);
      NextPairStarts(i);
      var (first, t) := ParseFlagsFrom(args, i, s, cwd).value;
      assert ParseFlagsFrom(args, i + 2, next, cwd).value == (first, t);
      if t.password == next.password && next.password != s.password {
        assert PairStart(i, i);
      }
    }
  }

  lemma {:induction false} ModeFromFlags(args: seq<string>, i: nat, s: CommandState, cwd: string)
    requires ParseFlagsFrom(args, i, s, cwd).Ok?
    ensures var (first, t) := ParseFlagsFrom(args, i, s, cwd).value;
      t.mode == s.mode || exists j :: PairStart(i, j) && j + 1 < first && args[j] in MODE_FLAG && ModeOf(args[j + 1]).Ok? && t.mode == Some(ModeOf(args[j + 1]).value)
    decreases |args| - i
  {
    if StartsWith(args[i], "-") {
      var next := ApplyProperty(s, cwd, args[i], args[i + 1]).value;
      ModeFromFlags(args, i + 2, next, cwd);
      NextPairStarts(i);
      var (first, t) := ParseFlagsFrom(args, i, s, cwd).value;
      assert ParseFlagsFrom(args, i + 2, next, cwd).value == (first, t);
      if t.mode == next.mode && next.mode != s.mode {
        assert PairStart(i, i);
      }
    }
  }

  lemma {:induction false} NameFromFlags(args: seq<string>, i: nat, s: CommandState, cwd: string)
    requires ParseFlagsFrom(args, i, s, cwd).Ok?
    ensures var (first, t) := ParseFlagsFrom(args, i, s, cwd).value;
      t.name == s.name || exists j :: PairStart(i, j) && j + 1 < first && args[j] in NAME_FLAG && t.name == Some(args[j + 1])
    decreases |args| - i
  {
    if StartsWith(args[i], "-") {
      var next := ApplyProperty(s, cwd, args[i], args[i + 1]).value;
      NameFromFlags(args, i + 2, next, cwd);
      NextPairStarts(i);
      var (first, t) := ParseFlagsFrom(args, i, s, cwd).value;
      assert ParseFlagsFrom(args, i + 2, next, cwd).value == (first, t);
      if t.name == next.name && next.name != s.name {
        assert PairStart(i, i);
      }
    }
  }

  lemma {:induction false} DirectoryFromFlags(args: seq<string>, i: nat, s: CommandState, cwd: string)
    requires ParseFlagsFrom(args, i, s, cwd).Ok?
    ensures var (first, t) := ParseFlagsFrom(args, i, s, cwd).value;
      t.outputDirectory == s.outputDirectory || exists j :: PairStart(i, j) && j + 1 < first && args[j] in OUTPUT_DIRECTORY_FLAG && t.outputDirectory == Some(Absolute(cwd, args[j + 1]))
    decreases |args| - i
  {
    if StartsWith(args[i], "-") {
      var next := ApplyProperty(s, cwd, args[i], args[i + 1]).value;
      DirectoryFromFlags(args, i + 2, next, cwd);
      NextPairStarts(i);
      var (first, t) := ParseFlagsFrom(args, i, s, cwd).value;
      assert ParseFlagsFrom(args, i + 2, next, cwd).value == (first, t);
      if t.outputDirectory == next.outputDirectory && next.outputDirectory != s.outputDirectory {
        assert PairStart(i, i);
      }
    }
  }

  /** The pairs never produce the help mode: only the spellings of encrypt
      and decrypt are mode values. */
  lemma {:induction false} FlagsNeverHelp(args: seq<string>, i: nat, s: CommandState, cwd: string)
    requires ParseFlagsFrom(args, i, s, cwd).Ok?
    requires s.mode != Some(HELP)
    ensures ParseFlagsFrom(args, i, s, cwd).value.1.mode != Some(HELP)
    decreases |args| - i
  {
    if StartsWith(args[i], "-") {
      var next := ApplyProperty(s, cwd, args[i], args[i + 1]).value;
      FlagsNeverHelp(args, i + 2, next, cwd);
    }
  }

  // ---------------------------------------------------------------------
  // The defaults

  /** Once the defaults are applied a command that is not a help command has
      a mode, a name and an output directory; every field that was set keeps
      its value, and the output directory, when it was missing, is the
      working directory for encrypting and its `decrypted` child for
      decrypting. */
  lemma DefaultsComplete(s: CommandState, cwd: string, uuid: string)
    requires s.mode != Some(HELP)
    ensures var d := Defaults(s, cwd, uuid);
      && d.mode.Some? && d.name.Some? && d.outputDirectory.Some?
      && d.files == s.files && d.password == s.password
      && d.mode == (if s.mode.None? then Some(ENCRYPT) else s.mode)
      && d.name == (if s.name.None? then Some(uuid) else s.name)
      && (s.outputDirectory.Some? ==> d.outputDirectory == s.outputDirectory)
      && (s.outputDirectory.None? && d.mode == Some(ENCRYPT) ==> d.outputDirectory == Some(Absolute(cwd, "")))
      && (s.outputDirectory.None? && d.mode == Some(DECRYPT) ==> d.outputDirectory == Some(Absolute(cwd, "decrypted")))
  {
    if s.mode.Some? {
      assert s.mode.value == ENCRYPT || s.mode.value == DECRYPT;
    }
  }

  // ---------------------------------------------------------------------
  // The whole parse

  /** Fewer than three tokens are refused unless the first asks for help. */
  lemma TooFewArguments(args: seq<string>, cwd: string, uuid: string)
    requires |args| < 3
    requires |args| == 0 || args[0] !in HELP_FLAG
    ensures ParseSpec(args, cwd, uuid) == Err(InvalidArgument("Password and file path are required"))
  {
  }

  /** A help flag first gives a help command with no password and no files,
      whatever follows it. */
  lemma HelpFirst(args: seq<string>, cwd: string, uuid: string)
    requires |args| > 0 && args[0] in HELP_FLAG
    ensures ParseSpec(args, cwd, uuid).Ok?
    ensures var c := ParseSpec(args, cwd, uuid).value;
      c.mode == Some(HELP) && c.password == None && c.files == []
  {
  }

  /** A parsed command is a help command exactly when the first token is a
      help flag. */
  lemma HelpOnlyFromHelpFlag(args: seq<string>, cwd: string, uuid: string)
    requires ParseSpec(args, cwd, uuid).Ok?
    ensures ParseSpec(args, cwd, uuid).value.mode == Some(HELP) <==> args[0] in HELP_FLAG
  {
    if args[0] !in HELP_FLAG {
      FlagsNeverHelp(args, 0, EMPTY, cwd);
    }
  }

  /** When every token at an even position is a flag there is no file to
      work on, and the parse fails unless it asks for help. */
  lemma NoFileFails(args: seq<string>, cwd: string, uuid: string)
    requires |args| > 0 && args[0] !in HELP_FLAG
    requires forall j :: PairStart(0, j) && j < |args| ==> StartsWith(args[j], "-")
    ensures ParseSpec(args, cwd, uuid).Err?
  {
    AllFlagsFail(args, 0, EMPTY, cwd);
  }

  /** Without a password flag the parse fails, whatever else is given. */
  lemma NoPasswordFails(args: seq<string>, cwd: string, uuid: string)
    requires |args| > 0 && args[0] !in HELP_FLAG
    requires forall j :: 0 <= j < |args| ==> args[j] !in PASSWORD_FLAG
    ensures ParseSpec(args, cwd, uuid).Err?
  {
    if |args| >= 3 && ParseFlagsFrom(args, 0, EMPTY, cwd).Ok? {
      FieldsFromFlags(args, 0, EMPTY, cwd);
    }
  }

  /** Everything a non-help parse yields: a mode to encrypt or decrypt, which
      is encrypt unless a mode flag chose otherwise; the password after a
      password flag; the generated name unless a name flag gave one; an output
      directory; and, as files, every token from the first even position that
      is not a flag, in order, flags among them included. */
  lemma Parsed(args: seq<string>, cwd: string, uuid: string)
    requires |args| > 0 && args[0] !in HELP_FLAG
    requires ParseSpec(args, cwd, uuid).Ok?
    ensures var c := ParseSpec(args, cwd, uuid).value;
      && (c.mode == Some(ENCRYPT) || c.mode == Some(DECRYPT))
      && ((forall j :: 0 <= j < |args| ==> args[j] !in MODE_FLAG) ==> c.mode == Some(ENCRYPT))
      && (exists j :: PairStart(0, j) && j + 1 < |args| && args[j] in PASSWORD_FLAG && c.password == Some(args[j + 1]))
      && ((forall j :: 0 <= j < |args| ==> args[j] !in NAME_FLAG) ==> c.name == Some(uuid))
      && c.name.Some? && c.outputDirectory.Some?
      && Executable(c)
      && exists first ::
           && 2 <= first < |args| && PairStart(0, first)
           && !StartsWith(args[first], "-")
           && (forall j :: PairStart(0, j) && j < first ==> StartsWith(args[j], "-"))
           && c.files == NormalizeAll(args[first..])
           && |c.files| >= 1
  {
    var flags := ParseFlagsFrom(args, 0, EMPTY, cwd);
    assert flags.Ok?;
    var (first, t) := flags.value;
    assert t.password.Some?;
    var c := ParseSpec(args, cwd, uuid).value;
    var d := Defaults(t, cwd, uuid);
    assert c == d.(files := d.files + NormalizeAll(args[first..]));
    ParsedFields(args, cwd, uuid, first, t);
    assert c.files == NormalizeAll(args[first..]);
    assert c.mode == d.mode && c.password == d.password && c.name == d.name && c.outputDirectory == d.outputDirectory;
  }

  /** The fields of a non-help parse before its files are added. */
  lemma ParsedFields(args: seq<string>, cwd: string, uuid: string, first: nat, t: CommandState)
    requires |args| > 0 && args[0] !in HELP_FLAG
    requires ParseFlagsFrom(args, 0, EMPTY, cwd) == Ok((first, t)) && t.password.Some?
    ensures var d := Defaults(t, cwd, uuid);
      && (d.mode == Some(ENCRYPT) || d.mode == Some(DECRYPT))
      && ((forall j :: 0 <= j < |args| ==> args[j] !in MODE_FLAG) ==> d.mode == Some(ENCRYPT))
      && (exists j :: PairStart(0, j) && j + 1 < |args| && args[j] in PASSWORD_FLAG && d.password == Some(args[j + 1]))
      && ((forall j :: 0 <= j < |args| ==> args[j] !in NAME_FLAG) ==> d.name == Some(uuid))
      && d.name.Some? && d.outputDirectory.Some?
      && d.files == []
      && 2 <= first < |args| && PairStart(0, first)
      && !StartsWith(args[first], "-")
      && (forall j :: PairStart(0, j) && j < first ==> StartsWith(args[j], "-"))
  {
    FlagsNeverHelp(args, 0, EMPTY, cwd);
    DefaultsComplete(t, cwd, uuid);
    FieldsFromFlags(args, 0, EMPTY, cwd);
    FlagsBeforeFirstFile(args, 0, EMPTY, cwd);
    assert first != 0 by {
      if first == 0 {
        assert false;
      }
    }
  }


  // ---------------------------------------------------------------------
  // The unit tests' argument vectors

  const PASSWORD := "hunter2"
  const ARCHIVE_NAME := "secret_Archive"
  const FILE_PATH := "filepath"

  /** A password and a file: the mode defaults to encrypt. */
  lemma DefaultsToEncrypt(cwd: string, uuid: string)
    ensures var r := ParseSpec(["-p", PASSWORD, FILE_PATH], cwd, uuid);
      r.Ok? && r.value.mode == Some(ENCRYPT) && r.value.password == Some(PASSWORD)
  {
    var args := ["-p", PASSWORD, FILE_PATH];
    var s1 := EMPTY.(password := Some(PASSWORD));
    PasswordFlag(EMPTY, cwd, PASSWORD);
    FlagPair(args, 0, EMPTY, cwd, s1);
    NotAFlag(args[2]);
    assert ParseFlagsFrom(args, 0, EMPTY, cwd) == Ok((2, s1));
  }

  lemma SetsDecrypt(cwd: string, uuid: string)
    ensures var r := ParseSpec(["-m", "d", "-p", PASSWORD, FILE_PATH], cwd, uuid);
      r.Ok? && r.value.mode == Some(DECRYPT) && r.value.password == Some(PASSWORD) && r.value.files == [FILE_PATH]
  {
    DecryptKept(cwd, uuid, PASSWORD, FILE_PATH);
  }

  /** A file name that is no flag and holds no separator, as in the tests. */
  predicate TestFile(f: string) {
    f != "" && f[0] != '-' && '/' !in f
  }

  /** The decrypt test for any such file. */
  lemma DecryptKept(cwd: string, uuid: string, password: string, f: string)
    requires TestFile(f)
    ensures var r := ParseSpec(["-m", "d", "-p", password, f], cwd, uuid);
      r.Ok? && r.value.mode == Some(DECRYPT) && r.value.password == Some(password) && r.value.files == [f]
  {
    var args := ["-m", "d", "-p", password, f];
    var s2 := EMPTY.(mode := Some(DECRYPT), password := Some(password));
    DecryptPairs(cwd, password, f);
    ParseAfterFlags(args, cwd, uuid, 4, s2);
    assert args[4..] == [f];
    CompleteOne(s2, f, cwd, uuid);
  }

  /** Past the argument count and the help check, a parse is the flag pairs
      followed by `Complete` on the tokens from the first file on. */
  lemma ParseAfterFlags(args: seq<string>, cwd: string, uuid: string, first: nat, s: CommandState)
    requires |args| >= 3 && args[0] !in HELP_FLAG
    requires ParseFlagsFrom(args, 0, EMPTY, cwd) == Ok((first, s))
    ensures first <= |args|
    ensures ParseSpec(args, cwd, uuid) == Complete(s, args[first..], cwd, uuid)
  {
  }

  /** The pairs `-m d -p password` stop at the file at index 4 with both
      fields set. */
  lemma DecryptPairs(cwd: string, password: string, f: string)
    requires TestFile(f)
    ensures ParseFlagsFrom(["-m", "d", "-p", password, f], 0, EMPTY, cwd) ==
      Ok((4, EMPTY.(mode := Some(DECRYPT), password := Some(password))))
  {
    var args := ["-m", "d", "-p", password, f];
    var s1 := EMPTY.(mode := Some(DECRYPT));
    var s2 := s1.(password := Some(password));
    DecryptFlag(EMPTY, cwd);
    PasswordFlag(s1, cwd, password);
    FlagPair(args, 0, EMPTY, cwd, s1);
    FlagPair(args, 2, s1, cwd, s2);
    NotAFlag(args[4]);
  }

  /** An absolute output directory is kept as given. */
  lemma SetsDirectory(cwd: string, uuid: string)
    ensures var r := ParseSpec(["-d", "/tmp/directory", "-p", PASSWORD, FILE_PATH], cwd, uuid);
      r.Ok? && r.value.outputDirectory == Some("/tmp/directory") && r.value.password == Some(PASSWORD) && r.value.files == [FILE_PATH]
  {
    TestDirectoryClean();
    DirectoryKept(cwd, uuid, "/tmp/directory", FILE_PATH);
  }

  /** The directory test for any absolute directory that `new File` keeps as
      it is. */
  lemma DirectoryKept(cwd: string, uuid: string, d: string, f: string)
    requires |d| > 0 && d[0] == '/' && Clean(d) && TestFile(f)
    ensures var r := ParseSpec(["-d", d, "-p", PASSWORD, f], cwd, uuid);
      r.Ok? && r.value.outputDirectory == Some(d) && r.value.password == Some(PASSWORD) && r.value.files == [f]
  {
    var args := ["-d", d, "-p", PASSWORD, f];
    var s2 := EMPTY.(outputDirectory := Some(d), password := Some(PASSWORD));
    DirectoryPairs(cwd, d, f);
    assert ParseSpec(args, cwd, uuid) == Complete(s2, [f], cwd, uuid) by {
      assert args[4..] == [f];
    }
    CompleteOne(s2, f, cwd, uuid);
  }

  /** The flag pairs of the directory test, for any absolute directory that
      `new File` keeps as it is. */
  lemma DirectoryPairs(cwd: string, d: string, f: string)
    requires |d| > 0 && d[0] == '/' && Clean(d) && TestFile(f)
    ensures ParseFlagsFrom(["-d", d, "-p", PASSWORD, f], 0, EMPTY, cwd)
         == Ok((4, EMPTY.(outputDirectory := Some(d), password := Some(PASSWORD))))
  {
    var args := ["-d", d, "-p", PASSWORD, f];
    var s1 := EMPTY.(outputDirectory := Some(d));
    var s2 := s1.(password := Some(PASSWORD));
    DirectoryFlag(EMPTY, cwd, d);
    PasswordFlag(s1, cwd, PASSWORD);
    FlagPair(args, 0, EMPTY, cwd, s1);
    FlagPair(args, 2, s1, cwd, s2);
    NotAFlag(args[4]);
  }

  lemma SetsName(cwd: string, uuid: string)
    ensures var r := ParseSpec(["-m", "d", "-n", ARCHIVE_NAME, "-p", PASSWORD, FILE_PATH], cwd, uuid);
      r.Ok? && r.value.mode == Some(DECRYPT) && r.value.name == Some(ARCHIVE_NAME) && r.value.password == Some(PASSWORD) && r.value.files == [FILE_PATH]
  {
    NameKept(cwd, uuid, ARCHIVE_NAME, PASSWORD, FILE_PATH);
  }

  /** The name test for any name, password and file. */
  lemma NameKept(cwd: string, uuid: string, name: string, password: string, f: string)
    requires TestFile(f)
    ensures var r := ParseSpec(["-m", "d", "-n", name, "-p", password, f], cwd, uuid);
      r.Ok? && r.value.mode == Some(DECRYPT) && r.value.name == Some(name) && r.value.password == Some(password) && r.value.files == [f]
  {
    var args := ["-m", "d", "-n", name, "-p", password, f];
    var s3 := EMPTY.(mode := Some(DECRYPT), name := Some(name), password := Some(password));
    NamePairs(cwd, name, password, f);
    assert ParseSpec(args, cwd, uuid) == Complete(s3, [f], cwd, uuid) by {
      assert args[6..] == [f];
    }
    CompleteOne(s3, f, cwd, uuid);
  }

  /** The flag pairs of the name test, for any name and password. */
  lemma NamePairs(cwd: string, name: string, password: string, f: string)
    requires TestFile(f)
    ensures ParseFlagsFrom(["-m", "d", "-n", name, "-p", password, f], 0, EMPTY, cwd)
         == Ok((6, EMPTY.(mode := Some(DECRYPT), name := Some(name), password := Some(password))))
  {
    var args := ["-m", "d", "-n", name, "-p", password, f];
    var s1 := EMPTY.(mode := Some(DECRYPT));
    var s2 := s1.(name := Some(name));
    var s3 := s2.(password := Some(password));
    DecryptFlag(EMPTY, cwd);
    NameFlag(s1, cwd, name);
    PasswordFlag(s2, cwd, password);
    FlagPair(args, 0, EMPTY, cwd, s1);
    FlagPair(args, 2, s1, cwd, s2);
    FlagPair(args, 4, s2, cwd, s3);
    NotAFlag(args[6]);
  }

  lemma SetsHelp(cwd: string, uuid: string)
    ensures ParseSpec(["-h"], cwd, uuid) == Ok(EMPTY.(mode := Some(HELP)))
  {
  }

  lemma NoArgument(cwd: string, uuid: string)
    ensures ParseSpec([], cwd, uuid) == Err(InvalidArgument("Password and file path are required"))
  {
  }

  lemma MissingPasswordFlag(cwd: string, uuid: string)
    ensures ParseSpec([FILE_PATH], cwd, uuid) == Err(InvalidArgument("Password and file path are required"))
  {
  }

  lemma MissingPasswordFlagWithManyArgs(cwd: string, uuid: string)
    ensures ParseSpec(["-m", "d", FILE_PATH, FILE_PATH], cwd, uuid) == Err(InvalidArgument("No password set."))
  {
    var args := ["-m", "d", FILE_PATH, FILE_PATH];
    var s1 := EMPTY.(mode := Some(DECRYPT));
    DecryptFlag(EMPTY, cwd);
    FlagPair(args, 0, EMPTY, cwd, s1);
    NotAFlag(args[2]);
    assert ParseFlagsFrom(args, 0, EMPTY, cwd) == Ok((2, s1));
  }

  lemma MissingFilePath(cwd: string, uuid: string)
    ensures ParseSpec(["-p", PASSWORD], cwd, uuid) == Err(InvalidArgument("Password and file path are required"))
  {
  }

  lemma MissingFilePathWithManyArguments(cwd: string, uuid: string)
    ensures ParseSpec(["-p", PASSWORD, "-m", "d"], cwd, uuid) == Err(InvalidArgument("No file path specified."))
  {
    var args := ["-p", PASSWORD, "-m", "d"];
    var s1 := EMPTY.(password := Some(PASSWORD));
    var s2 := s1.(mode := Some(DECRYPT));
    PasswordFlag(EMPTY, cwd, PASSWORD);
    DecryptFlag(s1, cwd);
    FlagPair(args, 0, EMPTY, cwd, s1);
    FlagPair(args, 2, s1, cwd, s2);
    assert ParseFlagsFrom(args, 4, s2, cwd) == Err(InvalidArgument("No file path specified."));
  }

  lemma MissingArgumentValue(cwd: string, uuid: string)
    ensures ParseSpec(["-p", PASSWORD, "-m"], cwd, uuid) == Err(InvalidArgument("property value missing for " + "-m"))
  {
    var args := ["-p", PASSWORD, "-m"];
    var s1 := EMPTY.(password := Some(PASSWORD));
    PasswordFlag(EMPTY, cwd, PASSWORD);
    FlagPair(args, 0, EMPTY, cwd, s1);
    assert StartsWith(args[2], "-");
    assert ParseFlagsFrom(args, 2, s1, cwd) == Err(InvalidArgument("property value missing for " + "-m"));
  }

  /** The end of a parse with one file without a separator, as in the tests:
      the fields the flags set survive the defaults and the file is kept as
      given. */
  lemma CompleteOne(s: CommandState, f: string, cwd: string, uuid: string)
    requires s.password.Some? && s.files == [] && '/' !in f
    ensures var r := Complete(s, [f], cwd, uuid);
      && r.Ok? && r.value.files == [f] && r.value.password == s.password
      && (s.mode.Some? ==> r.value.mode == s.mode)
      && (s.name.Some? ==> r.value.name == s.name)
      && (s.outputDirectory.Some? ==> r.value.outputDirectory == s.outputDirectory)
  {
    NormalizeFilePath(f);
  }

  /** One flag pair read at `i` moves the parse on to `i + 2`. */
  lemma FlagPair(args: seq<string>, i: nat, s: CommandState, cwd: string, t: CommandState)
    requires i + 2 <= |args| && |args[i]| > 0 && args[i][0] == '-'
    requires ApplyProperty(s, cwd, args[i], args[i + 1]) == Ok(t)
    ensures ParseFlagsFrom(args, i, s, cwd) == ParseFlagsFrom(args, i + 2, t, cwd)
  {
    assert args[i][..1] == "-" by { assert args[i][..1][0] == '-'; }
  }

  lemma DecryptFlag(s: CommandState, cwd: string)
    ensures ApplyProperty(s, cwd, "-m", "d") == Ok(s.(mode := Some(DECRYPT)))
  {
    assert "-m" in MODE_FLAG;
    assert ModeOf("d") == Ok(DECRYPT);
  }

  lemma PasswordFlag(s: CommandState, cwd: string, password: string)
    ensures ApplyProperty(s, cwd, "-p", password) == Ok(s.(password := Some(password)))
  {
    assert "-p" !in MODE_FLAG && "-p" in PASSWORD_FLAG;
  }

  lemma NameFlag(s: CommandState, cwd: string, name: string)
    ensures ApplyProperty(s, cwd, "-n", name) == Ok(s.(name := Some(name)))
  {
    assert "-n" !in MODE_FLAG && "-n" !in PASSWORD_FLAG && "-n" in NAME_FLAG;
  }

  lemma DirectoryFlag(s: CommandState, cwd: string, d: string)
    requires |d| > 0 && d[0] == '/' && Clean(d)
    ensures ApplyProperty(s, cwd, "-d", d) == Ok(s.(outputDirectory := Some(d)))
  {
    NormalizeClean(d);
    assert "-d" !in MODE_FLAG && "-d" !in PASSWORD_FLAG && "-d" !in NAME_FLAG && "-d" in OUTPUT_DIRECTORY_FLAG;
  }

  /** The test's directory is kept as it is by `new File`. */
  lemma TestDirectoryClean()
    ensures Clean("/tmp/directory")
  {
    var d := "/tmp/directory";
    assert forall i :: 0 <= i < |d| - 1 ==> !DoubleSlashAt(d, i);
  }

  lemma NotAFlag(t: string)
    requires |t| > 0 && t[0] != '-'
    ensures !StartsWith(t, "-")
  {
    assert t[..1][0] == t[0];
  }

  /** A file path without a separator is listed as it is given. */
  lemma NormalizeFilePath(f: string)
    requires '/' !in f
    ensures NormalizeAll([f]) == [f]
  {
    assert forall i :: 0 <= i < |f| ==> f[i] != '/';
    NormalizeClean(f);
  }
}
