/** The command-line parser: flags and their values come in pairs until the
    first token that is not a flag; every token from there on is a source
    file. Missing or malformed input is an error carrying the parser's own
    message. */
module Arguments {
  import opened Base
  import opened Paths
  import opened Flags
  import opened Commands

  /** The flag pairs read from index `i` on, applied to `s`: the index of the
      first file and the fields set, or the first error. Indices advance two at
      a time. */
  function ParseFlagsFrom(args: seq<string>, i: nat, s: CommandState, cwd: string): (r: Result<(nat, CommandState), ArgError>)
    ensures r.Ok? ==> i <= r.value.0 < |args| && (r.value.0 - i) % 2 == 0 && !StartsWith(args[r.value.0], "-")
    ensures r.Ok? ==> r.value.1.files == s.files
    decreases |args| - i
  {
    if i >= |args| then Err(InvalidArgument("No file path specified."))
    else if !StartsWith(args[i], "-") then Ok((i, s))
    else if i + 2 > |args| then Err(InvalidArgument("property value missing for " + args[i]))
    else
      match ApplyProperty(s, cwd, args[i], args[i + 1])
      case Err(e) => Err(e)
      case Ok(next) => ParseFlagsFrom(args, i + 2, next, cwd)
  }

  /** `setDefaults`: encrypt unless a mode was given, the generated `uuid` as
      the archive name unless one was given, and the default output directory
      for the mode unless one was given. */
  function Defaults(s: CommandState, cwd: string, uuid: string): (r: CommandState)
    ensures r.password == s.password && r.files == s.files
    ensures r.mode == if s.mode.None? then Some(ENCRYPT) else s.mode
    ensures r.name == if s.name.None? then Some(uuid) else s.name
    ensures s.outputDirectory.Some? ==> r.outputDirectory == s.outputDirectory
    ensures r.mode == Some(ENCRYPT) || r.mode == Some(DECRYPT) ==> r.outputDirectory.Some?
  {
    var withMode := if s.mode.None? then s.(mode := Some(ENCRYPT)) else s;
    var withName := if withMode.name.None? then withMode.(name := Some(uuid)) else withMode;
    if withName.outputDirectory.None? then DefaultOutputDirectory(withName, cwd) else withName
  }

  /** Each path as `new File(path)` holds it, in argument order. */
  function NormalizeAll(paths: seq<string>): (r: seq<string>)
    ensures |r| == |paths|
    ensures forall i :: 0 <= i < |paths| ==> r[i] == Normalize(paths[i])
  {
    if paths == [] then [] else [Normalize(paths[0])] + NormalizeAll(paths[1..])
  }

  const ARGUMENTS_REQUIRED := "Password and file path are required"
  const NO_PASSWORD := "No password set."

  /** `parse`, with the working directory and the generated name as parameters. */
  function ParseSpec(args: seq<string>, cwd: string, uuid: string): (r: Result<CommandState, ArgError>)
    ensures |args| == 0 ==> r == Err(InvalidArgument(ARGUMENTS_REQUIRED))
    ensures |args| > 0 && args[0] in HELP_FLAG ==> r == Ok(EMPTY.(mode := Some(HELP)))
    ensures r.Ok? && args[0] !in HELP_FLAG ==> r.value.password.Some? && r.value.name.Some?
  {
    if |args| == 0 || (|args| < 3 && args[0] !in HELP_FLAG) then Err(InvalidArgument(ARGUMENTS_REQUIRED))
    else if args[0] in HELP_FLAG then Ok(EMPTY.(mode := Some(HELP)))
    else
      match ParseFlagsFrom(args, 0, EMPTY, cwd)
      case Err(e) => Err(e)
      case Ok((first, s)) => Complete(s, args[first..], cwd, uuid)
  }

  /** The end of `parse` once the flags are read: the password check, the
      defaults, then the files in argument order. */
  function Complete(s: CommandState, files: seq<string>, cwd: string, uuid: string): (r: Result<CommandState, ArgError>)
    ensures r.Ok? <==> s.password.Some?
    ensures r.Err? ==> r.error == InvalidArgument(NO_PASSWORD)
    ensures r.Ok? ==> r.value.password == s.password && r.value.files == s.files + NormalizeAll(files)
  {
    if s.password.None? then Err(InvalidArgument(NO_PASSWORD))
    else
      var d := Defaults(s, cwd, uuid);
      Ok(d.(files := d.files + NormalizeAll(files)))
  }

  /** The parser over one argument vector. */
  class ArgumentParser {
    const args: seq<string>

    constructor (args: seq<string>)
      ensures this.args == args
    {
      this.args := args;
    }

    /** `parseFlags`: reads flag pairs into `command` until the first token that
        is not a flag, whose index it returns. */
    method ParseFlags(command: Command, cwd: string) returns (r: Result<nat, ArgError>)
      modifies command
      ensures var spec := ParseFlagsFrom(args, 0, old(command.State()), cwd);
        && (spec.Ok? ==> r == Ok(spec.value.0) && command.State() == spec.value.1)
        && (spec.Err? ==> r == Err(spec.error))
    {
      var i := 0;
      while i < |args|
        invariant i % 2 == 0
        invariant ParseFlagsFrom(args, i, command.State(), cwd) == ParseFlagsFrom(args, 0, old(command.State()), cwd)
        decreases |args| - i
      {
        if !StartsWith(args[i], "-") {
          return Ok(i);
        }
        if i + 2 > |args| {
          return Err(InvalidArgument("property value missing for " + args[i]));
        }
        var err := command.SetProperty(args[i], args[i + 1], cwd);
        if err.Some? {
          return Err(err.value);
        }
        i := i + 2;
      }
      return Err(InvalidArgument("No file path specified."));
    }

    /** `setDefaults`. */
    method SetDefaults(command: Command, cwd: string, uuid: string)
      modifies command
      ensures command.State() == Defaults(old(command.State()), cwd, uuid)
    {
      if command.mode.None? {
        command.SetMode(ENCRYPT);
      }
      if command.name.None? {
        command.SetName(uuid);
      }
      if command.outputDirectory.None? {
        command.SetDefaultOutputDirectory(cwd);
      }
    }

    /** `parse`: the help flag first gives a help command; otherwise the flags,
        a password check, the defaults and then the files, in argument order. */
    method Parse(cwd: string, uuid: string) returns (r: Result<Command, ArgError>)
      ensures ParseSpec(args, cwd, uuid).Err? ==> r == Err(ParseSpec(args, cwd, uuid).error)
      ensures ParseSpec(args, cwd, uuid).Ok? ==> r.Ok? && r.value.State() == ParseSpec(args, cwd, uuid).value
    {
      if |args| == 0 || (|args| < 3 && args[0] !in HELP_FLAG) {
        return Err(InvalidArgument(ARGUMENTS_REQUIRED));
      }
      if args[0] in HELP_FLAG {
        var help := new Command.WithMode(HELP);
        return Ok(help);
      }
      var command := new Command();
      var firstFileIndex := ParseFlags(command, cwd);
      ghost var flags := ParseFlagsFrom(args, 0, EMPTY, cwd);
      if firstFileIndex.Err? {
        return Err(firstFileIndex.error);
      }
      var first := firstFileIndex.value;
      assert flags.Ok? && flags.value.0 == first && command.State() == flags.value.1;
      assert ParseSpec(args, cwd, uuid) == Complete(command.State(), args[first..], cwd, uuid);
      if command.password.None? {
        return Err(InvalidArgument(NO_PASSWORD));
      }
      ghost var flagged := command.State();
      SetDefaults(command, cwd, uuid);
      ghost var defaulted := command.State();
      assert Complete(flagged, args[first..], cwd, uuid) == Ok(defaulted.(files := defaulted.files + NormalizeAll(args[first..])));
      AddAll(command, args[first..]);
      return Ok(command);
    }
  }

  /** The loop at the end of `parse`: every path, in order, as a file of the
      command. */
  method AddAll(command: Command, paths: seq<string>)
    modifies command
    ensures command.State() == old(command.State()).(files := old(command.files) + NormalizeAll(paths))
  {
    ghost var start := command.State();
    var i := 0;
    while i < |paths|
      invariant 0 <= i <= |paths|
      invariant command.State() == start.(files := start.files + NormalizeAll(paths[..i]))
    {
      ghost var added := NormalizeAll(paths[..i]);
      assert paths[..i + 1] == paths[..i] + [paths[i]];
      NormalizeAllAppend(paths[..i], [paths[i]]);
      command.AddFile(paths[i]);
      assert start.files + added + [Normalize(paths[i])] == start.files + (added + [Normalize(paths[i])]);
      i := i + 1;
    }
    assert paths[..i] == paths;
  }

  lemma {:induction false} NormalizeAllAppend(xs: seq<string>, ys: seq<string>)
    ensures NormalizeAll(xs + ys) == NormalizeAll(xs) + NormalizeAll(ys)
    decreases |xs|
  {
    if xs == [] {
      assert xs + ys == ys;
    } else {
      assert (xs + ys)[1..] == xs[1..] + ys;
      NormalizeAllAppend(xs[1..], ys);
    }
  }
}
