# encryptFiles in Dafny

A model of encryptFiles, a command-line tool that packs files into one
password-encrypted ZIP archive and unpacks such archives again. The model
covers three parts of the tool:

- The argument parser (`ArgumentParser`). It reads flag/value pairs at even
  positions until the first token that does not start with `-`. Every token
  from there on is a source file.
- The mutable `Command` it fills in. The command is printed by `toString` and
  carried out by `execute`.
- The `Zipper`, with two directions:
  - packing writes one entry per source file, named by its file name;
  - extracting walks the entry stream in order. Each entry passes a
    containment guard (`newFile`) before a directory is created or a file
    is written.

Modules, leaves first:

| file | module | contents |
|---|---|---|
| base.dfy | Base | `Option` for nullable references, `Result` for methods that throw, Java's signed `byte`, `startsWith`, `String.repeat` |
| paths.dfy | Paths | the path text a `java.io.File` holds, `getName`, `new File(parent, child)`, `getAbsoluteFile` with the working directory as a parameter, and `getCanonicalPath` as the lexical resolution of `.` and `..` |
| disk.dfy | Disk | the file system as a map from canonical paths to directories, ordinary files and archive files; `mkdirs`; opening a `FileOutputStream` |
| cipher.dfy | Cipher | the PBEWithMD5AndDES cipher kept symbolic: a key derived from the password, the fixed salt and the iteration count, and a sealed value that opens only under its own key |
| zipper.dfy | Zipper | `writeToFile` over a byte source, a sink and a buffer array; `newFile` as written and as intended; `unzipFile`, both `unzip`s, `zip` and `zipFile` |
| zipper_properties.dfy | ZipperProperties | the guard, confinement of every write to the target directory, well-formedness, sequencing, the wrong-password case, and the pack-then-unpack round trip |
| flags.dfy | Flags | `Mode` and the flag tables |
| command.dfy | Commands | the `Command` class and the functions that specify its methods |
| command_properties.dfy | CommandProperties | properties of setting, printing and carrying out commands |
| argument_parser.dfy | Arguments | the `ArgumentParser` class and the functions that specify it |
| argument_properties.dfy | ArgumentProperties | what a parse refuses and yields, and the unit tests' argument vectors |

Several things the Java code reads from its environment are parameters of
the model:

- the working directory (`cwd`);
- the name `UUID.randomUUID()` generates (`uuid`);
- the file system (`FileSys`), in which an archive file is an `ArchiveFile`
  node;
- the sealed content of each archive file (`World.archives`).

Three behaviours of the code are worth stating plainly:

- An entry name that starts with `/` is not refused. `new File(dir, "/x")`
  puts it under `dir`, and the guard accepts it
  (`ZipperProperties.AbsoluteNameStaysInside`).
- Extraction is not all-or-nothing. An exception at one entry leaves
  everything earlier entries wrote (`ZipperProperties.ExtractAppend`,
  `CommandProperties.DecryptAllAppend`).
- Packing is not all-or-nothing either. The output file is opened before
  any source is read, and it is closed as a complete archive even when a
  source fails, holding the entries put before that source
  (`ZipperProperties.ZipArchiveStops`,
  `CommandProperties.EncryptStoresArchive`).

## Model

| member | source | states |
|---|---|---|
| Base.Repeat | src/com/task/Command.java:120 | `"*".repeat(n)` has length n and holds only `*` |
| Paths.Collapse | src/com/task/Command.java:44 | collapsing separator runs never lengthens the text, keeps its first and last characters and leaves no run of separators |
| Paths.CollapseKeepsNames | src/com/task/Command.java:44 | collapsing separator runs keeps the text before the first separator and every name between separators, in order |
| Paths.Normalize | src/com/task/Command.java:44 | the path `new File(s)` keeps is no longer than `s`, starts with the same character, has no run of separators and no trailing separator except for the root |
| Paths.NormalizeKeepsNames | src/com/task/Command.java:44 | `new File(s)` keeps every name of `s`, in order |
| Paths.NormalizeIdempotent | src/com/task/Command.java:44 | normalising a normalised path changes nothing |
| Paths.AfterLastSlash | src/com/task/Zipper.java:65 | the file name holds no separator |
| Paths.AfterLastSlashSuffix | src/com/task/Zipper.java:65 | the file name is the longest separator-free suffix of the path |
| Paths.Split | src/com/task/Zipper.java:99-102 | a path splits into separator-free segments, a separator-free name into itself |
| Paths.Resolve | src/com/task/Zipper.java:102 | walking separator-free segments from a canonical path gives a canonical path |
| Paths.Canonical | src/com/task/Zipper.java:101-102 | `getCanonicalPath` yields only plain names |
| Paths.Render | src/com/task/Zipper.java:101-102 | the canonical path text starts with `/` below the root and is empty for the root |
| Paths.SplitJoin | src/com/task/Zipper.java:99 | the segments of `dir + "/" + name` are those of `dir` followed by those of `name` |
| Paths.ResolveAppend | src/com/task/Zipper.java:99-102 | walking two segment lists in a row is walking their concatenation |
| Paths.ChildCanonical | src/com/task/Zipper.java:99-102 | the canonical form of the text `dir + "/" + name` is the name's segments walked from the canonical directory |
| Paths.ChildFileCanonical | src/com/task/Zipper.java:99-102 | the canonical form of `new File(dir, name)` is the name's segments walked from the canonical directory, so it is the destination both guards compute |
| Paths.ResolveNames | src/com/task/Zipper.java:102 | empty pieces between separators are no step of `getCanonicalPath` |
| Paths.JoinRootedNames | src/com/task/Zipper.java:99 | `new File(parent, child)` with a child that starts with a separator has the names of `parent + "/" + child` |
| Paths.JoinNames | src/com/task/Zipper.java:99 | `new File(parent, child)` has the names of `parent + "/" + child` |
| Paths.ResolveDescends | src/com/task/Zipper.java:102-104 | segments without `..` never climb, and one plain segment puts the result strictly below the start |
| Paths.ResolveNeverGrows | src/com/task/Zipper.java:102-104 | segments that are only empty, `.` or `..` never descend |
| Paths.Boundary | src/com/task/Zipper.java:104 | a text prefix match at a separator boundary is a match of whole names |
| Paths.RenderPrefix | src/com/task/Zipper.java:101-104 | below the root, the text test `startsWith(dir + "/")` holds exactly when the path lies strictly inside the directory |
| Paths.PrefixMeansInside | src/com/task/Zipper.java:104 | a destination whose text starts with the directory text and a separator lies strictly inside the directory |
| Paths.InsideMeansPrefix | src/com/task/Zipper.java:104 | a destination strictly inside the directory passes the text test |
| Paths.RootPrefixNeverMatches | src/com/task/Zipper.java:104 | no canonical path text starts with `//` |
| Paths.NormalizeClean | src/com/task/Command.java:44 | a path with no run of separators and no trailing one is kept as it is |
| Paths.CollapseClean | src/com/task/Command.java:44 | collapsing separator runs changes nothing when there are none |
| Disk.Mkdirs | src/com/task/Zipper.java:75 | `mkdirs` fails on a path that exists and, when it succeeds, leaves a directory at the path |
| Disk.MkdirsEffect | src/com/task/Zipper.java:75 | a successful `mkdirs` makes the path a directory, keeps every existing node, adds only directories above or at the path, and keeps the file system well formed |
| Disk.AncestorsAreDirectories | src/com/task/Zipper.java:80-81 | in a well-formed file system every ancestor of an existing node is a directory |
| Disk.MkdirsSucceeds | src/com/task/Zipper.java:75 | `mkdirs` succeeds for a missing path with no file above it |
| Disk.MkdirsNeedsNoFileAbove | src/com/task/Zipper.java:75 | a successful `mkdirs` met no file above the path |
| Disk.MkdirsSucceedsExactly | src/com/task/Zipper.java:75 | `mkdirs` succeeds exactly when the path is missing and no ancestor is a file |
| Cipher.DecryptEncrypt | src/com/task/CipherMaker.java:35-41 | the decrypting stream under the same password gives back what the encrypting stream sealed |
| Cipher.WrongPasswordFails | src/com/task/CipherMaker.java:54-62 | a key derived from another password does not decode |
| Zipper.ByteSource.constructor | src/com/task/Zipper.java:64 | an input stream starts at the beginning of its bytes |
| Zipper.ByteSource.Read | src/com/task/Zipper.java:93 | `read` returns 0 for an empty buffer, -1 at the end, otherwise between 1 and the buffer length bytes, copied to the buffer's front in order |
| Zipper.ByteSink.constructor | src/com/task/Zipper.java:85 | an output stream starts empty |
| Zipper.ByteSink.Write | src/com/task/Zipper.java:94 | `write(buffer, 0, n)` appends the first n buffer bytes |
| Zipper.WriteToFile | src/com/task/Zipper.java:91-96 | with a non-empty buffer the output receives exactly the rest of the input, in order; an empty buffer copies nothing |
| Zipper.NewFileAsWritten | src/com/task/Zipper.java:98-108 | the guard as written returns the canonical destination, or raises "Entry is outside of the target dir" with the entry's name |
| Zipper.NewFile | src/com/task/Zipper.java:98-108 | the intended guard accepts exactly a destination strictly inside the canonical directory and returns it; otherwise it raises "Entry is outside of the target dir" with the entry's name |
| ZipperProperties.UnzipEntryEffect | src/com/task/Zipper.java:72-89 | a refused name raises the guard's exception and changes nothing; when nothing is raised a directory entry leaves a directory at its destination and a file entry a file holding its bytes |
| ZipperProperties.DirectoryEntryOutcome | src/com/task/Zipper.java:74-77 | an accepted directory entry succeeds exactly when its destination is a directory or `mkdirs` makes it; otherwise nothing changes and "Failed to create directory" names the destination |
| ZipperProperties.FileEntryOutcome | src/com/task/Zipper.java:80-87 | an accepted file entry whose parent is not a directory and cannot be made changes nothing and raises "Failed to create directory" for the parent; with the parent ready, a destination that cannot be opened raises that; it succeeds exactly when neither happens |
| ZipperProperties.DirectoryEntryAddsDirectories | src/com/task/Zipper.java:74-77 | whatever it raises, a directory entry never removes a node and adds or changes only directories: it never creates a file |
| ZipperProperties.FileEntryAddsDirectories | src/com/task/Zipper.java:78-88 | whatever it raises, a file entry never removes a node and adds or changes only directories, apart from its destination |
| Zipper.UnzipFile | src/com/task/Zipper.java:72-89 | unzipping one entry through the shared buffer equals `UnzipEntry`: the guard first, then the directory, or the parent and the file with the entry's bytes |
| Zipper.CopyEntry | src/com/task/Zipper.java:85-87 | the new file receives exactly the entry's bytes, copied through the shared buffer |
| Zipper.Unzip | src/com/task/Zipper.java:49-61 | an empty stream is refused as empty or undecryptable; otherwise the entries are extracted in stream order until the first exception |
| Zipper.ZipFromStep | src/com/task/Zipper.java:35-37 | each source is opened first, then refused if its name was already written, otherwise appended as an entry; a failing source stops the loop with the entries put so far |
| Zipper.ReadSource | src/com/task/Zipper.java:64 | only an ordinary file opens for reading, giving its bytes; anything else raises `FileNotFound` with the path |
| Zipper.Place | src/com/task/Zipper.java:31 | the output file `new File(directory, name)` lies at a canonical path |
| Zipper.ZipArchive | src/com/task/Zipper.java:30-39 | an output file that cannot be opened is raised before any source is read and nothing is written; otherwise the open empties or creates it, and the closed output holds an archive that opens under the key to the entries packed from the sources as they read after the open, up to the first exception, which is raised with it |
| Zipper.Zip | src/com/task/Zipper.java:30-39 | packing equals `ZipArchive`: the output file opened and emptied first, then one entry per source, in order, named by the file name, holding the bytes copied through a fresh buffer; on an exception the entries put so far are still written |
| ZipperProperties.NewFileMatchesSource | src/com/task/Zipper.java:98-108 | below any directory but the root the guard as written and the intended guard agree |
| ZipperProperties.RootTargetRejectsEverything | src/com/task/Zipper.java:104 | with the root as the target the guard as written refuses every entry |
| ZipperProperties.PlainNameAccepted | src/com/task/Zipper.java:98-108 | a plain name lands directly inside the directory |
| ZipperProperties.RootTargetCounterexample | src/com/task/Zipper.java:104 | target `/` and entry `a`: refused as written, accepted as `/a` by the intended guard |
| ZipperProperties.AbsoluteNameStaysInside | src/com/task/Zipper.java:99 | a name with a leading `/` is placed under the directory, not at the root |
| ZipperProperties.DescendingNameAccepted | src/com/task/Zipper.java:98-108 | a name without `..` and with one plain segment is accepted |
| ZipperProperties.AcceptedNameHasPlainSegment | src/com/task/Zipper.java:104-105 | a name of only empty, `.` and `..` segments, which resolves to the directory or above it, is refused |
| ZipperProperties.ParentEscapeRejected | src/com/task/Zipper.java:104-105 | `../x` below the root is refused as outside the target directory |
| ZipperProperties.ParentWithinTarget | src/com/task/Zipper.java:80 | the parent an accepted file entry needs lies at or below the target, and the destination is one step from it |
| ZipperProperties.StepBelow | src/com/task/Zipper.java:80-81 | when the last step of a name lands strictly inside the target, the parent it started from is at or below the target |
| ZipperProperties.ConfinedTrans | src/com/task/Zipper.java:56-59 | confinement to a directory composes over successive entries |
| ZipperProperties.MkdirsConfined | src/com/task/Zipper.java:75 | `mkdirs` of a path inside the target touches only the target and what is below or above it on the way |
| ZipperProperties.UnzipEntryConfined | src/com/task/Zipper.java:72-89 | one entry removes nothing and writes only strictly inside the target, apart from creating the target and its ancestors |
| ZipperProperties.DirectoryEntryConfined | src/com/task/Zipper.java:74-77 | an accepted directory entry only creates directories at or inside the target, or on the way down to it |
| ZipperProperties.FileEntryConfined | src/com/task/Zipper.java:79-87 | an accepted file entry creates its parent at or inside the target and writes its file strictly inside it |
| ZipperProperties.WriteConfined | src/com/task/Zipper.java:85-86 | writing a file strictly inside the target stays confined to it |
| ZipperProperties.ExtractAllConfined | src/com/task/Zipper.java:56-59 | the whole stream stays confined to the target |
| ZipperProperties.UnzipConfined | src/com/task/Zipper.java:41-61 | whatever the archive and password, unzipping stays confined to the target |
| ZipperProperties.WriteKeepsWellFormed | src/com/task/Zipper.java:85 | opening and writing a file, an extracted one or an archive, keeps every node below a directory |
| ZipperProperties.UnzipEntryKeepsWellFormed | src/com/task/Zipper.java:72-89 | one entry keeps the file system well formed |
| ZipperProperties.UnzipKeepsWellFormed | src/com/task/Zipper.java:56-59 | extraction keeps the file system well formed, even when it stops early |
| ZipperProperties.ExtractAppend | src/com/task/Zipper.java:56-59 | extraction is sequential and not rolled back: `a + b` is `a`, then `b` only if `a` raised nothing |
| ZipperProperties.WrongPasswordLeavesDiskUnchanged | src/com/task/Zipper.java:50-54 | a wrong password reports "empty or failed to decrypt" and changes nothing |
| ZipperProperties.Names | src/com/task/Zipper.java:65 | one file name per source |
| ZipperProperties.NamesAt | src/com/task/Zipper.java:65 | name `i` is the file name of source `i` |
| ZipperProperties.Packed | src/com/task/Zipper.java:35-37 | one entry per readable source |
| ZipperProperties.PackedEntries | src/com/task/Zipper.java:63-70 | entry `i` is named by source `i` and holds its bytes |
| ZipperProperties.PackedStep | src/com/task/Zipper.java:35-37 | the packed entries are the first source's entry followed by those of the rest |
| ZipperProperties.HasEntryNamedAppend | src/com/task/Zipper.java:66 | writing an entry adds exactly its name to the names written |
| ZipperProperties.FreshStep | src/com/task/Zipper.java:66 | the names left are fresh exactly when the next is new and the rest are fresh after it |
| ZipperProperties.ReadableStep | src/com/task/Zipper.java:64 | once the first source opens, the list is readable exactly when the rest is |
| ZipperProperties.PackableStep | src/com/task/Zipper.java:35-37 | the packing condition, one source at a time |
| ZipperProperties.ZipFromSucceeds | src/com/task/Zipper.java:35-37 | the packing loop succeeds exactly when every source opens and no name repeats |
| ZipperProperties.ZipFromResult | src/com/task/Zipper.java:35-37 | a successful packing loop appends the packed entries in order |
| ZipperProperties.ZipArchiveSucceeds | src/com/task/Zipper.java:30-39 | `zip` succeeds exactly when the output file can be opened, every source is readable once the output is open and names are distinct, and the archive then holds the entries packed after the open, in order |
| ZipperProperties.OutputReadEmpty | src/com/task/Zipper.java:63-64 | a source that is the output file is read after the open, as an empty file |
| ZipperProperties.OwnOutputPacksEmpty | src/com/task/Zipper.java:30-39 | the output file as the only source packs as one empty entry, whether it existed before or not |
| ZipperProperties.ZipFromStops | src/com/task/Zipper.java:35-37 | a packing loop that raises stops at some source: the sources before it pack without error to the entries kept, and that source is unreadable, raising its `FileNotFound`, or repeats a name already put, raising `DuplicateEntry` |
| ZipperProperties.ZipArchiveStops | src/com/task/Zipper.java:30-39 | when `zip` raises after the open, some source `k` stops it: the sources before `k` are readable with distinct names, the output holds exactly their archive, and source `k` is unreadable or repeats one of their names |
| ZipperProperties.OpenKeepsSources | src/com/task/Zipper.java:63-64 | sources other than the output file are readable after the open exactly when before, and pack the same entries |
| ZipperProperties.DirectoryCanHold | src/com/task/Zipper.java:81 | an existing directory has no file above it |
| ZipperProperties.PlainEntryStep | src/com/task/Zipper.java:79-87 | a plain-named file entry creates the directory if needed, writes exactly its bytes, and keeps every other node |
| ZipperProperties.EnsureDirectory | src/com/task/Zipper.java:80-83 | a missing parent that can be made is created by `mkdirs`; the result keeps every node, adds only directories on the way to the parent, and stays well formed |
| ZipperProperties.PlainEntryOutcome | src/com/task/Zipper.java:79-87 | a plain-named file entry whose parent is ready becomes a file holding its bytes, without an error |
| ZipperProperties.ExtractPlainFiles | src/com/task/Zipper.java:56-59 | plain, distinct names: every entry's bytes end up in the file of its name and nothing else changes value |
| ZipperProperties.FilesAfterFirst | src/com/task/Zipper.java:56-59 | the facts about the first entry and the rest combine into facts about the stream |
| ZipperProperties.RestFits | src/com/task/Zipper.java:56-59 | once the first plain entry is written, the remaining entries still have plain, distinct names and no directory in their way |
| ZipperProperties.ExtractPacked | src/com/task/Zipper.java:56-59 | extracting packed sources writes each source's bytes under its name |
| ZipperProperties.PackThenUnpack | test/com/task/ZipperTest.java:47-59 | when the output file can be opened and is none of the sources, zip then unzip with the same password reproduces every file's bytes under its name |
| Flags.ModeName | src/com/task/Command.java:117 | each mode prints as the name of its enum constant: `HELP`, `ENCRYPT`, `DECRYPT` |
| Commands.ModeOf | src/com/task/Command.java:55-64 | `e` and `encrypt` give encrypt, `d` and `decrypt` give decrypt, nothing else is a mode and help never is; anything else is "Invalid mode" |
| Commands.ApplyProperty | src/com/task/Command.java:74-86 | a property never touches the files; an unknown flag is "Unrecognised argument: flag." |
| Commands.DefaultOutputDirectory | src/com/task/Command.java:101-108 | only the output directory changes, and an encrypting or decrypting command gets one |
| Commands.Describe | src/com/task/Command.java:114-135 | a command with a mode prints `Mode:` and the mode's name first; a command without files prints no file lines |
| Commands.Perform | src/com/task/Command.java:88-99 | a help command changes nothing; encrypting changes the disk only by putting an archive file at the output place, and only when that place can be opened; decrypting never changes the stored archives |
| Commands.DecryptAll | src/com/task/Command.java:94-98 | no file decrypts to nothing; a first file that is missing or not an archive file raises `FileNotFound` and changes nothing; the stored archives never change |
| Commands.FileLinesStep | src/com/task/Command.java:130-132 | each further file adds a tab and its file name on a new line |
| Commands.Command.constructor | src/com/task/Command.java:28-29 | a new command has no field set and no files |
| Commands.Command.WithMode | src/com/task/Command.java:31-33 | `new Command(mode)` sets the mode alone |
| Commands.Command.AddFile | src/com/task/Command.java:43-45 | the file is appended, as `new File` keeps it, after the existing files |
| Commands.Command.SetMode | src/com/task/Command.java:51-53 | sets the mode alone |
| Commands.Command.SetModeValue | src/com/task/Command.java:55-64 | a mode value sets the mode; any other value raises "Invalid mode" and changes nothing |
| Commands.Command.SetName | src/com/task/Command.java:70-72 | sets the name alone |
| Commands.Command.SetProperty | src/com/task/Command.java:74-86 | equals `ApplyProperty`, and a refused flag or value changes nothing |
| Commands.Command.SetDefaultOutputDirectory | src/com/task/Command.java:101-108 | the working directory when encrypting, its `decrypted` child when decrypting, unchanged otherwise |
| Commands.Command.ToString | src/com/task/Command.java:114-136 | the text built step by step equals `Describe` of the fields |
| Commands.Command.Execute | src/com/task/Command.java:88-99 | carrying out equals `Perform`: one archive of all files, or each archive unpacked in file order until one fails |
| Commands.DecryptEach | src/com/task/Command.java:94-98 | the decrypting loop equals `DecryptAll`: each archive into the directory named after it, stopping at the first exception |
| Arguments.ParseFlagsFrom | src/com/task/ArgumentParser.java:62-73 | on success the first file index is at an even offset, within the arguments, not a flag, and the files are untouched |
| Arguments.Defaults | src/com/task/ArgumentParser.java:50-60 | the password and files are kept; the mode becomes encrypt and the name the generated one only when unset; a given output directory is kept, and an encrypting or decrypting command always has one |
| Arguments.NormalizeAll | src/com/task/ArgumentParser.java:43-45 | each remaining token becomes the path `new File` holds for it, in argument order |
| Arguments.ParseSpec | src/com/task/ArgumentParser.java:27-48 | no arguments are refused as "Password and file path are required"; a help flag first gives a bare help command; any other successful parse has a password and a name |
| Arguments.Complete | src/com/task/ArgumentParser.java:38-45 | the parse completes exactly when a password is set, otherwise "No password set."; the password is kept and the tokens are appended as files |
| Arguments.NormalizeAllAppend | src/com/task/ArgumentParser.java:43-45 | adding files one at a time keeps argument order |
| Arguments.AddAll | src/com/task/ArgumentParser.java:43-45 | every remaining token is appended as a file, in argument order, and no other field changes |
| Arguments.ArgumentParser.constructor | src/com/task/ArgumentParser.java:12 | the parser keeps the argument vector |
| Arguments.ArgumentParser.ParseFlags | src/com/task/ArgumentParser.java:62-73 | the loop's result and the command's fields equal `ParseFlagsFrom` from index 0 |
| Arguments.ArgumentParser.SetDefaults | src/com/task/ArgumentParser.java:50-60 | the command's fields become `Defaults` of the old ones |
| Arguments.ArgumentParser.Parse | src/com/task/ArgumentParser.java:27-48 | the command or the error equals `ParseSpec` of the arguments |
| ArgumentProperties.AllFlagsFail | src/com/task/ArgumentParser.java:63-72 | when every even-offset token is a flag the pairs fail |
| ArgumentProperties.FlagsBeforeFirstFile | src/com/task/ArgumentParser.java:63-66 | every even-offset token before the first file is a flag |
| ArgumentProperties.FieldsFromFlags | src/com/task/ArgumentParser.java:62-73 | each field after the pairs is the starting one or the value after a flag of its group |
| ArgumentProperties.PasswordFromFlags | src/com/task/Command.java:77-78 | the password after the pairs is the starting one or the value after a password flag |
| ArgumentProperties.ModeFromFlags | src/com/task/Command.java:75-76 | the mode after the pairs is the starting one or the mode named after a mode flag |
| ArgumentProperties.NameFromFlags | src/com/task/Command.java:79-80 | the name after the pairs is the starting one or the value after a name flag |
| ArgumentProperties.DirectoryFromFlags | src/com/task/Command.java:81-82 | the output directory after the pairs is the starting one or the absolute form of the value after a directory flag |
| ArgumentProperties.FlagsNeverHelp | src/com/task/Command.java:55-64 | the pairs never set the help mode |
| ArgumentProperties.DefaultsComplete | src/com/task/ArgumentParser.java:50-60 | after the defaults a non-help command has a mode, a name and an output directory; set fields keep their values |
| ArgumentProperties.TooFewArguments | src/com/task/ArgumentParser.java:29-31 | fewer than three tokens without a help flag first are refused as "Password and file path are required" |
| ArgumentProperties.HelpFirst | src/com/task/ArgumentParser.java:32-34 | a help flag first gives a help command with no password and no files, whatever follows |
| ArgumentProperties.HelpOnlyFromHelpFlag | src/com/task/ArgumentParser.java:32-37 | a parsed command is a help command exactly when the first token is a help flag |
| ArgumentProperties.NoFileFails | src/com/task/ArgumentParser.java:63-72 | no non-flag at an even position means no successful parse |
| ArgumentProperties.NoPasswordFails | src/com/task/ArgumentParser.java:38-40 | without a password flag every non-help parse fails |
| ArgumentProperties.ParsedFields | src/com/task/ArgumentParser.java:36-41 | after the pairs and the defaults the mode, password, name and output directory are those the flags or the defaults give, and no file is listed yet |
| ArgumentProperties.Parsed | src/com/task/ArgumentParser.java:27-48 | a non-help parse has encrypt or decrypt as mode (encrypt without a mode flag), a flag-given password, a name (the generated one without a name flag), an output directory, and as files every token from the first even non-flag, in order |
| ArgumentProperties.DefaultsToEncrypt | test/com/task/ArgumentParserTest.java:48-54 | `-p hunter2 filepath` encrypts with that password |
| ArgumentProperties.SetsDecrypt | test/com/task/ArgumentParserTest.java:56-64 | `-m d` decrypts, with the password and the one file |
| ArgumentProperties.DecryptKept | src/com/task/ArgumentParser.java:27-48 | `-m d -p password file`, for any file path that is not a flag and has no separator, decrypts with that password and that one file |
| ArgumentProperties.DecryptPairs | src/com/task/ArgumentParser.java:62-73 | the pairs `-m d -p password` stop at the file at index 4 with both fields set |
| ArgumentProperties.ParseAfterFlags | src/com/task/ArgumentParser.java:27-48 | past the argument count and the help check, a parse is the flag pairs followed by the completion on the tokens from the first file on |
| ArgumentProperties.SetsDirectory | test/com/task/ArgumentParserTest.java:66-74 | an absolute `-d` directory is kept as given |
| ArgumentProperties.DirectoryKept | src/com/task/Command.java:81-82 | a `-d` value that is absolute and already normalised is the parsed output directory, next to the password and the one file |
| ArgumentProperties.DirectoryPairs | src/com/task/ArgumentParser.java:62-73 | the pairs `-d dir -p password` stop at the file at index 4 with both fields set |
| ArgumentProperties.SetsName | test/com/task/ArgumentParserTest.java:76-85 | `-n` sets the name |
| ArgumentProperties.NameKept | src/com/task/ArgumentParser.java:27-48 | with `-m d -n name -p password file` any name and password are parsed as given, with decrypt as mode and the one file, for any file path that is not a flag and has no separator |
| ArgumentProperties.NamePairs | src/com/task/ArgumentParser.java:62-73 | the pairs `-m d -n name -p password` stop at the file at index 6 with the three fields set |
| ArgumentProperties.SetsHelp | test/com/task/ArgumentParserTest.java:87-95 | `-h` alone is a help command with nothing else set |
| ArgumentProperties.NoArgument | test/com/task/ArgumentParserTest.java:99-102 | no arguments are refused |
| ArgumentProperties.MissingPasswordFlag | test/com/task/ArgumentParserTest.java:104-108 | one file alone is refused |
| ArgumentProperties.MissingPasswordFlagWithManyArgs | test/com/task/ArgumentParserTest.java:110-115 | a mode and files without a password are refused as "No password set." |
| ArgumentProperties.MissingFilePath | test/com/task/ArgumentParserTest.java:117-122 | a password alone is refused |
| ArgumentProperties.MissingFilePathWithManyArguments | test/com/task/ArgumentParserTest.java:124-128 | only flag pairs are refused as "No file path specified." |
| ArgumentProperties.MissingArgumentValue | test/com/task/ArgumentParserTest.java:130-134 | a last flag without a value is refused as "property value missing for -m" |
| ArgumentProperties.DirectoryFlag | src/com/task/Command.java:81-82 | an absolute clean directory value is stored as it is |
| ArgumentProperties.NotAFlag | src/com/task/ArgumentParser.java:64 | a token whose first character is not `-` is not a flag |
| ArgumentProperties.NormalizeFilePath | src/com/task/Command.java:44 | a file path without separators is kept as it is |
| ArgumentProperties.CompleteOne | src/com/task/ArgumentParser.java:38-45 | with a password set and one file path without separators, the parse completes, keeps every field the flags set and lists the file as given |
| ArgumentProperties.FlagPair | src/com/task/ArgumentParser.java:63-71 | a flag with its value moves the index on by two, from the state the property gives |
| ArgumentProperties.DecryptFlag | src/com/task/Command.java:75-76 | `-m d` sets the decrypt mode alone |
| ArgumentProperties.PasswordFlag | src/com/task/Command.java:77-78 | `-p` sets the password alone |
| ArgumentProperties.NameFlag | src/com/task/Command.java:79-80 | `-n` sets the name alone |
| ArgumentProperties.TestDirectoryClean | src/com/task/Command.java:82 | `new File("/tmp/directory")` keeps the path as it is |
| CommandProperties.PropertyRefused | src/com/task/Command.java:74-86 | a property is refused exactly for an unknown flag or a mode flag with a non-mode value |
| CommandProperties.OneFieldPerFlag | src/com/task/Command.java:74-86 | an accepted flag sets its own field and leaves every other field and the files as they were |
| CommandProperties.LastPropertyWins | src/com/task/Command.java:78-82 | setting the same property twice keeps the last value |
| CommandProperties.PropertiesCommute | src/com/task/Command.java:74-86 | properties of different groups can be given in either order |
| CommandProperties.DescribeHidesPassword | src/com/task/Command.java:119-121 | the printed form depends on the password only through its length |
| CommandProperties.NameOnlyWhenEncrypting | src/com/task/Command.java:125-127 | the archive name is printed only when encrypting |
| CommandProperties.FileLinesAppend | src/com/task/Command.java:128-133 | the files are printed in list order |
| CommandProperties.LastLine | src/com/task/Command.java:130-132 | the last file adds its name on a line of its own |
| CommandProperties.DecryptAllAppend | src/com/task/Command.java:95-97 | decrypting a list is decrypting its front, then its rest only if nothing failed |
| CommandProperties.EncryptStoresArchive | src/com/task/Command.java:91-93 | encrypting succeeds exactly when the output file can be opened, every source is readable and names are distinct; an output file that cannot be opened is raised first; success puts an archive file holding the archive of all sources, read after the open, at the name under the output directory and changes nothing else; a failure after the open puts there the archive of the sources before the failing one, which are readable with distinct names, and changes nothing else |
| CommandProperties.WrongPasswordChangesNothing | test/com/task/ZipperTest.java:61-70 | decrypting with another password fails as empty or undecryptable and leaves everything as it was |
| CommandProperties.EncryptThenDecrypt | src/com/task/Command.java:88-99 | encrypting then decrypting with the same password puts every source's bytes under its name in the directory named after the archive, when the archive file can be opened, is none of the sources, lies outside that directory and is not one of the files extracted |
| CommandProperties.DecryptPacked | src/com/task/Command.java:94-98 | decrypting an archive file holding the packed sources with their password recreates every source under its name |
| CommandProperties.ArchiveFileBesideTarget | src/com/task/Zipper.java:31-32 | writing the archive file outside a directory that can hold files keeps the file system well formed and the directory able to hold them |
| CommandProperties.DecryptSingle | src/com/task/Command.java:96 | one archive file is unpacked into the directory named after it under the output directory |

## Left out

- Null arguments: `args == null` is refused by the source. A Dafny sequence cannot be null, so only the empty one is modelled.
- Zipper.Destination and Zipper.NewFile expect an absolute directory, as the command always passes. A relative directory is resolved from the root, where `getCanonicalPath` resolves it against the working directory.
- Symbolic links: `getCanonicalPath` is modelled as the lexical resolution of `.` and `..`. A link that leads out of the target directory is not modelled.
- The ZIP container format and `java.util.zip` are not modelled. An archive is its sequence of entries. A duplicate entry name is the `ZipException` that `putNextEntry` raises.
- DES, MD5, CBC and the padding are not modelled. Encryption is a sealed value that opens only under the key it was sealed with. The source turns a wrong password into an undecodable stream, and `getNextEntry` then finds no entry. The model gives every wrong password that outcome. A real wrong key could instead fail with a padding error, which is also an exception before any write.
- Commands.Perform: the archive file is an `ArchiveFile` node whose sealed content is kept in `World.archives`, not as bytes. The open empties or creates the output file before any source is read (`Disk.Truncated`). If packing then fails, try-with-resources still closes the streams, so the file holds a complete archive of the entries put before the failing source; the model stores that archive. A duplicate entry is refused by `putNextEntry` before anything of it is written, so it is not in that archive.
- CommandProperties.EncryptStoresArchive: after a failure past the open, the stored archive is stated as the sealed entries of the sources before the failing one. Whether closing the cipher stream after an exception flushes its padding correctly is a property of the cipher, which is not modelled.
- Zipper.ZipArchive: a source that is the output file itself is read as an empty file. In the source, the encrypted entry headers that the cipher stream has flushed to the file by then are read as well. Those bytes depend on the container format and the cipher, which are not modelled.
- Zipper.Zip reads such a source the same way as `Zipper.ZipArchive`.
- PackThenUnpack requires that no source is the output file. The open empties such a source before it is read, so its bytes cannot come back.
- EncryptThenDecrypt requires that no source is the archive file, for the same reason.
- Commands.DecryptAll: any file that is not an archive file is `FileNotFound`. An ordinary file given to decrypt would, in the source, fail inside the cipher or the container instead.
- Commands.DecryptAll reads an archive file in full before extracting it. The source reads it as a stream, so an entry written over the archive file itself truncates what is left to read. `CommandProperties.EncryptThenDecrypt` therefore requires that no extracted file is the archive file.
- Zipper.ReadSource resolves `.` and `..` in a source path lexically before reading it, and so do Zipper.Place (the output file that Zipper.ZipArchive and Zipper.Zip open) and Commands.DecryptAll (the archive file it looks up). The source passes the path as given to `FileInputStream` and `FileOutputStream`, and the operating system resolves it step by step on the disk. So the model reads source `a/.` when `a` is an ordinary file, where the source fails because `a` is not a directory, and opens output `/missing/../z` as `/z`, where the source fails because `/missing` does not exist.
- Zipper.ReadSource refuses an archive file given as a source, because its bytes are not modelled. The source would pack its encrypted bytes.
- Zipper.UnzipFile uses the intended guard `Zipper.NewFile`, not the guard as written. With the root directory as the target it extracts the entry where the source, Zipper.java:104, raises "Entry is outside of the target dir" (see Findings).
- Zipper.Unzip extracts each entry as `Zipper.UnzipFile` does, so with the root directory as the target it extracts where the source raises "Entry is outside of the target dir".
- Zipper.UnzipEntry, the function both methods equal, uses the same intended guard, with the same difference for the root directory.
- Zipper.UnzipEntry resolves `..` in an entry name lexically for every use of the destination: the guard, `isDirectory`, `mkdirs` and the open. The source passes the uncanonical path to `isDirectory`, `mkdirs` and `FileOutputStream`, so a file entry `x/../y` can fail in the source when `x` does not exist, while the model writes `y` in the target directory.
- The try-with-resources wiring, stream closing order and cipher finalisation in `zip` and `unzip(File, File)` are I/O plumbing. The model keeps only their effect: the output of `zip` is closed as a complete archive whether or not an exception was raised.
- File systems that refuse `mkdirs` or an open for reasons other than a file in the way (permissions, a full disk) are not modelled.
- `UUID.randomUUID()` is a parameter; the model says only that the generated name is used.
- Commands.Command.Execute requires a mode and a password (and a name when encrypting). In the source, a help command reaches `new Zipper(null)` and fails on the missing password. That path is not modelled.
- Commands.Describe counts password characters as Dafny characters. Java's `String.length` counts UTF-16 code units, which differ for characters outside the Basic Multilingual Plane.
- Exception messages are modelled as error values. The two messages that name a path (`Failed to create directory`, `Entry is outside of the target dir`) carry the path or name, not the full text.
- `CipherException` and the test helpers that write random files are not modelled.

## Findings

| source | as written | input that shows it | evidently intended | confidence | as-written member | corrected member |
|---|---|---|---|---|---|---|
| src/com/task/Zipper.java:104 | `newFile` accepts an entry only when the canonical destination starts with the canonical directory followed by `/`. For the root directory that prefix is `//`, which no canonical path starts with. | target directory `/`, entry `a` | the entry lands at `/a`, strictly inside the root | not executed | ZipperProperties.RootTargetCounterexample | Zipper.NewFile |

`Zipper.NewFileAsWritten` is the guard as written.
`ZipperProperties.RootTargetRejectsEverything` shows that it refuses every entry when the target is the root.
`Zipper.NewFile` is the intended guard: strict containment of canonical segment lists. The extraction uses it.
`ZipperProperties.PlainNameAccepted` proves that it accepts a plain name under any directory, the root included.
`ZipperProperties.NewFileMatchesSource` proves that the two guards agree for every other directory.
