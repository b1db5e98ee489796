/** The file system: a map from canonical paths to directories, ordinary files
    and encrypted archive files, with java.io.File's `mkdirs` and the opening
    of a `FileOutputStream`. */
module Disk {
  import opened Base
  import opened Paths

  /** An archive file's content is a sealed value with no bytes in this
      model; a command keeps it beside the file system (`Commands.World`). */
  datatype Node = Directory | File(data: seq<byte>) | ArchiveFile

  /** Keys are canonical paths; the root [] is always a directory and is not a key. */
  type FileSys = map<Segments, Node>

  predicate Exists(fs: FileSys, p: Segments) {
    p == [] || p in fs
  }

  predicate IsDirectory(fs: FileSys, p: Segments) {
    p == [] || (p in fs && fs[p] == Directory)
  }

  /** Anything but a directory: an ordinary file or an archive file. */
  predicate IsFile(fs: FileSys, p: Segments) {
    p in fs && fs[p] != Directory
  }

  /** Every node hangs below a directory. */
  ghost predicate WellFormed(fs: FileSys) {
    forall p :: p in fs ==> p != [] && IsDirectory(fs, p[..|p| - 1])
  }

  /** No proper ancestor of `p` is a file. */
  predicate NoFileAbove(fs: FileSys, p: Segments) {
    forall k :: 0 <= k < |p| ==> !IsFile(fs, p[..k])
  }

  /** `File.mkdirs`: fails when `p` already exists; otherwise creates the missing
      ancestors and then `p`, each creation needing its parent to be a directory.
      None stands for the `false` that `mkdirs` returns. */
  function Mkdirs(fs: FileSys, p: Segments): (r: Option<FileSys>)
    ensures Exists(fs, p) ==> r == None
    ensures r.Some? ==> IsDirectory(r.value, p)
    decreases |p|
  {
    if Exists(fs, p) then None
    else
      var parent := p[..|p| - 1];
      var made := if Exists(fs, parent) then Some(fs) else Mkdirs(fs, parent);
      if made.Some? && IsDirectory(made.value, parent) then Some(made.value[p := Directory]) else None
  }

  /** Whether `new FileOutputStream(p)` can open `p`: it is not a directory and
      its parent is one. Opening creates or truncates the file. */
  predicate CanOpenForWrite(fs: FileSys, p: Segments) {
    p != [] && !IsDirectory(fs, p) && IsDirectory(fs, p[..|p| - 1])
  }

  /** The file system once `new FileOutputStream(p)` has opened `p`: an empty
      ordinary file there, whatever it held before. */
  function Truncated(fs: FileSys, p: Segments): FileSys {
    fs[p := File([])]
  }

  // ---------------------------------------------------------------------
  // Lemmas

  /** What a successful `mkdirs` changes: `p` becomes a directory, every node
      already there keeps its value, and every new node is a directory on the
      way down to `p`. Well-formedness is kept. */
  lemma {:induction false} MkdirsEffect(fs: FileSys, p: Segments)
    requires Mkdirs(fs, p).Some?
    ensures var after := Mkdirs(fs, p).value;
      && IsDirectory(after, p)
      && (forall q :: q in fs ==> q in after && after[q] == fs[q])
      && (forall q :: q in after && q !in fs ==> IsPrefix(q, p) && after[q] == Directory)
      && (WellFormed(fs) ==> WellFormed(after))
    decreases |p|
  {
    var parent := p[..|p| - 1];
    if !Exists(fs, parent) {
      MkdirsEffect(fs, parent);
      var made := Mkdirs(fs, parent).value;
      forall q | q in made && q !in fs ensures IsPrefix(q, p) {
        assert IsPrefix(q, parent);
        assert p[..|q|] == parent[..|q|];
      }
    }
  }

  /** In a well-formed file system every ancestor of an existing node is a
      directory. */
  lemma {:induction false} AncestorsAreDirectories(fs: FileSys, p: Segments, k: nat)
    requires WellFormed(fs)
    requires Exists(fs, p)
    requires k < |p|
    ensures IsDirectory(fs, p[..k])
    decreases |p|
  {
    var parent := p[..|p| - 1];
    assert IsDirectory(fs, parent);
    if k < |parent| {
      AncestorsAreDirectories(fs, parent, k);
      assert parent[..k] == p[..k];
    }
  }

  /** `mkdirs` succeeds when `p` does not exist yet and no ancestor of it is a
      file. */
  lemma {:induction false} MkdirsSucceeds(fs: FileSys, p: Segments)
    requires !Exists(fs, p) && NoFileAbove(fs, p)
    ensures Mkdirs(fs, p).Some?
    decreases |p|
  {
    var parent := p[..|p| - 1];
    assert p[..|parent|] == parent;
    if !Exists(fs, parent) {
      assert forall k :: 0 <= k < |parent| ==> parent[..k] == p[..k];
      MkdirsSucceeds(fs, parent);
      MkdirsEffect(fs, parent);
    }
  }

  /** In a well-formed file system a successful `mkdirs` met no file above `p`. */
  lemma {:induction false} MkdirsNeedsNoFileAbove(fs: FileSys, p: Segments)
    requires WellFormed(fs)
    requires Mkdirs(fs, p).Some?
    ensures NoFileAbove(fs, p)
    decreases |p|
  {
    var parent := p[..|p| - 1];
    assert p[..|parent|] == parent;
    forall k | 0 <= k < |p| ensures !IsFile(fs, p[..k]) {
      if k < |parent| {
        assert parent[..k] == p[..k];
        if Exists(fs, parent) {
          AncestorsAreDirectories(fs, parent, k);
        } else {
          MkdirsNeedsNoFileAbove(fs, parent);
        }
      }
    }
  }

  /** In a well-formed file system `mkdirs` succeeds exactly when `p` does not
      exist yet and no ancestor of it is a file. */
  lemma MkdirsSucceedsExactly(fs: FileSys, p: Segments)
    requires WellFormed(fs)
    ensures Mkdirs(fs, p).Some? <==> !Exists(fs, p) && NoFileAbove(fs, p)
  {
    if Mkdirs(fs, p).Some? {
      MkdirsNeedsNoFileAbove(fs, p);
    } else if !Exists(fs, p) && NoFileAbove(fs, p) {
      MkdirsSucceeds(fs, p);
    }
  }
}
