/** Path text as java.io.File handles it on a Unix file system, and canonical
    paths modelled as the lexical resolution of `.` and `..` segments. */
module Paths {
  import opened Base

  /** A canonical absolute path: the names from the root down; [] is the root. */
  type Segments = seq<string>

  /** A name that can stand in a canonical path. */
  predicate Plain(name: string) {
    name != "" && name != "." && name != ".." && '/' !in name
  }

  predicate IsCanonical(p: Segments) {
    forall i :: 0 <= i < |p| ==> Plain(p[i])
  }

  predicate IsPrefix(a: Segments, b: Segments) {
    |a| <= |b| && b[..|a|] == a
  }

  /** `p` lies strictly below the directory `dir`. */
  predicate StrictlyInside(dir: Segments, p: Segments) {
    |dir| < |p| && p[..|dir|] == dir
  }

  // ---------------------------------------------------------------------
  // The text of a java.io.File

  /** Two separators in a row at `i`. */
  predicate DoubleSlashAt(s: string, i: nat)
    requires i + 1 < |s|
  {
    s[i] == '/' && s[i + 1] == '/'
  }

  /** Collapses every run of '/' into one: never longer, the first and last
      characters kept, and no run of separators left. */
  function Collapse(s: string): (r: string)
    ensures |r| <= |s|
    ensures |s| > 0 ==> |r| > 0 && r[0] == s[0] && r[|r| - 1] == s[|s| - 1]
    ensures forall i :: 0 <= i < |r| - 1 ==> !DoubleSlashAt(r, i)
  {
    if |s| < 2 then s
    else if s[0] == '/' && s[1] == '/' then Collapse(s[1..])
    else
      var rest := Collapse(s[1..]);
      var r := [s[0]] + rest;
      assert forall i :: 1 <= i < |r| - 1 ==> DoubleSlashAt(r, i) == DoubleSlashAt(rest, i - 1);
      r
  }

  /** Collapsing keeps the text before the first separator and the names of
      the path, in order. */
  lemma {:induction false} CollapseKeepsNames(s: string)
    ensures Split(Collapse(s))[0] == Split(s)[0]
    ensures PathNames(Collapse(s)) == PathNames(s)
    decreases |s|
  {
    if |s| >= 2 {
      CollapseKeepsNames(s[1..]);
      if s[0] == '/' && s[1] == '/' {
        assert Split(s)[1..] == Split(s[1..]);
      } else {
        var rest := Collapse(s[1..]);
        var r := [s[0]] + rest;
        assert r[1..] == rest;
        if s[0] == '/' {
          assert Split(r)[1..] == Split(rest);
          assert Split(s)[1..] == Split(s[1..]);
        } else {
          NonEmptyTail(Split(rest), Split(s[1..]));
          assert Split(r)[1..] == Split(rest)[1..];
          assert Split(s)[1..] == Split(s[1..])[1..];
        }
      }
    }
  }

  /** The names of a path, in order: the pieces between separators that are
      not empty. */
  function PathNames(s: string): seq<string> {
    NonEmpty(Split(s))
  }

  function NonEmpty(pieces: seq<string>): seq<string> {
    if pieces == [] then [] else (if pieces[0] == "" then [] else [pieces[0]]) + NonEmpty(pieces[1..])
  }

  lemma NonEmptyTail(a: seq<string>, b: seq<string>)
    requires a != [] && b != [] && a[0] == b[0] && NonEmpty(a) == NonEmpty(b)
    ensures NonEmpty(a[1..]) == NonEmpty(b[1..])
  {
    var head := if a[0] == "" then [] else [a[0]];
    assert NonEmpty(a) == head + NonEmpty(a[1..]);
    assert NonEmpty(b) == head + NonEmpty(b[1..]);
    assert NonEmpty(a[1..]) == NonEmpty(a)[|head|..];
  }

  lemma {:induction false} NonEmptyAppend(a: seq<string>, b: seq<string>)
    ensures NonEmpty(a + b) == NonEmpty(a) + NonEmpty(b)
    decreases |a|
  {
    if a == [] {
      assert a + b == b;
    } else {
      assert (a + b)[1..] == a[1..] + b;
      NonEmptyAppend(a[1..], b);
    }
  }

  /** The path a `new File(s)` holds: runs of '/' collapsed and a trailing '/'
      dropped, except for the root itself. The names and the first character
      are kept. */
  function Normalize(s: string): (r: string)
    ensures |r| <= |s|
    ensures |s| > 0 ==> |r| > 0 && r[0] == s[0]
    ensures forall i :: 0 <= i < |r| - 1 ==> !DoubleSlashAt(r, i)
    ensures |r| > 1 ==> r[|r| - 1] != '/'
  {
    var c := Collapse(s);
    if |c| > 1 && c[|c| - 1] == '/' then
      assert !DoubleSlashAt(c, |c| - 2);
      var r := c[..|c| - 1];
      assert forall i :: 0 <= i < |r| - 1 ==> DoubleSlashAt(r, i) == DoubleSlashAt(c, i);
      r
    else c
  }

  /** `new File(s)` keeps the names of the path, in order. */
  lemma NormalizeKeepsNames(s: string)
    ensures PathNames(Normalize(s)) == PathNames(s)
  {
    CollapseKeepsNames(s);
    var c := Collapse(s);
    if |c| > 1 && c[|c| - 1] == '/' {
      var r := c[..|c| - 1];
      assert r + "/" + "" == c;
      SplitJoin(r, "");
      NonEmptyAppend(Split(r), [""]);
    }
  }

  /** The longest suffix of `s` that holds no '/'. */
  function AfterLastSlash(s: string): (r: string)
    ensures '/' !in r
  {
    if s == [] then []
    else if s[|s| - 1] == '/' then []
    else AfterLastSlash(s[..|s| - 1]) + [s[|s| - 1]]
  }

  /** The name is a suffix of the path, and it is the longest one without a
      separator: either it is the whole path or a separator comes just before
      it. */
  lemma {:induction false} AfterLastSlashSuffix(s: string)
    ensures var r := AfterLastSlash(s);
      |r| <= |s| && r == s[|s| - |r|..] && (|r| < |s| ==> s[|s| - |r| - 1] == '/')
    decreases |s|
  {
    if s != [] && s[|s| - 1] != '/' {
      var front := s[..|s| - 1];
      AfterLastSlashSuffix(front);
      var r := AfterLastSlash(front);
      assert s[|s| - |r| - 1..] == front[|front| - |r|..] + [s[|s| - 1]];
    }
  }

  /** `File.getName`: the last name of the normalised path. */
  function Name(path: string): string {
    AfterLastSlash(Normalize(path))
  }

  /** How java.io.File joins a parent path and a normalised child path. */
  function Join(parent: string, child: string): string {
    if child == "" then parent
    else if child[0] == '/' then (if parent == "/" then child else parent + child)
    else if parent == "/" then parent + child
    else parent + "/" + child
  }

  /** `new File(parent, child)`; a null parent gives `new File(child)`, an empty
      parent path resolves the child against the root. */
  function ChildFile(parent: Option<string>, child: string): string {
    match parent
    case None => Normalize(child)
    case Some(p) => Join(if p == "" then "/" else p, Normalize(child))
  }

  /** `new File(path).getAbsoluteFile()`, with the working directory `cwd`
      (an absolute, normalised path) as a parameter. */
  function Absolute(cwd: string, path: string): string {
    var p := Normalize(path);
    if |p| > 0 && p[0] == '/' then p else Join(cwd, p)
  }

  // ---------------------------------------------------------------------
  // Canonical paths

  /** The text between the separators of `s`, empty pieces included. */
  function Split(s: string): (r: seq<string>)
    ensures |r| >= 1
    ensures forall i :: 0 <= i < |r| ==> '/' !in r[i]
    ensures '/' !in s ==> r == [s]
  {
    if s == [] then [""]
    else
      var rest := Split(s[1..]);
      if s[0] == '/' then [""] + rest
      else
        assert '/' !in s ==> [s[0]] + rest[0] == s;
        [[s[0]] + rest[0]] + rest[1..]
  }

  /** One segment of a path walked from the directory `at`. */
  function StepInto(at: Segments, segment: string): Segments {
    if segment == "" || segment == "." then at
    else if segment == ".." then (if at == [] then [] else at[..|at| - 1])
    else at + [segment]
  }

  /** Walks the segments from `at`; `..` at the root stays at the root. */
  function Resolve(at: Segments, segments: seq<string>): (r: Segments)
    ensures IsCanonical(at) && (forall i :: 0 <= i < |segments| ==> '/' !in segments[i]) ==> IsCanonical(r)
    decreases |segments|
  {
    if segments == [] then at else Resolve(StepInto(at, segments[0]), segments[1..])
  }

  /** `getCanonicalPath` as segments, for an absolute path. */
  function Canonical(path: string): (r: Segments)
    ensures IsCanonical(r)
  {
    Resolve([], Split(path))
  }

  /** "/a/b" for [a, b]; the empty text for the root. */
  function Render(p: Segments): (r: string)
    ensures p != [] ==> |r| > 0 && r[0] == '/'
    ensures p == [] ==> r == ""
  {
    if p == [] then "" else "/" + p[0] + Render(p[1..])
  }

  /** `getCanonicalPath` as text, for an absolute path. */
  function CanonicalPath(path: string): string {
    var c := Canonical(path);
    if c == [] then "/" else Render(c)
  }

  // ---------------------------------------------------------------------
  // Lemmas

  lemma {:induction false} SplitJoin(a: string, b: string)
    ensures Split(a + "/" + b) == Split(a) + Split(b)
  {
    if a == [] {
      assert a + "/" + b == "/" + b;
      assert ("/" + b)[1..] == b;
    } else {
      assert (a + "/" + b)[1..] == a[1..] + "/" + b;
      SplitJoin(a[1..], b);
    }
  }

  lemma {:induction false} ResolveAppend(at: Segments, xs: seq<string>, ys: seq<string>)
    ensures Resolve(at, xs + ys) == Resolve(Resolve(at, xs), ys)
    decreases |xs|
  {
    if xs == [] {
      assert xs + ys == ys;
    } else {
      assert (xs + ys)[0] == xs[0];
      assert (xs + ys)[1..] == xs[1..] + ys;
      ResolveAppend(StepInto(at, xs[0]), xs[1..], ys);
    }
  }

  /** Canonicalising `dir/name` walks the name's segments from the canonical
      directory. */
  lemma ChildCanonical(dir: string, name: string)
    ensures Canonical(dir + "/" + name) == Resolve(Canonical(dir), Split(name))
  {
    SplitJoin(dir, name);
    ResolveAppend([], Split(dir), Split(name));
  }

  /** The canonical form of `new File(dir, name)` is the name's segments
      walked from the canonical directory: the separators `new File` drops or
      adds make no difference. */
  lemma ChildFileCanonical(dir: string, name: string)
    ensures Canonical(ChildFile(Some(dir), name)) == Resolve(Canonical(dir), Split(name))
  {
    var p := if dir == "" then "/" else dir;
    var n := Normalize(name);
    assert ChildFile(Some(dir), name) == Join(p, n);
    assert PathNames(Join(p, n)) == PathNames(p + "/" + name) by {
      JoinNames(p, n);
      PathNamesJoin(p, n);
      NormalizeKeepsNames(name);
      PathNamesJoin(p, name);
    }
    assert Canonical(Join(p, n)) == Canonical(p + "/" + name) by {
      ResolveNames([], Split(Join(p, n)));
      ResolveNames([], Split(p + "/" + name));
    }
    ChildCanonical(p, name);
    assert Canonical(p) == Canonical(dir) by {
      if dir == "" {
        ResolveNames([], Split(p));
        ResolveNames([], Split(dir));
        EmptyNames();
      }
    }
  }

  /** Empty pieces are no step: walking a list of pieces is walking its
      non-empty ones. */
  lemma {:induction false} ResolveNames(at: Segments, pieces: seq<string>)
    ensures Resolve(at, pieces) == Resolve(at, NonEmpty(pieces))
    decreases |pieces|
  {
    if pieces != [] {
      var next := StepInto(at, pieces[0]);
      ResolveNames(next, pieces[1..]);
      if pieces[0] == "" {
        assert NonEmpty(pieces) == NonEmpty(pieces[1..]);
      } else {
        var names := NonEmpty(pieces);
        assert names == [pieces[0]] + NonEmpty(pieces[1..]);
        assert names[1..] == NonEmpty(pieces[1..]);
        assert Resolve(at, names) == Resolve(next, names[1..]);
      }
    }
  }

  /** The names of `a + "/" + b` are those of `a` followed by those of `b`. */
  lemma PathNamesJoin(a: string, b: string)
    ensures PathNames(a + "/" + b) == PathNames(a) + PathNames(b)
  {
    SplitJoin(a, b);
    NonEmptyAppend(Split(a), Split(b));
  }

  /** The empty path and the root alone hold no names. */
  lemma EmptyNames()
    ensures PathNames("") == []
    ensures PathNames("/") == []
  {
    assert Split("") == [""];
    assert "/" == "" + "/" + "";
    PathNamesJoin("", "");
  }

  /** A child that starts with a separator: its names follow the parent's. */
  lemma JoinRootedNames(parent: string, child: string)
    requires child != "" && child[0] == '/'
    ensures PathNames(Join(parent, child)) == PathNames(parent + "/" + child)
  {
    var tail := child[1..];
    assert child == "" + "/" + tail;
    assert PathNames(child) == PathNames(tail) by {
      PathNamesJoin("", tail);
      EmptyNames();
    }
    assert PathNames(parent + "/" + child) == PathNames(parent) + PathNames(tail) by {
      PathNamesJoin(parent, child);
    }
    if parent == "/" {
      assert Join(parent, child) == child;
      EmptyNames();
    } else {
      assert Join(parent, child) == parent + "/" + tail;
      PathNamesJoin(parent, tail);
    }
  }

  /** `new File(parent, child)` has the names of `parent + "/" + child`. */
  lemma JoinNames(parent: string, child: string)
    ensures PathNames(Join(parent, child)) == PathNames(parent + "/" + child)
  {
    if child == "" {
      PathNamesJoin(parent, "");
      EmptyNames();
    } else if child[0] == '/' {
      JoinRootedNames(parent, child);
    } else if parent == "/" {
      assert Join(parent, child) == "" + "/" + child;
      PathNamesJoin("", child);
      PathNamesJoin(parent, child);
      EmptyNames();
    }
  }

  /** Walking segments none of which is `..` never climbs: the start stays a
      prefix, and any plain segment makes the result strictly deeper. */
  lemma {:induction false} ResolveDescends(at: Segments, segments: seq<string>)
    requires forall i :: 0 <= i < |segments| ==> segments[i] != ".."
    ensures IsPrefix(at, Resolve(at, segments))
    ensures (exists i :: 0 <= i < |segments| && Plain(segments[i])) ==> StrictlyInside(at, Resolve(at, segments))
    decreases |segments|
  {
    if segments != [] {
      var next := StepInto(at, segments[0]);
      ResolveDescends(next, segments[1..]);
      var r := Resolve(next, segments[1..]);
      assert IsPrefix(at, next);
      assert r[..|at|] == r[..|next|][..|at|];
      if exists i :: 0 <= i < |segments| && Plain(segments[i]) {
        var i :| 0 <= i < |segments| && Plain(segments[i]);
        if i > 0 {
          assert Plain(segments[1..][i - 1]);
        }
      }
    }
  }

  /** Walking only empty, `.` and `..` segments never descends: the result is
      the start or one of its ancestors. */
  lemma {:induction false} ResolveNeverGrows(at: Segments, segments: seq<string>)
    requires forall i :: 0 <= i < |segments| ==> !Plain(segments[i]) && '/' !in segments[i]
    ensures IsPrefix(Resolve(at, segments), at)
    decreases |segments|
  {
    if segments != [] {
      var next := StepInto(at, segments[0]);
      assert IsPrefix(next, at);
      assert forall i :: 0 <= i < |segments| - 1 ==> segments[1..][i] == segments[i + 1];
      ResolveNeverGrows(next, segments[1..]);
      var r := Resolve(next, segments[1..]);
      assert at[..|r|] == at[..|next|][..|r|];
    }
  }

  /** If `x` and `y` hold no '/', `a` starts with '/' and `b` is empty or starts
      with '/', then `x + a` can begin `y + b` only when x == y. */
  lemma Boundary(x: string, y: string, a: string, b: string)
    requires '/' !in x && '/' !in y
    requires |a| > 0 && a[0] == '/'
    requires b == "" || b[0] == '/'
    requires StartsWith(y + b, x + a)
    ensures x == y && StartsWith(b, a)
  {
    var k := |x|;
    assert forall i :: 0 <= i < |x| ==> x[i] != '/';
    assert forall i :: 0 <= i < |y| ==> y[i] != '/';
    assert b != "" ==> (y + b)[|y|] == '/';
    assert (x + a)[k] == '/';
    assert forall i :: 0 <= i < |x + a| ==> (y + b)[i] == (x + a)[i] by {
      assert (y + b)[..|x + a|] == x + a;
    }
    if k < |y| {
      assert false;
    } else if k > |y| {
      assert false;
    }
    assert x == (x + a)[..k] == (y + b)[..k] == y;
    assert (x + a)[k..] == a;
    assert (y + b)[k..][..|a|] == (y + b)[..|x + a|][k..];
  }

  /** The separator boundary: for a canonical directory other than the root,
      the rendered path of `p` starts with the directory's rendered path plus
      '/' exactly when `p` lies strictly inside the directory. */
  lemma RenderPrefix(dir: Segments, p: Segments)
    requires IsCanonical(dir) && IsCanonical(p)
    requires dir != []
    ensures StartsWith(Render(p), Render(dir) + "/") <==> StrictlyInside(dir, p)
  {
    if StartsWith(Render(p), Render(dir) + "/") {
      PrefixMeansInside(dir, p);
    }
    if StrictlyInside(dir, p) {
      InsideMeansPrefix(dir, p);
    }
  }

  lemma {:induction false} PrefixMeansInside(dir: Segments, p: Segments)
    requires IsCanonical(dir) && IsCanonical(p) && dir != []
    requires StartsWith(Render(p), Render(dir) + "/")
    ensures StrictlyInside(dir, p)
    decreases |dir|
  {
    var x, d' := dir[0], dir[1..];
    assert Render(dir) + "/" == "/" + (x + (Render(d') + "/"));
    assert p != [];
    var y, p' := p[0], p[1..];
    assert Render(p) == "/" + (y + Render(p'));
    assert IsCanonical(d') && IsCanonical(p');
    assert Plain(x) && Plain(y);
    PeelSlash(x + (Render(d') + "/"), y + Render(p'));
    Boundary(x, y, Render(d') + "/", Render(p'));
    if d' == [] {
      assert p' != [];
      assert p[..|dir|] == [y];
    } else {
      PrefixMeansInside(d', p');
      assert p[..|dir|] == [y] + p'[..|d'|];
    }
  }

  lemma {:induction false} InsideMeansPrefix(dir: Segments, p: Segments)
    requires IsCanonical(dir) && IsCanonical(p) && dir != []
    requires StrictlyInside(dir, p)
    ensures StartsWith(Render(p), Render(dir) + "/")
    decreases |dir|
  {
    var x, d' := dir[0], dir[1..];
    assert Render(dir) + "/" == "/" + (x + (Render(d') + "/"));
    var y, p' := p[0], p[1..];
    assert Render(p) == "/" + (y + Render(p'));
    assert IsCanonical(d') && IsCanonical(p');
    assert x == y by { assert p[..|dir|][0] == p[0]; }
    assert p'[..|d'|] == p[..|dir|][1..];
    if d' == [] {
      assert p' != [];
      assert StartsWith(Render(p'), "/");
      PrependPrefix(y, Render(p'), "/");
    } else {
      InsideMeansPrefix(d', p');
      PrependPrefix(y, Render(p'), Render(d') + "/");
    }
    PeelSlash(x + (Render(d') + "/"), y + Render(p'));
  }

  lemma PeelSlash(left: string, right: string)
    ensures StartsWith("/" + right, "/" + left) <==> StartsWith(right, left)
  {
    if StartsWith(right, left) {
      assert ("/" + right)[..|"/" + left|] == "/" + right[..|left|];
    }
    if StartsWith("/" + right, "/" + left) {
      assert right[..|left|] == ("/" + right)[..|"/" + left|][1..];
    }
  }

  lemma PrependPrefix(y: string, r: string, q: string)
    requires StartsWith(r, q)
    ensures StartsWith(y + r, y + q)
  {
    assert (y + r)[..|y + q|] == y + r[..|q|];
  }

  /** At the root the same test never succeeds: no canonical path text starts
      with "//". */
  lemma RootPrefixNeverMatches(p: Segments)
    requires IsCanonical(p)
    ensures !StartsWith(if p == [] then "/" else Render(p), "/" + "/")
  {
    if p != [] {
      assert Plain(p[0]);
      assert Render(p) == "/" + p[0] + Render(p[1..]);
      assert Render(p)[1] == p[0][0];
      assert p[0][0] in p[0];
    }
  }

  /** A path with no run of separators and no trailing one but the root. */
  predicate Clean(s: string) {
    (forall i :: 0 <= i < |s| - 1 ==> !DoubleSlashAt(s, i)) && (|s| > 1 ==> s[|s| - 1] != '/')
  }

  /** A clean path is kept as it is by `new File`. */
  lemma NormalizeClean(s: string)
    requires Clean(s)
    ensures Normalize(s) == s
  {
    CollapseClean(s);
  }

  /** `new File(new File(s).getPath())` holds the same path. */
  lemma NormalizeIdempotent(s: string)
    ensures Normalize(Normalize(s)) == Normalize(s)
  {
    NormalizeClean(Normalize(s));
  }

  lemma {:induction false} CollapseClean(s: string)
    requires forall i :: 0 <= i < |s| - 1 ==> !DoubleSlashAt(s, i)
    ensures Collapse(s) == s
  {
    if |s| >= 2 {
      assert !DoubleSlashAt(s, 0);
      var rest := s[1..];
      assert forall i :: 0 <= i < |rest| - 1 ==> DoubleSlashAt(rest, i) == DoubleSlashAt(s, i + 1);
      CollapseClean(rest);
      assert [s[0]] + rest == s;
    }
  }
}
