/** POSIX path handling as Node's `path` module does it, reduced to what the
    tools use: `isAbsolute`, `join`, `resolve`, and the `resolvePath` helper
    that both the directory lister and the text editor define. A path is
    handled through its segments: the non-empty parts between `/`. */
module Paths {
  import opened Wrappers
  import opened Strings

  predicate IsAbsolute(p: string) {
    |p| > 0 && p[0] == '/'
  }

  /** The non-empty parts of `p` between slashes. */
  function Segments(p: string): (segs: seq<string>)
    ensures forall k :: 0 <= k < |segs| ==> segs[k] != "" && '/' !in segs[k]
  {
    var parts := Split(p, "/");
    SplitPiecesFree(p, '/');
    NonEmpty(parts)
  }

  function NonEmpty(parts: seq<string>): (r: seq<string>)
    requires forall k :: 0 <= k < |parts| ==> '/' !in parts[k]
    ensures forall k :: 0 <= k < |r| ==> r[k] != "" && '/' !in r[k]
  {
    if parts == [] then []
    else if parts[0] == "" then NonEmpty(parts[1..])
    else [parts[0]] + NonEmpty(parts[1..])
  }

  /** A segment list with no `.` and, when `absolute`, no `..`. */
  predicate Clean(segs: seq<string>, absolute: bool) {
    forall k :: 0 <= k < |segs| ==>
      segs[k] != "" && segs[k] != "." && '/' !in segs[k] && (absolute ==> segs[k] != "..")
  }

  /** Node's normalisation of segments, from the left: `.` is dropped, `..`
      removes the segment before it, or stays when there is none to remove
      (a relative path) or is dropped (at the root of an absolute path). */
  function NormalizeSegments(done: seq<string>, todo: seq<string>, absolute: bool): (r: seq<string>)
    requires Clean(done, absolute)
    requires forall k :: 0 <= k < |todo| ==> todo[k] != "" && '/' !in todo[k]
    ensures Clean(r, absolute)
    decreases |todo|
  {
    if todo == [] then done
    else
      var s := todo[0];
      if s == "." then NormalizeSegments(done, todo[1..], absolute)
      else if s == ".." then
        if |done| > 0 && done[|done| - 1] != ".." then NormalizeSegments(done[..|done| - 1], todo[1..], absolute)
        else if absolute then NormalizeSegments(done, todo[1..], absolute)
        else NormalizeSegments(done + [".."], todo[1..], absolute)
      else NormalizeSegments(done + [s], todo[1..], absolute)
  }

  /** `path.normalize(p)`: `..` and `.` resolved, slashes collapsed, a
      trailing slash kept, and `.` for an empty result (`./` when the path
      ended with a slash). */
  function Normalize(p: string): (r: string)
    ensures IsAbsolute(r) <==> IsAbsolute(p)
  {
    var absolute := IsAbsolute(p);
    var segs := NormalizeSegments([], Segments(p), absolute);
    var body := Join(segs, "/");
    var trailing := |p| > 0 && p[|p| - 1] == '/' && segs != [];
    var r := (if absolute then "/" else "") + body + (if trailing then "/" else "");
    if r == "" then (if |p| > 0 && p[|p| - 1] == '/' then "./" else ".") else r
  }

  /** `path.join(a, b)`: the non-empty arguments joined by `/`, normalised. */
  function PathJoin(a: string, b: string): string {
    var joined := if a == "" then b else if b == "" then a else a + "/" + b;
    if joined == "" then "." else Normalize(joined)
  }

  /** `path.resolve(cwd, p)` for an absolute working directory `cwd`: an
      absolute path normalised, without trailing slash. */
  function PathResolve(cwd: string, p: string): (r: string)
    requires IsAbsolute(cwd)
    ensures IsAbsolute(r)
  {
    var full := if IsAbsolute(p) then p else cwd + "/" + p;
    var segs := NormalizeSegments([], Segments(full), true);
    "/" + Join(segs, "/")
  }

  /** `resolvePath` of the directory lister and of the text editor: an
      absolute path is returned unchanged; a relative one is joined to the
      first workspace folder when there is a non-empty one, and resolved
      against the working directory otherwise. */
  function ResolvePath(p: string, workspaceRoot: Option<string>, cwd: string): (r: string)
    requires IsAbsolute(cwd)
    ensures IsAbsolute(p) ==> r == p
    ensures !IsAbsolute(p) && workspaceRoot.Some? && workspaceRoot.value != "" ==>
              r == PathJoin(workspaceRoot.value, p)
    ensures !IsAbsolute(p) && (workspaceRoot.None? || workspaceRoot.value == "") ==>
              r == PathResolve(cwd, p)
    ensures !IsAbsolute(p) && (workspaceRoot.None? || workspaceRoot.value == "" || IsAbsolute(workspaceRoot.value)) ==>
              IsAbsolute(r) && Clean(Segments(r), true)
  {
    if IsAbsolute(p) then p
    else if workspaceRoot.Some? && workspaceRoot.value != "" then
      var root := workspaceRoot.value;
      var joined := if p == "" then root else root + "/" + p;
      SegmentsOfNormalized(joined);
      PathJoin(root, p)
    else
      SegmentsOfRooted(NormalizeSegments([], Segments(cwd + "/" + p), true));
      PathResolve(cwd, p)
  }

  /** An absolute path built from clean segments has those segments. */
  lemma SegmentsOfRooted(segs: seq<string>)
    requires forall k :: 0 <= k < |segs| ==> segs[k] != "" && '/' !in segs[k]
    ensures Segments("/" + Join(segs, "/")) == segs
  {
    if segs == [] {
      assert "/" + Join(segs, "/") == "/";
      assert Split("/", "/") == [""] + Split("", "/");
    } else {
      var parts := [""] + segs;
      JoinRooted(segs);
      SplitJoin(parts, "/");
      assert parts[1..] == segs;
      NonEmptyOfClean(segs);
    }
  }

  lemma JoinRooted(segs: seq<string>)
    requires forall k :: 0 <= k < |segs| ==> '/' !in segs[k]
    requires segs != []
    ensures Join([""] + segs, "/") == "/" + Join(segs, "/")
    ensures forall k :: 0 <= k < |[""] + segs| ==> "/"[0] !in ([""] + segs)[k]
  {
    var parts := [""] + segs;
    assert parts[1..] == segs;
    forall k | 0 <= k < |parts| ensures "/"[0] !in parts[k] {
      if k > 0 {
        assert parts[k] == segs[k - 1];
      }
    }
  }

  /** The same with a trailing slash. */
  lemma SegmentsOfRootedTrailing(segs: seq<string>)
    requires forall k :: 0 <= k < |segs| ==> segs[k] != "" && '/' !in segs[k]
    requires segs != []
    ensures Segments("/" + Join(segs, "/") + "/") == segs
  {
    var parts := [""] + (segs + [""]);
    JoinWrapped(segs);
    WrappedFree(segs);
    SplitJoin(parts, "/");
    assert NonEmpty(parts) == NonEmpty(segs + [""]);
    NonEmptyAppendEmpty(segs);
    NonEmptyOfClean(segs);
  }

  lemma JoinWrapped(segs: seq<string>)
    requires segs != []
    ensures Join([""] + (segs + [""]), "/") == "/" + Join(segs, "/") + "/"
  {
    var tail := segs + [""];
    var parts := [""] + tail;
    assert parts[1..] == tail;
    JoinAppend(segs, [""], "/");
  }

  lemma WrappedFree(segs: seq<string>)
    requires forall k :: 0 <= k < |segs| ==> '/' !in segs[k]
    ensures forall k :: 0 <= k < |[""] + (segs + [""])| ==> "/"[0] !in ([""] + (segs + [""]))[k]
  {
    var parts := [""] + (segs + [""]);
    forall k | 0 <= k < |parts| ensures '/' !in parts[k] {
      if 0 < k < |parts| - 1 {
        assert parts[k] == segs[k - 1];
      }
    }
  }

  lemma {:induction false} NonEmptyOfClean(segs: seq<string>)
    requires forall k :: 0 <= k < |segs| ==> segs[k] != "" && '/' !in segs[k]
    ensures NonEmpty(segs) == segs
    decreases |segs|
  {
    if segs != [] {
      NonEmptyOfClean(segs[1..]);
      assert [segs[0]] + segs[1..] == segs;
    }
  }

  lemma {:induction false} NonEmptyAppendEmpty(parts: seq<string>)
    requires forall k :: 0 <= k < |parts| ==> '/' !in parts[k]
    ensures NonEmpty(parts + [""]) == NonEmpty(parts)
    decreases |parts|
  {
    if parts == [] {
      assert NonEmpty([""]) == NonEmpty([]);
    } else {
      assert (parts + [""])[1..] == parts[1..] + [""];
      NonEmptyAppendEmpty(parts[1..]);
    }
  }

  /** Normalising an absolute path gives an absolute path whose segments
      are clean. */
  lemma SegmentsOfNormalized(p: string)
    ensures IsAbsolute(p) ==> IsAbsolute(Normalize(p)) && Clean(Segments(Normalize(p)), true)
  {
    if IsAbsolute(p) {
      var segs := NormalizeSegments([], Segments(p), true);
      var trailing := p[|p| - 1] == '/' && segs != [];
      if trailing {
        assert Normalize(p) == "/" + Join(segs, "/") + "/";
        SegmentsOfRootedTrailing(segs);
      } else {
        assert Normalize(p) == "/" + Join(segs, "/");
        SegmentsOfRooted(segs);
      }
    }
  }

  /** `path.dirname(p)`: everything before the last segment, found by
      scanning from the end past trailing slashes and then past the last
      segment; `.` when there is no slash and `/` for the root. A result of
      `//` is kept, as Node does, for a path that starts with two slashes. */
  function Dirname(p: string): (r: string)
    ensures IsAbsolute(p) ==> IsAbsolute(r)
    ensures r == "." || r == "/" || r == "//" || (0 < |r| < |p| && r == p[..|r|])
    ensures r == "//" ==> |p| > 2
  {
    if p == "" then "."
    else
      var hasRoot := p[0] == '/';
      var end := LastSeparator(p, |p| - 1, true);
      if end == -1 then (if hasRoot then "/" else ".")
      else if hasRoot && end == 1 then "//"
      else p[..end]
  }

  /** The index of the slash that ends the parent part of `p[..i + 1]`, or
      -1: the scan runs from `i` down to 1, `matchedSlash` holding while
      only slashes have been seen. */
  function LastSeparator(p: string, i: int, matchedSlash: bool): (end: int)
    requires i < |p|
    ensures end == -1 || (1 <= end <= i && p[end] == '/')
    ensures matchedSlash && end != -1 ==> end < i
    decreases i
  {
    if i < 1 then -1
    else if p[i] == '/' then (if !matchedSlash then i else LastSeparator(p, i - 1, true))
    else LastSeparator(p, i - 1, false)
  }

  /** `path.basename(p)`: the last segment, trailing slashes ignored; empty
      for the root. */
  function Basename(p: string): (r: string)
    ensures '/' !in r
    ensures r == "" <==> Segments(p) == []
  {
    var segs := Segments(p);
    if segs == [] then "" else segs[|segs| - 1]
  }

  /** The base name of an absolute path built from segments is its last
      segment. */
  lemma BasenameOfRooted(segs: seq<string>)
    requires forall k :: 0 <= k < |segs| ==> segs[k] != "" && '/' !in segs[k]
    requires segs != []
    ensures Basename("/" + Join(segs, "/")) == segs[|segs| - 1]
  {
    var p := "/" + Join(segs, "/");
    SegmentsOfRooted(segs);
    assert Segments(p) == segs;
  }

  /** A measure that every step of an upward walk with `Dirname` lowers. */
  function WalkRank(p: string): nat {
    2 * |p| + (if p == "." then 0 else 1)
  }

  /** `dirname` leaves exactly `.` and `/` unchanged, and otherwise moves
      strictly upward. */
  lemma DirnameFixedPoints(p: string)
    requires p != ""
    ensures Dirname(p) == p <==> p == "." || p == "/"
    ensures Dirname(p) != p ==> WalkRank(Dirname(p)) < WalkRank(p)
  {
    var r := Dirname(p);
    if p == "." {
      assert LastSeparator(p, 0, true) == -1;
    } else if p == "/" {
      assert LastSeparator(p, 0, true) == -1;
    } else if r == "." {
      assert |p| >= 1;
    } else if r == "/" {
      assert p[0] == '/';
      assert |p| >= 2;
    }
  }

  /** Normalising segments that are already clean changes nothing. */
  lemma {:induction false} NormalizeClean(done: seq<string>, todo: seq<string>)
    requires Clean(done, true) && Clean(todo, true)
    ensures NormalizeSegments(done, todo, true) == done + todo
    decreases |todo|
  {
    if todo != [] {
      assert Clean(done + [todo[0]], true);
      assert Clean(todo[1..], true);
      NormalizeClean(done + [todo[0]], todo[1..]);
      assert done + [todo[0]] + todo[1..] == done + todo;
    } else {
      assert done + todo == done;
    }
  }

  /** Resolving an absolute path made of clean segments gives it back. */
  lemma ResolveClean(cwd: string, segs: seq<string>)
    requires IsAbsolute(cwd) && Clean(segs, true)
    ensures PathResolve(cwd, "/" + Join(segs, "/")) == "/" + Join(segs, "/")
  {
    SegmentsOfRooted(segs);
    NormalizeClean([], segs);
    assert [] + segs == segs;
  }
}
