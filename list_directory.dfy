/** The directory lister: the tree of a directory is built from the
    entries the host reports (sorted, with hidden and ignored entries
    skipped, down to a depth limit), then drawn as text with box-drawing
    connectors. The file system, the `.gitignore` matcher and the name
    comparison are parameters. */
module ListDirectory {
  import opened Wrappers
  import opened Strings
  import Paths
  import opened DirEntries

  datatype TreeNode = TreeNode(name: string, isDirectory: bool, children: seq<TreeNode>)

  // ----- drawing the tree -----

  const LastBranch: string := "\U{2514}\U{2500}\U{2500} "
  const MidBranch: string := "\U{251C}\U{2500}\U{2500} "
  const LastIndent: string := "    "
  const MidIndent: string := "\U{2502}   "

  /** The name, with `/` after a directory. */
  function Label(node: TreeNode): string {
    node.name + (if node.isDirectory then "/" else "")
  }

  function Branch(isLast: bool): string {
    if isLast then LastBranch else MidBranch
  }

  function Indent(isLast: bool): string {
    if isLast then LastIndent else MidIndent
  }

  /** `generateTreeText`: the node's line (a connector only when the prefix
      is non-empty), then its children with the prefix extended. */
  function RenderTree(node: TreeNode, prefix: string, isLast: bool): string
    decreases node, 1
  {
    prefix + (if prefix != "" then Branch(isLast) else "") + Label(node) + "\n" +
    (if |node.children| > 0 then RenderChildren(node.children, prefix + Indent(isLast)) else "")
  }

  /** The children drawn in order, the last one with the closing connector. */
  function RenderChildren(children: seq<TreeNode>, prefix: string): string
    decreases children, 0
  {
    if children == [] then ""
    else RenderTree(children[0], prefix, |children| == 1) + RenderChildren(children[1..], prefix)
  }

  /** A node reached in a pre-order walk, with one flag per ancestor below
      the root telling whether that ancestor (or the node itself, last) is
      the last child of its parent. */
  datatype Visit = Visit(lastFlags: seq<bool>, node: TreeNode)

  function PreOrder(node: TreeNode, lastFlags: seq<bool>): (vs: seq<Visit>)
    ensures |vs| >= 1 && vs[0] == Visit(lastFlags, node)
    decreases node, 1
  {
    [Visit(lastFlags, node)] + PreOrderAll(node.children, lastFlags)
  }

  function PreOrderAll(children: seq<TreeNode>, lastFlags: seq<bool>): seq<Visit>
    decreases children, 0
  {
    if children == [] then []
    else PreOrder(children[0], lastFlags + [|children| == 1]) + PreOrderAll(children[1..], lastFlags)
  }

  /** The number of nodes of a tree. */
  function Size(node: TreeNode): nat
    decreases node, 1
  {
    1 + SizeAll(node.children)
  }

  function SizeAll(children: seq<TreeNode>): nat
    decreases children, 0
  {
    if children == [] then 0 else Size(children[0]) + SizeAll(children[1..])
  }

  /** The indentation that the ancestors' flags call for, outermost first. */
  function Indents(flags: seq<bool>): string
    decreases |flags|
  {
    if flags == [] then "" else Indents(flags[..|flags| - 1]) + Indent(flags[|flags| - 1])
  }

  /** One line of the drawing: the root bare; any other node indented by
      four blanks, then one column per ancestor between it and the root,
      then its connector. */
  function Row(v: Visit): string {
    var n := |v.lastFlags|;
    if n == 0 then Label(v.node) + "\n"
    else LastIndent + Indents(v.lastFlags[..n - 1]) + Branch(v.lastFlags[n - 1]) + Label(v.node) + "\n"
  }

  function Rows(vs: seq<Visit>): string
    decreases |vs|
  {
    if vs == [] then "" else Row(vs[0]) + Rows(vs[1..])
  }

  lemma {:induction false} RowsAppend(a: seq<Visit>, b: seq<Visit>)
    ensures Rows(a + b) == Rows(a) + Rows(b)
    decreases |a|
  {
    if a == [] {
      assert a + b == b;
    } else {
      assert (a + b)[0] == a[0] && (a + b)[1..] == a[1..] + b;
      RowsAppend(a[1..], b);
    }
  }

  lemma RowsCons(v: Visit, vs: seq<Visit>)
    ensures Rows([v] + vs) == Row(v) + Rows(vs)
  {
    assert ([v] + vs)[0] == v && ([v] + vs)[1..] == vs;
  }

  /** The drawing of a whole tree is one line per node, in pre-order with
      the children in array order, each line laid out as `Row` says. */
  lemma RenderIsPreOrder(root: TreeNode)
    ensures RenderTree(root, "", true) == Rows(PreOrder(root, []))
    ensures |PreOrder(root, [])| == Size(root)
  {
    var cs := root.children;
    assert "" + LastIndent == LastIndent + Indents([]);
    var tail := if |cs| > 0 then RenderChildren(cs, "" + LastIndent) else "";
    RenderChildrenRows(cs, []);
    assert tail == Rows(PreOrderAll(cs, []));
    var head := Label(root) + "\n";
    assert RenderTree(root, "", true) == "" + "" + Label(root) + "\n" + tail;
    assert "" + "" + Label(root) + "\n" == head;
    assert Row(Visit([], root)) == head;
    RowsCons(Visit([], root), PreOrderAll(cs, []));
    PreOrderSize(root, []);
  }

  /** A node drawn below the root, with the prefix its ancestors build. */
  lemma {:induction false} RenderTreeRows(node: TreeNode, flags: seq<bool>)
    requires flags != []
    ensures RenderTree(node, LastIndent + Indents(flags[..|flags| - 1]), flags[|flags| - 1]) ==
            Rows(PreOrder(node, flags))
    decreases node, 1
  {
    var n := |flags|;
    var last := flags[n - 1];
    var prefix := LastIndent + Indents(flags[..n - 1]);
    assert prefix != "";
    assert flags[..n] == flags;
    assert prefix + Indent(last) == LastIndent + Indents(flags) by {
      assert Indents(flags) == Indents(flags[..n - 1]) + Indent(last);
    }
    var cs := node.children;
    var tail := if |cs| > 0 then RenderChildren(cs, prefix + Indent(last)) else "";
    RenderChildrenRows(cs, flags);
    assert tail == Rows(PreOrderAll(cs, flags));
    var head := prefix + Branch(last) + Label(node) + "\n";
    assert RenderTree(node, prefix, last) == head + tail;
    assert Row(Visit(flags, node)) == head;
    RowsCons(Visit(flags, node), PreOrderAll(cs, flags));
  }

  lemma {:induction false} RenderChildrenRows(children: seq<TreeNode>, flags: seq<bool>)
    ensures RenderChildren(children, LastIndent + Indents(flags)) == Rows(PreOrderAll(children, flags))
    decreases children, 0
  {
    if children != [] {
      var f := flags + [|children| == 1];
      assert f[..|f| - 1] == flags && f[|f| - 1] == (|children| == 1);
      RenderTreeRows(children[0], f);
      RenderChildrenRows(children[1..], flags);
      RowsAppend(PreOrder(children[0], f), PreOrderAll(children[1..], flags));
    }
  }

  lemma {:induction false} PreOrderSize(node: TreeNode, flags: seq<bool>)
    ensures |PreOrder(node, flags)| == Size(node)
    decreases node, 1
  {
    PreOrderAllSize(node.children, flags);
  }

  lemma {:induction false} PreOrderAllSize(children: seq<TreeNode>, flags: seq<bool>)
    ensures |PreOrderAll(children, flags)| == SizeAll(children)
    decreases children, 0
  {
    if children != [] {
      PreOrderSize(children[0], flags + [|children| == 1]);
      PreOrderAllSize(children[1..], flags);
    }
  }

  /** The shapes of the lines: the root's has no connector; a child's has
      the closing connector exactly when it is the last child, and its
      children are indented by blanks after a last child and by a bar
      otherwise. */
  lemma RowShapes(node: TreeNode, flags: seq<bool>, isLast: bool, child: bool)
    ensures Row(Visit([], node)) == Label(node) + "\n"
    ensures Row(Visit(flags + [isLast], node)) ==
            LastIndent + Indents(flags) + (if isLast then LastBranch else MidBranch) + Label(node) + "\n"
    ensures Indents(flags + [isLast, child]) ==
            Indents(flags) + (if isLast then LastIndent else MidIndent) + Indent(child)
  {
    var f := flags + [isLast];
    assert f[..|f| - 1] == flags;
    var g := flags + [isLast, child];
    assert g[..|g| - 1] == f;
  }

  // ----- building the tree -----

  /** `Number.MAX_SAFE_INTEGER`, the depth limit when none is given. */
  const MaxSafeInteger: int := 9007199254740991

  /** The directories the host can read, with the entries it reports; a
      path that is absent cannot be read. */
  type FileSystem = map<string, seq<Entry>>

  /** The path of an entry relative to the parent of the directory being
      listed, as the matcher is asked about it. */
  function RelativeName(nodeName: string, name: string): string {
    if nodeName == "" then name else nodeName + "/" + name
  }

  /** An entry that is not listed: hidden (its name starts with `.`) when
      hidden entries are not wanted, or matched by the ignore rules. */
  predicate Skipped(e: Entry, nodeName: string, includeHidden: bool, ignores: string -> bool) {
    (!includeHidden && StartsWith(e.name, ".")) || ignores(RelativeName(nodeName, e.name))
  }

  /** The steps of depth still allowed below `depth`. */
  function Budget(depth: int, maxDepth: int): nat {
    if depth > maxDepth then 0 else maxDepth - depth + 1
  }

  /** The tree `buildDirectoryTree` returns, as a value. */
  function BuildTree(fs: FileSystem, fullPath: string, nodeName: string, depth: int, maxDepth: int,
                     includeHidden: bool, ignores: string -> bool, leq: (string, string) -> bool): TreeNode
    decreases Budget(depth, maxDepth), 1, 0
  {
    if depth > maxDepth || fullPath !in fs then TreeNode(nodeName, true, [])
    else
      TreeNode(nodeName, true,
               Children(fs, fullPath, nodeName, depth, maxDepth, includeHidden, ignores, leq,
                        SortEntries(leq, fs[fullPath])))
  }

  /** The child nodes for a run of sorted entries. */
  function Children(fs: FileSystem, fullPath: string, nodeName: string, depth: int, maxDepth: int,
                    includeHidden: bool, ignores: string -> bool, leq: (string, string) -> bool,
                    es: seq<Entry>): seq<TreeNode>
    requires depth <= maxDepth
    decreases Budget(depth, maxDepth), 0, |es|
  {
    if es == [] then []
    else
      var e := es[|es| - 1];
      Children(fs, fullPath, nodeName, depth, maxDepth, includeHidden, ignores, leq, es[..|es| - 1]) +
      (if Skipped(e, nodeName, includeHidden, ignores) then []
       else if IsDirectory(e) then
         [BuildTree(fs, Paths.PathJoin(fullPath, e.name), e.name, depth + 1, maxDepth, includeHidden, ignores, leq)]
       else [TreeNode(e.name, false, [])])
  }

  /** The entries that are listed, in order. */
  function Kept(es: seq<Entry>, nodeName: string, includeHidden: bool, ignores: string -> bool): (r: seq<Entry>)
    ensures forall k :: 0 <= k < |r| ==> r[k] in es && !Skipped(r[k], nodeName, includeHidden, ignores)
    decreases |es|
  {
    if es == [] then []
    else
      var e := es[|es| - 1];
      var front := Kept(es[..|es| - 1], nodeName, includeHidden, ignores);
      assert forall x :: x in es[..|es| - 1] ==> x in es;
      front + (if Skipped(e, nodeName, includeHidden, ignores) then [] else [e])
  }

  // One more sorted entry adds the node it gives, if any, at the end.
  lemma ChildrenPush(fs: FileSystem, fullPath: string, nodeName: string, depth: int, maxDepth: int,
                     includeHidden: bool, ignores: string -> bool, leq: (string, string) -> bool,
                     es: seq<Entry>, i: int)
    requires depth <= maxDepth && 0 <= i < |es|
    ensures var e := es[i];
            Children(fs, fullPath, nodeName, depth, maxDepth, includeHidden, ignores, leq, es[..i + 1]) ==
            Children(fs, fullPath, nodeName, depth, maxDepth, includeHidden, ignores, leq, es[..i]) +
            (if Skipped(e, nodeName, includeHidden, ignores) then []
             else if IsDirectory(e) then
               [BuildTree(fs, Paths.PathJoin(fullPath, e.name), e.name, depth + 1, maxDepth, includeHidden, ignores, leq)]
             else [TreeNode(e.name, false, [])])
  {
    assert es[..i + 1][..i] == es[..i] && es[..i + 1][i] == es[i];
  }

  /** `buildDirectoryTree`: the node of `fullPath`, its children pushed one
      by one in sorted order, directories built recursively one level
      deeper. A directory that cannot be read has no children. */
  method BuildDirectoryTree(fs: FileSystem, fullPath: string, nodeName: string, depth: int, maxDepth: int,
                            includeHidden: bool, ignores: string -> bool, leq: (string, string) -> bool)
    returns (root: TreeNode)
    ensures root == BuildTree(fs, fullPath, nodeName, depth, maxDepth, includeHidden, ignores, leq)
    decreases Budget(depth, maxDepth), 1
  {
    if depth > maxDepth {
      return TreeNode(nodeName, true, []);
    }
    if fullPath !in fs {
      return TreeNode(nodeName, true, []);
    }
    var sorted := SortEntries(leq, fs[fullPath]);
    var children: seq<TreeNode> := [];
    var i := 0;
    while i < |sorted|
      invariant 0 <= i <= |sorted|
      invariant children == Children(fs, fullPath, nodeName, depth, maxDepth, includeHidden, ignores, leq, sorted[..i])
    {
      var name := sorted[i].name;
      ChildrenPush(fs, fullPath, nodeName, depth, maxDepth, includeHidden, ignores, leq, sorted, i);
      if !includeHidden && StartsWith(name, ".") {
        i := i + 1;
        continue;
      }
      var relativePath := RelativeName(nodeName, name);
      if ignores(relativePath) {
        i := i + 1;
        continue;
      }
      if IsDirectory(sorted[i]) {
        var child := BuildDirectoryTree(fs, Paths.PathJoin(fullPath, name), name, depth + 1, maxDepth,
                                        includeHidden, ignores, leq);
        children := children + [child];
      } else {
        children := children + [TreeNode(name, false, [])];
      }
      i := i + 1;
    }
    assert sorted[..|sorted|] == sorted;
    root := TreeNode(nodeName, true, children);
  }

  /** The children mirror the listed entries one for one: same names, a
      directory node exactly for a directory entry. */
  lemma {:induction false} ChildrenMirrorKept(fs: FileSystem, fullPath: string, nodeName: string, depth: int,
                                              maxDepth: int, includeHidden: bool, ignores: string -> bool,
                                              leq: (string, string) -> bool, es: seq<Entry>)
    requires depth <= maxDepth
    ensures var cs := Children(fs, fullPath, nodeName, depth, maxDepth, includeHidden, ignores, leq, es);
            var kept := Kept(es, nodeName, includeHidden, ignores);
            |cs| == |kept| &&
            forall k :: 0 <= k < |cs| ==> cs[k].name == kept[k].name && cs[k].isDirectory == IsDirectory(kept[k])
    decreases |es|
  {
    if es != [] {
      ChildrenMirrorKept(fs, fullPath, nodeName, depth, maxDepth, includeHidden, ignores, leq, es[..|es| - 1]);
    }
  }

  /** Keeping some of the entries keeps them sorted. */
  lemma {:induction false} KeptSorted(leq: (string, string) -> bool, es: seq<Entry>, nodeName: string,
                                      includeHidden: bool, ignores: string -> bool)
    requires Sorted(leq, es)
    ensures Sorted(leq, Kept(es, nodeName, includeHidden, ignores))
    decreases |es|
  {
    if es != [] {
      var front := es[..|es| - 1];
      assert Sorted(leq, front);
      KeptSorted(leq, front, nodeName, includeHidden, ignores);
      var kf := Kept(front, nodeName, includeHidden, ignores);
      forall k | 0 <= k < |kf| ensures EntryLeq(leq, kf[k], es[|es| - 1]) {
        var m :| 0 <= m < |front| && front[m] == kf[k];
      }
    }
  }

  /** What a listed directory shows: no hidden entry unless hidden entries
      are wanted, no entry the ignore rules match, every directory before
      every file, and names in order within each kind. */
  lemma ListedChildren(fs: FileSystem, fullPath: string, nodeName: string, depth: int, maxDepth: int,
                       includeHidden: bool, ignores: string -> bool, leq: (string, string) -> bool)
    requires TotalPreorder(leq)
    ensures var cs := BuildTree(fs, fullPath, nodeName, depth, maxDepth, includeHidden, ignores, leq).children;
            (forall k :: 0 <= k < |cs| ==>
               (!includeHidden ==> !StartsWith(cs[k].name, ".")) && !ignores(RelativeName(nodeName, cs[k].name))) &&
            (forall i, j :: 0 <= i < j < |cs| && cs[j].isDirectory ==> cs[i].isDirectory) &&
            (forall i, j :: 0 <= i < j < |cs| && cs[i].isDirectory == cs[j].isDirectory ==> leq(cs[i].name, cs[j].name))
  {
    if depth <= maxDepth && fullPath in fs {
      var sorted := SortEntries(leq, fs[fullPath]);
      ChildrenMirrorKept(fs, fullPath, nodeName, depth, maxDepth, includeHidden, ignores, leq, sorted);
      KeptSorted(leq, sorted, nodeName, includeHidden, ignores);
      var kept := Kept(sorted, nodeName, includeHidden, ignores);
      forall i, j | 0 <= i < j < |kept| ensures IsDirectory(kept[j]) ==> IsDirectory(kept[i])
        ensures IsDirectory(kept[i]) == IsDirectory(kept[j]) ==> leq(kept[i].name, kept[j].name)
      {
        SortedMeaning(leq, kept, i, j);
      }
    }
  }

  /** A tree has at most `h` levels. */
  ghost predicate LevelsAtMost(node: TreeNode, h: nat)
    decreases h
  {
    h >= 1 && forall k :: 0 <= k < |node.children| ==> LevelsAtMost(node.children[k], h - 1)
  }

  /** The depth cut-off: a node deeper than the limit has no children, so
      the tree built from `depth` has at most `maxDepth - depth + 2` levels
      (the listed directory's own level, then one per allowed step). */
  lemma {:induction false} DepthCutOff(fs: FileSystem, fullPath: string, nodeName: string, depth: int, maxDepth: int,
                                       includeHidden: bool, ignores: string -> bool, leq: (string, string) -> bool)
    ensures depth > maxDepth ==>
              BuildTree(fs, fullPath, nodeName, depth, maxDepth, includeHidden, ignores, leq) == TreeNode(nodeName, true, [])
    ensures LevelsAtMost(BuildTree(fs, fullPath, nodeName, depth, maxDepth, includeHidden, ignores, leq),
                         Budget(depth, maxDepth) + 1)
    decreases Budget(depth, maxDepth), 1, 0
  {
    var h := Budget(depth, maxDepth) + 1;
    if depth <= maxDepth && fullPath in fs {
      var sorted := SortEntries(leq, fs[fullPath]);
      ChildrenLevels(fs, fullPath, nodeName, depth, maxDepth, includeHidden, ignores, leq, sorted);
      var cs := Children(fs, fullPath, nodeName, depth, maxDepth, includeHidden, ignores, leq, sorted);
      assert BuildTree(fs, fullPath, nodeName, depth, maxDepth, includeHidden, ignores, leq) == TreeNode(nodeName, true, cs);
      assert forall k :: 0 <= k < |cs| ==> LevelsAtMost(cs[k], h - 1);
    } else {
      assert BuildTree(fs, fullPath, nodeName, depth, maxDepth, includeHidden, ignores, leq) == TreeNode(nodeName, true, []);
    }
  }

  lemma {:induction false} ChildrenLevels(fs: FileSystem, fullPath: string, nodeName: string, depth: int, maxDepth: int,
                                          includeHidden: bool, ignores: string -> bool, leq: (string, string) -> bool,
                                          es: seq<Entry>)
    requires depth <= maxDepth
    ensures forall k :: 0 <= k < |Children(fs, fullPath, nodeName, depth, maxDepth, includeHidden, ignores, leq, es)| ==>
              LevelsAtMost(Children(fs, fullPath, nodeName, depth, maxDepth, includeHidden, ignores, leq, es)[k],
                           Budget(depth, maxDepth))
    decreases Budget(depth, maxDepth), 0, |es|
  {
    if es != [] {
      var e := es[|es| - 1];
      var b := Budget(depth, maxDepth);
      ChildrenLevels(fs, fullPath, nodeName, depth, maxDepth, includeHidden, ignores, leq, es[..|es| - 1]);
      var front := Children(fs, fullPath, nodeName, depth, maxDepth, includeHidden, ignores, leq, es[..|es| - 1]);
      var added: seq<TreeNode> :=
        if Skipped(e, nodeName, includeHidden, ignores) then []
        else if IsDirectory(e) then
          [BuildTree(fs, Paths.PathJoin(fullPath, e.name), e.name, depth + 1, maxDepth, includeHidden, ignores, leq)]
        else [TreeNode(e.name, false, [])];
      if !Skipped(e, nodeName, includeHidden, ignores) {
        if IsDirectory(e) {
          DepthCutOff(fs, Paths.PathJoin(fullPath, e.name), e.name, depth + 1, maxDepth, includeHidden, ignores, leq);
          assert Budget(depth + 1, maxDepth) + 1 == b;
        } else {
          assert LevelsAtMost(TreeNode(e.name, false, []), b);
        }
      }
      assert forall k :: 0 <= k < |added| ==> LevelsAtMost(added[k], b);
      var cs := front + added;
      assert cs == Children(fs, fullPath, nodeName, depth, maxDepth, includeHidden, ignores, leq, es);
      forall k | 0 <= k < |cs| ensures LevelsAtMost(cs[k], b) {
        if k >= |front| {
          assert cs[k] == added[k - |front|];
        }
      }
    }
  }

  // ----- .gitignore patterns -----

  /** A line that counts as a pattern: not blank and, once trimmed, not a
      comment. */
  predicate IsPatternLine(line: string) {
    var trimmed := Trim(line);
    trimmed != "" && !StartsWith(trimmed, "#")
  }

  /** The pattern lines, untrimmed, in order. */
  function FilterPatterns(lines: seq<string>): (r: seq<string>)
    ensures forall x :: x in r <==> x in lines && IsPatternLine(x)
    ensures |r| <= |lines|
    decreases |lines|
  {
    if lines == [] then []
    else (if IsPatternLine(lines[0]) then [lines[0]] else []) + FilterPatterns(lines[1..])
  }

  /** The directories the upward walk visits: the start, then each parent
      in turn, up to the first directory that is its own parent. */
  function Ancestors(dir: string): (r: seq<string>)
    ensures dir == "" <==> r == []
    ensures dir != "" ==> r[0] == dir && Paths.Dirname(r[|r| - 1]) == r[|r| - 1]
    ensures forall k :: 0 <= k < |r| - 1 ==> r[k + 1] == Paths.Dirname(r[k]) && r[k + 1] != r[k]
    decreases Paths.WalkRank(dir)
  {
    if dir == "" then []
    else
      var parent := Paths.Dirname(dir);
      if parent == dir then [dir]
      else
        Paths.DirnameFixedPoints(dir);
        assert parent != "";
        [dir] + Ancestors(parent)
  }

  /** Each step of the walk moves strictly upward, so no directory is
      visited twice. */
  lemma {:induction false} AncestorsRise(dir: string)
    ensures forall i, j :: 0 <= i < j < |Ancestors(dir)| ==>
              Paths.WalkRank(Ancestors(dir)[j]) < Paths.WalkRank(Ancestors(dir)[i])
    decreases Paths.WalkRank(dir)
  {
    if dir != "" {
      AncestorsStep(dir);
      var parent := Paths.Dirname(dir);
      if parent != dir {
        AncestorsRise(parent);
        RanksPrepend(dir, Ancestors(parent));
      }
    }
  }

  // A directory ranked above the first of a strictly falling run keeps it falling.
  lemma RanksPrepend(dir: string, rest: seq<string>)
    requires rest != [] && Paths.WalkRank(rest[0]) < Paths.WalkRank(dir)
    requires forall i, j :: 0 <= i < j < |rest| ==> Paths.WalkRank(rest[j]) < Paths.WalkRank(rest[i])
    ensures forall i, j :: 0 <= i < j < |[dir] + rest| ==>
              Paths.WalkRank(([dir] + rest)[j]) < Paths.WalkRank(([dir] + rest)[i])
  {
    var r := [dir] + rest;
    forall i, j | 0 <= i < j < |r| ensures Paths.WalkRank(r[j]) < Paths.WalkRank(r[i]) {
      assert r[j] == rest[j - 1];
      if i > 0 {
        assert r[i] == rest[i - 1];
      } else if j > 1 {
        assert Paths.WalkRank(rest[j - 1]) < Paths.WalkRank(rest[0]);
      }
    }
  }

  /** From an absolute directory every step of the walk is absolute. */
  lemma {:induction false} AncestorsStayAbsolute(dir: string)
    requires Paths.IsAbsolute(dir)
    ensures forall k :: 0 <= k < |Ancestors(dir)| ==> Paths.IsAbsolute(Ancestors(dir)[k])
    decreases Paths.WalkRank(dir)
  {
    AncestorsStep(dir);
    var parent := Paths.Dirname(dir);
    if parent != dir {
      AncestorsStayAbsolute(parent);
      var r := Ancestors(dir);
      var rest := Ancestors(parent);
      forall k | 0 < k < |r| ensures Paths.IsAbsolute(r[k]) {
        assert r[k] == rest[k - 1];
      }
    }
  }

  /** The walk from an absolute directory visits each directory once and
      ends at the root. */
  lemma WalkEndsAtRoot(dir: string)
    requires Paths.IsAbsolute(dir)
    ensures var r := Ancestors(dir);
            r[|r| - 1] == "/" && forall i, j :: 0 <= i < j < |r| ==> r[i] != r[j]
  {
    var r := Ancestors(dir);
    AncestorsRise(dir);
    AncestorsStayAbsolute(dir);
    Paths.DirnameFixedPoints(r[|r| - 1]);
  }

  /** The patterns of one directory's `.gitignore`, none when it cannot be
      read. */
  function PatternsOf(files: map<string, string>, dir: string): seq<string> {
    var gitignorePath := Paths.PathJoin(dir, ".gitignore");
    if gitignorePath in files then FilterPatterns(Split(files[gitignorePath], "\n")) else []
  }

  function CollectPatterns(files: map<string, string>, dirs: seq<string>): seq<string>
    decreases |dirs|
  {
    if dirs == [] then []
    else CollectPatterns(files, dirs[..|dirs| - 1]) + PatternsOf(files, dirs[|dirs| - 1])
  }

  /** `loadGitignorePatterns`: walk upward from `dirPath`, appending the
      pattern lines of every readable `.gitignore`, and stop at the first
      directory that is its own parent. */
  method LoadGitignorePatterns(files: map<string, string>, dirPath: string) returns (patterns: seq<string>)
    ensures patterns == CollectPatterns(files, Ancestors(dirPath))
  {
    patterns := [];
    var currentDir := dirPath;
    ghost var visited: seq<string> := [];
    assert visited + Ancestors(currentDir) == Ancestors(dirPath);
    while currentDir != ""
      invariant visited + Ancestors(currentDir) == Ancestors(dirPath)
      invariant patterns == CollectPatterns(files, visited)
      decreases Paths.WalkRank(currentDir)
    {
      var found := ReadPatterns(files, currentDir);
      CollectStep(files, visited, currentDir);
      patterns := patterns + found;
      var parentDir := Paths.Dirname(currentDir);
      WalkStep(visited, currentDir);
      visited := visited + [currentDir];
      if parentDir == currentDir {
        assert visited == Ancestors(dirPath);
        break;
      }
      currentDir := parentDir;
    }
    assert visited + Ancestors(currentDir) == visited || visited == Ancestors(dirPath);
  }

  /** The body of the walk: read one directory's `.gitignore`, if it can be
      read, and keep its pattern lines. */
  method ReadPatterns(files: map<string, string>, dir: string) returns (found: seq<string>)
    ensures found == PatternsOf(files, dir)
  {
    var gitignorePath := Paths.PathJoin(dir, ".gitignore");
    found := [];
    if gitignorePath in files {
      var lines := Split(files[gitignorePath], "\n");
      found := FilterPatterns(lines);
    }
  }

  lemma CollectStep(files: map<string, string>, visited: seq<string>, dir: string)
    ensures CollectPatterns(files, visited + [dir]) == CollectPatterns(files, visited) + PatternsOf(files, dir)
  {
    assert (visited + [dir])[..|visited|] == visited;
  }

  /** One step of the walk: a directory that is its own parent ends it;
      otherwise the walk goes on from the parent, which is higher up. */
  lemma AncestorsStep(dir: string)
    requires dir != ""
    ensures Paths.Dirname(dir) == dir ==> Ancestors(dir) == [dir]
    ensures Paths.Dirname(dir) != dir ==>
              Paths.WalkRank(Paths.Dirname(dir)) < Paths.WalkRank(dir) && Paths.Dirname(dir) != "" &&
              Ancestors(dir) == [dir] + Ancestors(Paths.Dirname(dir))
  {
    Paths.DirnameFixedPoints(dir);
  }

  /** One step of the walk, seen from the directories already visited. */
  lemma WalkStep(visited: seq<string>, dir: string)
    requires dir != ""
    ensures Paths.Dirname(dir) == dir ==> visited + Ancestors(dir) == visited + [dir]
    ensures Paths.Dirname(dir) != dir ==>
              Paths.WalkRank(Paths.Dirname(dir)) < Paths.WalkRank(dir) && Paths.Dirname(dir) != "" &&
              visited + Ancestors(dir) == (visited + [dir]) + Ancestors(Paths.Dirname(dir))
  {
    AncestorsStep(dir);
    var parent := Paths.Dirname(dir);
    if parent != dir {
      var rest := Ancestors(parent);
      assert visited + ([dir] + rest) == (visited + [dir]) + rest;
    }
  }

  /** A pattern is collected exactly when it is a pattern line of the
      `.gitignore` of some directory the walk visits. */
  lemma CollectedPatterns(files: map<string, string>, dirs: seq<string>, x: string)
    ensures x in CollectPatterns(files, dirs) <==>
            exists k :: 0 <= k < |dirs| && x in PatternsOf(files, dirs[k])
  {
    if x in CollectPatterns(files, dirs) {
      CollectedFrom(files, dirs, x);
    }
    if exists k :: 0 <= k < |dirs| && x in PatternsOf(files, dirs[k]) {
      var k :| 0 <= k < |dirs| && x in PatternsOf(files, dirs[k]);
      CollectedAll(files, dirs, k, x);
    }
  }

  /** Every collected pattern comes from some visited directory. */
  lemma {:induction false} CollectedFrom(files: map<string, string>, dirs: seq<string>, x: string)
    requires x in CollectPatterns(files, dirs)
    ensures exists k :: 0 <= k < |dirs| && x in PatternsOf(files, dirs[k])
    decreases |dirs|
  {
    var front := dirs[..|dirs| - 1];
    var last := PatternsOf(files, dirs[|dirs| - 1]);
    assert CollectPatterns(files, dirs) == CollectPatterns(files, front) + last;
    if x in last {
      assert x in PatternsOf(files, dirs[|dirs| - 1]);
    } else {
      CollectedFrom(files, front, x);
      var k :| 0 <= k < |front| && x in PatternsOf(files, front[k]);
      assert dirs[k] == front[k];
    }
  }

  /** Every pattern line of every visited directory is collected. */
  lemma {:induction false} CollectedAll(files: map<string, string>, dirs: seq<string>, k: nat, x: string)
    requires k < |dirs| && x in PatternsOf(files, dirs[k])
    ensures x in CollectPatterns(files, dirs)
    decreases |dirs|
  {
    var front := dirs[..|dirs| - 1];
    var last := PatternsOf(files, dirs[|dirs| - 1]);
    assert CollectPatterns(files, dirs) == CollectPatterns(files, front) + last;
    if k < |dirs| - 1 {
      assert front[k] == dirs[k];
      CollectedAll(files, front, k, x);
    }
  }

  // ----- the tool -----

  /** `listDirectoryTool`. `stat` is the file type of the resolved path, or
      nothing when it cannot be read; `matcher` turns the collected
      patterns into the ignore test. */
  method ListDirectoryTool(path: string, depth: Option<int>, includeHidden: Option<bool>,
                           workspaceRoot: Option<string>, cwd: string, stat: Option<nat>,
                           fs: FileSystem, files: map<string, string>,
                           matcher: seq<string> -> (string -> bool), leq: (string, string) -> bool)
    returns (result: Result<string, string>)
    requires Paths.IsAbsolute(cwd)
    ensures var resolved := Paths.ResolvePath(path, workspaceRoot, cwd);
            (stat.None? ==> result == Failure("Directory is empty or does not exist")) &&
            (stat.Some? && !HasBit(stat.value, DirectoryBit) ==> result == Failure(resolved + " is not a directory")) &&
            (stat.Some? && HasBit(stat.value, DirectoryBit) ==>
               result == Success(RenderTree(BuildTree(fs, resolved, Paths.Basename(resolved), 1,
                                                      MaxDepth(depth), includeHidden == Some(true),
                                                      matcher(CollectPatterns(files, Ancestors(resolved))), leq),
                                            "", true)))
  {
    var resolvedPath := Paths.ResolvePath(path, workspaceRoot, cwd);
    if stat.None? {
      return Failure("Directory is empty or does not exist");
    }
    if !HasBit(stat.value, DirectoryBit) {
      return Failure(resolvedPath + " is not a directory");
    }
    var ignorePatterns := LoadGitignorePatterns(files, resolvedPath);
    var ignores := matcher(ignorePatterns);
    var tree := BuildDirectoryTree(fs, resolvedPath, Paths.Basename(resolvedPath), 1, MaxDepth(depth),
                                   includeHidden == Some(true), ignores, leq);
    return Success(RenderTree(tree, "", true));
  }

  /** `params.depth || MAX_SAFE_INTEGER`: a missing or zero depth means no
      limit. */
  function MaxDepth(depth: Option<int>): (d: int)
    ensures depth.Some? && depth.value != 0 ==> d == depth.value
    ensures depth.None? || depth.value == 0 ==> d == MaxSafeInteger
  {
    if depth.None? || depth.value == 0 then MaxSafeInteger else depth.value
  }
}
