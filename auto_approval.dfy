/** The auto-approval policy: a global switch, then a rate limiter per kind
    of operation kept in a table, then a decision for each kind of operation
    built from three string tests (workspace containment, protected files,
    allowed commands). The configuration, the workspace folders, the working
    directory and the clock are parameters. */
module AutoApproval {
  import opened Wrappers
  import opened Strings
  import Regex
  import Paths

  /** The operation kinds. `Unknown` is a value outside the enumeration;
      its name is none of the six kind names, since `OperationNamed` reads
      those as their kinds. */
  datatype Operation = Read | Write | Execute | Debug | Terminal | Browser | Unknown(name: string)

  /** The string values of the enumeration, in declaration order. */
  const KindNames: seq<string> := ["read", "write", "execute", "debug", "terminal", "browser"]

  /** The string an operation stands for. */
  function NameOf(op: Operation): string {
    match op
    case Read => KindNames[0]
    case Write => KindNames[1]
    case Execute => KindNames[2]
    case Debug => KindNames[3]
    case Terminal => KindNames[4]
    case Browser => KindNames[5]
    case Unknown(name) => name
  }

  /** The operation a string stands for: one of the six kinds for their
      names, and an unknown kind for any other string. */
  function OperationNamed(name: string): (op: Operation)
    ensures op.Unknown? <==> name !in KindNames
    ensures NameOf(op) == name
  {
    if name == KindNames[0] then Read
    else if name == KindNames[1] then Write
    else if name == KindNames[2] then Execute
    else if name == KindNames[3] then Debug
    else if name == KindNames[4] then Terminal
    else if name == KindNames[5] then Browser
    else Unknown(name)
  }

  /** Every operation whose unknown name is not a kind name is the one its
      name stands for, so two such operations with the same name, the
      string the rate table is keyed by, are the same. */
  lemma OperationNameRoundTrip(op: Operation)
    requires op.Unknown? ==> op.name !in KindNames
    ensures OperationNamed(NameOf(op)) == op
  {
  }

  datatype ReadPermission = ReadPermission(enabled: bool, includeOutsideWorkspace: bool)
  datatype WritePermission = WritePermission(enabled: bool, includeOutsideWorkspace: bool, includeProtectedFiles: bool)
  datatype ExecutePermission = ExecutePermission(enabled: bool, allowedCommands: seq<string>)
  datatype Permissions = Permissions(
    read: ReadPermission, write: WritePermission, execute: ExecutePermission,
    debug: bool, terminal: bool, browser: bool)
  datatype Limits = Limits(maxRequests: int, timeWindowMinutes: int, retryDelaySeconds: int, requestTimeoutSeconds: int)
  datatype Config = Config(enabled: bool, permissions: Permissions, limits: Limits)

  /** The configuration used when the user has set none: everything off. */
  const DefaultConfig := Config(
    false,
    Permissions(ReadPermission(false, false), WritePermission(false, false, false),
                ExecutePermission(false, []), false, false, false),
    Limits(100, 60, 10, 60))

  /** What the host knows: the workspace folders (as file-system paths) and
      the process's working directory that relative paths resolve against. */
  datatype Workspace = Workspace(folders: seq<string>, cwd: string)

  datatype OperationContext = OperationContext(operation: Operation, filePath: Option<string>, command: Option<string>)

  /** A JavaScript optional string used as a condition: present and non-empty. */
  predicate Truthy(s: Option<string>) {
    s.Some? && s.value != ""
  }

  // ----- workspace containment -----

  /** `isWithinWorkspace`: false without folders, otherwise the resolved
      path starts with some resolved folder (a plain string prefix). */
  predicate IsWithinWorkspace(ws: Workspace, filePath: string)
    requires Paths.IsAbsolute(ws.cwd)
  {
    |ws.folders| > 0 &&
    exists k :: 0 <= k < |ws.folders| &&
      StartsWith(Paths.PathResolve(ws.cwd, filePath), Paths.PathResolve(ws.cwd, ws.folders[k]))
  }

  /** The prefix test does not stop at a separator: a sibling folder whose
      name extends the workspace folder's name counts as inside it. */
  lemma SiblingFolderCountsAsInside(ws: Workspace, segs: seq<string>, t: string)
    requires Paths.IsAbsolute(ws.cwd)
    requires Paths.Clean(segs, true) && segs != []
    requires t != "" && '/' !in t
    requires ws.folders == ["/" + Join(segs, "/")]
    ensures IsWithinWorkspace(ws, "/" + Join(segs, "/") + t)
  {
    var n := |segs|;
    var sibling := segs[..n - 1] + [segs[n - 1] + t];
    JoinExtendLast(segs, t, "/");
    assert Paths.Clean(sibling, true) by {
      forall k | 0 <= k < |sibling|
        ensures sibling[k] != "" && sibling[k] != "." && '/' !in sibling[k] && sibling[k] != ".."
      {
        if k < n - 1 {
          assert sibling[k] == segs[k];
        } else {
          assert sibling[k] == segs[n - 1] + t;
          var last := segs[n - 1];
          assert last != "" && last != ".";
          assert (last + t)[0] == last[0];
          assert |last| == 1 ==> last == [last[0]];
        }
      }
    }
    Paths.ResolveClean(ws.cwd, segs);
    Paths.ResolveClean(ws.cwd, sibling);
    var p := "/" + Join(segs, "/") + t;
    assert "/" + Join(sibling, "/") == p;
    assert Paths.PathResolve(ws.cwd, p) == p;
    assert StartsWith(p, ws.folders[0]);
  }

  // ----- protected files -----

  /** The glob patterns of files that writes may not touch without the
      dedicated permission. */
  const ProtectedFilePatterns: seq<string> := [
    ".git/**", ".vscode/**", "node_modules/**",
    "**/.env", "**/.env.*", "**/package-lock.json", "**/yarn.lock", "**/pnpm-lock.yaml",
    "**/*.key", "**/*.pem", "**/*.p12"
  ]

  /** The regular-expression source built from a glob: `**` becomes `.*`,
      then every `*` (including the one just produced) becomes `[^/]*`, then
      `?` becomes `.`. Nothing else is escaped. */
  function GlobSource(pattern: string): string {
    ReplaceAll(ReplaceAll(ReplaceAll(pattern, "**", ".*"), "*", "[^/]*"), "?", ".")
  }

  /** Whether the k-th glob's expression is found in `path`, searched
      unanchored and unresolved. */
  predicate FoundBy(k: nat, path: string)
    requires k < |ProtectedFilePatterns|
  {
    Regex.Search(Regex.Parse(GlobSource(ProtectedFilePatterns[k])), path)
  }

  /** `isProtectedFile`: every path is protected when there is no workspace
      folder; otherwise some glob's expression occurs somewhere in the path
      as given (unanchored, unresolved). */
  predicate IsProtectedFile(ws: Workspace, filePath: string) {
    |ws.folders| == 0 ||
    exists k :: 0 <= k < |ProtectedFilePatterns| && FoundBy(k, filePath)
  }

  /** The glob `**` alone becomes `.[^/]*`: the `.*` that the first
      replacement produces is rewritten again by the second. */
  lemma GlobSourceDoubleStar()
    ensures GlobSource("**") == ".[^/]*"
  {
    ReplaceAllOnceIn("**", "", "", "**", ".*", ".*");
    ReplaceAllOnceIn(".*", ".", "", "*", "[^/]*", ".[^/]*");
    var t := ".[^/]*";
    assert '?' !in t;
    ReplaceAllFree(t, "?", ".");
  }

  /** Text without `*` or `?` passes through unchanged, and the parts on
      either side of it are translated on their own. The replacements hold
      no `$`, so the literal `ReplaceAll` is exact for them. */
  lemma GlobSourceAround(u: string, y: string, w: string)
    requires y != [] && '*' !in y && '?' !in y
    ensures GlobSource(u + y + w) == GlobSource(u) + y + GlobSource(w)
  {
    var d, st, q := "**", "*", "?";
    assert forall j :: 0 <= j < |d| ==> d[j] !in y;
    assert forall j :: 0 <= j < |st| ==> st[j] !in y;
    assert forall j :: 0 <= j < |q| ==> q[j] !in y;
    ReplaceAllAround(u, y, w, d, ".*");
    var u1, w1 := ReplaceAll(u, d, ".*"), ReplaceAll(w, d, ".*");
    ReplaceAllAround(u1, y, w1, st, "[^/]*");
    var u2, w2 := ReplaceAll(u1, st, "[^/]*"), ReplaceAll(w1, st, "[^/]*");
    ReplaceAllAround(u2, y, w2, q, ".");
  }

  // The glob `**` + `/` + x, for x without `*` or `?`, becomes `.[^/]*/x`.
  lemma GlobSourceAnyDir(x: string)
    requires '*' !in x && '?' !in x
    ensures GlobSource("**/" + x) == ".[^/]*/" + x
  {
    var y := "/" + x;
    assert '*' !in y && '?' !in y;
    GlobSourceAround("**", y, "");
    GlobSourceDoubleStar();
    assert GlobSource("") == "";
    assert "**" + y + "" == "**/" + x;
  }

  // `.[^/]*/x` reads as: any character, a run of non-slashes, then `/x` read
  // as a source pattern.
  lemma ParseAnyDir(x: string)
    requires Regex.StarFree(x)
    ensures Regex.Parse(".[^/]*/" + x) ==
            [Regex.One(Regex.AnyButLineTerminator), Regex.Star(Regex.NotSlash)] + Regex.SourcePattern("/" + x)
  {
    var rest := "/" + x;
    assert ".[^/]*/" + x == ['.'] + ("[^/]*" + rest);
    ParseAnyDirHead(rest);
    assert Regex.StarFree(rest);
    Regex.ParseStarFree(rest, "");
    assert rest + "" == rest;
  }

  lemma ParseAnyDirHead(rest: string)
    requires rest == [] || rest[0] != '*'
    ensures Regex.Parse(['.'] + ("[^/]*" + rest)) ==
            [Regex.One(Regex.AnyButLineTerminator), Regex.Star(Regex.NotSlash)] + Regex.Parse(rest)
  {
    Regex.ParseDot("[^/]*" + rest);
    Regex.ParseNotSlashStar(rest);
    Regex.PrependTwo(Regex.One(Regex.AnyButLineTerminator), Regex.Star(Regex.NotSlash), Regex.Parse(rest));
  }

  lemma AnyDirPattern(x: string)
    requires Regex.StarFree(x) && '?' !in x
    ensures Regex.Parse(GlobSource("**/" + x)) ==
            [Regex.One(Regex.AnyButLineTerminator), Regex.Star(Regex.NotSlash)] +
            ([Regex.One(Regex.Literal('/'))] + Regex.SourcePattern(x))
  {
    GlobSourceAnyDir(x);
    ParseAnyDir(x);
    Regex.SourcePatternAppend("/", x);
    assert Regex.SourcePattern("/") == [Regex.One(Regex.Literal('/'))];
  }

  /** Any character, a run of non-slashes and a slash, then `q`, are found
      after a non-empty directory part. */
  lemma AnyDirMatch(q: Regex.Pattern, dir: string, u: string)
    requires dir != "" && !Regex.IsLineTerminator(dir[|dir| - 1])
    requires Regex.PrefixMatch(q, u)
    ensures Regex.Search([Regex.One(Regex.AnyButLineTerminator), Regex.Star(Regex.NotSlash)] +
                         ([Regex.One(Regex.Literal('/'))] + q), dir + "/" + u)
  {
    var sq := [Regex.One(Regex.Literal('/'))] + q;
    Regex.PrefixMatchOne(Regex.Literal('/'), q, '/', u);
    Regex.PrefixMatchStarSkip(Regex.NotSlash, sq, "/" + u);
    var i := |dir| - 1;
    Regex.PrefixMatchOne(Regex.AnyButLineTerminator, [Regex.Star(Regex.NotSlash)] + sq, dir[i], "/" + u);
    Regex.PrependTwo(Regex.One(Regex.AnyButLineTerminator), Regex.Star(Regex.NotSlash), sq);
    var p := [Regex.One(Regex.AnyButLineTerminator), Regex.Star(Regex.NotSlash)] + sq;
    var s := dir + "/" + u;
    assert s[i..] == [dir[i]] + ("/" + u);
    Regex.SearchFindsAt(p, s, i);
  }

  /** The expression of the glob `**` + `/` + x is found in a path made of a
      non-empty directory part, a slash and text that x (read as a pattern)
      matches at its start. */
  lemma AnyDirGlobFinds(x: string, dir: string, u: string)
    requires Regex.StarFree(x) && '?' !in x
    requires dir != "" && !Regex.IsLineTerminator(dir[|dir| - 1])
    requires Regex.PrefixMatch(Regex.SourcePattern(x), u)
    ensures Regex.Search(Regex.Parse(GlobSource("**/" + x)), dir + "/" + u)
  {
    AnyDirPattern(x);
    AnyDirMatch(Regex.SourcePattern(x), dir, u);
  }

  /** A path the k-th glob finds is protected. */
  lemma ProtectedBy(ws: Workspace, k: nat, path: string)
    requires k < |ProtectedFilePatterns|
    requires Regex.Search(Regex.Parse(GlobSource(ProtectedFilePatterns[k])), path)
    ensures IsProtectedFile(ws, path)
  {
    assert FoundBy(k, path);
  }

  /** Environment files and lock files under any non-empty directory part
      are protected. */
  lemma EnvAndLockFilesProtected(ws: Workspace, dir: string, t: string)
    requires dir != "" && !Regex.IsLineTerminator(dir[|dir| - 1])
    ensures IsProtectedFile(ws, dir + "/.env" + t)
    ensures IsProtectedFile(ws, dir + "/package-lock.json" + t)
    ensures IsProtectedFile(ws, dir + "/yarn.lock" + t)
    ensures IsProtectedFile(ws, dir + "/pnpm-lock.yaml" + t)
  {
    EnvFileProtected(ws, dir, t);
    NpmLockProtected(ws, dir, t);
    YarnLockProtected(ws, dir, t);
    PnpmLockProtected(ws, dir, t);
  }

  lemma EnvFileProtected(ws: Workspace, dir: string, t: string)
    requires dir != "" && !Regex.IsLineTerminator(dir[|dir| - 1])
    ensures IsProtectedFile(ws, dir + "/.env" + t)
  {
    var x := ".env";
    assert ProtectedFilePatterns[3] == "**/" + x;
    assert Regex.StarFree(x) && '?' !in x;
    NamedFileProtected(ws, 3, x, dir, t);
    assert dir + "/" + x + t == dir + "/.env" + t;
  }

  lemma NpmLockProtected(ws: Workspace, dir: string, t: string)
    requires dir != "" && !Regex.IsLineTerminator(dir[|dir| - 1])
    ensures IsProtectedFile(ws, dir + "/package-lock.json" + t)
  {
    var x := "package-lock.json";
    assert ProtectedFilePatterns[5] == "**/" + x;
    assert Regex.StarFree(x) && '?' !in x;
    NamedFileProtected(ws, 5, x, dir, t);
    assert dir + "/" + x + t == dir + "/package-lock.json" + t;
  }

  lemma YarnLockProtected(ws: Workspace, dir: string, t: string)
    requires dir != "" && !Regex.IsLineTerminator(dir[|dir| - 1])
    ensures IsProtectedFile(ws, dir + "/yarn.lock" + t)
  {
    var x := "yarn.lock";
    assert ProtectedFilePatterns[6] == "**/" + x;
    assert Regex.StarFree(x) && '?' !in x;
    NamedFileProtected(ws, 6, x, dir, t);
    assert dir + "/" + x + t == dir + "/yarn.lock" + t;
  }

  lemma PnpmLockProtected(ws: Workspace, dir: string, t: string)
    requires dir != "" && !Regex.IsLineTerminator(dir[|dir| - 1])
    ensures IsProtectedFile(ws, dir + "/pnpm-lock.yaml" + t)
  {
    var x := "pnpm-lock.yaml";
    assert ProtectedFilePatterns[7] == "**/" + x;
    assert Regex.StarFree(x) && '?' !in x;
    NamedFileProtected(ws, 7, x, dir, t);
    assert dir + "/" + x + t == dir + "/pnpm-lock.yaml" + t;
  }

  lemma NamedFileProtected(ws: Workspace, k: nat, x: string, dir: string, t: string)
    requires k < |ProtectedFilePatterns| && ProtectedFilePatterns[k] == "**/" + x
    requires Regex.StarFree(x) && '?' !in x
    requires dir != "" && !Regex.IsLineTerminator(dir[|dir| - 1])
    ensures IsProtectedFile(ws, dir + "/" + x + t)
  {
    Regex.SourcePatternThen(x, [], t);
    assert Regex.SourcePattern(x) + [] == Regex.SourcePattern(x);
    AnyDirGlobFinds(x, dir, x + t);
    assert ProtectedFilePatterns[k] == "**/" + x;
    assert dir + "/" + (x + t) == dir + "/" + x + t;
    ProtectedBy(ws, k, dir + "/" + x + t);
  }

  /** The `.` of `.env` is not escaped, so it stands for any character: a
      file `xenv` (for any character x that is not a line terminator) is
      protected as well. */
  lemma UnescapedDotOverMatches(ws: Workspace, dir: string, x: char)
    requires dir != "" && !Regex.IsLineTerminator(dir[|dir| - 1])
    requires !Regex.IsLineTerminator(x)
    ensures IsProtectedFile(ws, dir + "/" + [x] + "env")
  {
    var name := ".env";
    assert ProtectedFilePatterns[3] == "**/" + name;
    Regex.SourcePatternDotThen("env", x, [], "");
    assert ['.'] + "env" == name;
    assert Regex.SourcePattern(name) + [] == Regex.SourcePattern(name);
    assert [x] + "env" + "" == [x] + "env";
    assert Regex.StarFree(name) && '?' !in name;
    AnyDirGlobFinds(name, dir, [x] + "env");
    assert dir + "/" + ([x] + "env") == dir + "/" + [x] + "env";
    ProtectedBy(ws, 3, dir + "/" + [x] + "env");
  }

  // The glob x + `/**`, for x without `*` or `?`, becomes `x/.[^/]*`.
  lemma GlobSourceUnderDir(x: string)
    requires '*' !in x && '?' !in x
    ensures GlobSource(x + "/**") == x + "/.[^/]*"
  {
    var y := x + "/";
    assert '*' !in y && '?' !in y;
    GlobSourceAround("", y, "**");
    GlobSourceDoubleStar();
    assert GlobSource("") == "";
    assert "" + y + "**" == x + "/**";
  }

  lemma ParseUnderDir(x: string)
    requires Regex.StarFree(x)
    ensures Regex.Parse(x + "/.[^/]*") ==
            Regex.SourcePattern(x + "/") + [Regex.One(Regex.AnyButLineTerminator), Regex.Star(Regex.NotSlash)]
  {
    var a := x + "/";
    assert Regex.StarFree(a);
    assert x + "/.[^/]*" == a + (['.'] + ("[^/]*" + ""));
    Regex.ParseStarFree(a, ['.'] + ("[^/]*" + ""));
    Regex.ParseDot("[^/]*" + "");
    Regex.ParseNotSlashStar("");
  }

  // The expression of the glob x + `/**` is found in a path that contains,
  // anywhere, text matching `x/` (read as a pattern), then a character.
  lemma UnderDirGlobFinds(x: string, pre: string, u: string)
    requires Regex.StarFree(x) && '?' !in x
    requires Regex.PrefixMatch(Regex.SourcePattern(x + "/") + [Regex.One(Regex.AnyButLineTerminator), Regex.Star(Regex.NotSlash)], u)
    ensures Regex.Search(Regex.Parse(GlobSource(x + "/**")), pre + u)
  {
    GlobSourceUnderDir(x);
    ParseUnderDir(x);
    var p := Regex.Parse(GlobSource(x + "/**"));
    var s := pre + u;
    assert s[|pre|..] == u;
    Regex.SearchFindsAt(p, s, |pre|);
  }

  lemma ToolDirectoryProtected(ws: Workspace, k: nat, x: string, pre: string, d: char, t: string)
    requires k < |ProtectedFilePatterns| && ProtectedFilePatterns[k] == x + "/**"
    requires Regex.StarFree(x) && '?' !in x
    requires !Regex.IsLineTerminator(d)
    ensures IsProtectedFile(ws, pre + x + "/" + [d] + t)
  {
    var q := [Regex.One(Regex.AnyButLineTerminator), Regex.Star(Regex.NotSlash)];
    Regex.AnyThenNotSlashes(d, t);
    Regex.SourcePatternThen(x + "/", q, [d] + t);
    UnderDirGlobFinds(x, pre, (x + "/") + ([d] + t));
    assert pre + ((x + "/") + ([d] + t)) == pre + x + "/" + [d] + t;
    ProtectedBy(ws, k, pre + x + "/" + [d] + t);
  }

  /** Anything under a `.git`, `.vscode` or `node_modules` directory is
      protected, wherever that directory sits in the path; and because the
      leading `.` of `.git` is unescaped, so is anything under a directory
      whose name ends in some character followed by `git`, such as `digit`. */
  lemma ToolDirectoriesProtected(ws: Workspace, pre: string, c: char, d: char, t: string)
    requires !Regex.IsLineTerminator(c) && !Regex.IsLineTerminator(d)
    ensures IsProtectedFile(ws, pre + ".git/" + [d] + t)
    ensures IsProtectedFile(ws, pre + ".vscode/" + [d] + t)
    ensures IsProtectedFile(ws, pre + "node_modules/" + [d] + t)
    ensures IsProtectedFile(ws, pre + [c] + "git/" + [d] + t)
  {
    GitDirectoryProtected(ws, pre, d, t);
    VscodeDirectoryProtected(ws, pre, d, t);
    NodeModulesProtected(ws, pre, d, t);
    LookAlikeGitDirectory(ws, pre, c, d, t);
  }

  lemma GitDirectoryProtected(ws: Workspace, pre: string, d: char, t: string)
    requires !Regex.IsLineTerminator(d)
    ensures IsProtectedFile(ws, pre + ".git/" + [d] + t)
  {
    var x := ".git";
    assert ProtectedFilePatterns[0] == x + "/**";
    assert Regex.StarFree(x) && '?' !in x;
    ToolDirectoryProtected(ws, 0, x, pre, d, t);
    assert pre + ".git/" + [d] + t == pre + x + "/" + [d] + t;
  }

  lemma VscodeDirectoryProtected(ws: Workspace, pre: string, d: char, t: string)
    requires !Regex.IsLineTerminator(d)
    ensures IsProtectedFile(ws, pre + ".vscode/" + [d] + t)
  {
    var x := ".vscode";
    assert ProtectedFilePatterns[1] == x + "/**";
    assert Regex.StarFree(x) && '?' !in x;
    ToolDirectoryProtected(ws, 1, x, pre, d, t);
    assert pre + ".vscode/" + [d] + t == pre + x + "/" + [d] + t;
  }

  lemma NodeModulesProtected(ws: Workspace, pre: string, d: char, t: string)
    requires !Regex.IsLineTerminator(d)
    ensures IsProtectedFile(ws, pre + "node_modules/" + [d] + t)
  {
    var x := "node_modules";
    assert ProtectedFilePatterns[2] == x + "/**";
    assert Regex.StarFree(x) && '?' !in x;
    ToolDirectoryProtected(ws, 2, x, pre, d, t);
    assert pre + "node_modules/" + [d] + t == pre + x + "/" + [d] + t;
  }

  lemma LookAlikeGitDirectory(ws: Workspace, pre: string, c: char, d: char, t: string)
    requires !Regex.IsLineTerminator(c) && !Regex.IsLineTerminator(d)
    ensures IsProtectedFile(ws, pre + [c] + "git/" + [d] + t)
  {
    var x := ".git";
    assert ProtectedFilePatterns[0] == x + "/**";
    assert Regex.StarFree(x) && '?' !in x;
    LookAlikeDirectory(ws, 0, x, pre, c, d, t);
    assert pre + [c] + "git/" + [d] + t == pre + [c] + x[1..] + "/" + [d] + t;
  }

  lemma LookAlikeDirectory(ws: Workspace, k: nat, x: string, pre: string, c: char, d: char, t: string)
    requires k < |ProtectedFilePatterns| && ProtectedFilePatterns[k] == x + "/**"
    requires x != [] && x[0] == '.' && Regex.StarFree(x) && '?' !in x
    requires !Regex.IsLineTerminator(c) && !Regex.IsLineTerminator(d)
    ensures IsProtectedFile(ws, pre + [c] + x[1..] + "/" + [d] + t)
  {
    LookAlikeSearch(x, pre, c, d, t);
    ProtectedBy(ws, k, pre + [c] + x[1..] + "/" + [d] + t);
  }

  // Under a directory pattern `.y` + `/**`, the unescaped `.` admits any
  // character in its place.
  lemma LookAlikeSearch(x: string, pre: string, c: char, d: char, t: string)
    requires x != [] && x[0] == '.' && Regex.StarFree(x) && '?' !in x
    requires !Regex.IsLineTerminator(c) && !Regex.IsLineTerminator(d)
    ensures Regex.Search(Regex.Parse(GlobSource(x + "/**")), pre + [c] + x[1..] + "/" + [d] + t)
  {
    var y := x[1..];
    var q := [Regex.One(Regex.AnyButLineTerminator), Regex.Star(Regex.NotSlash)];
    Regex.AnyThenNotSlashes(d, t);
    Regex.SourcePatternDotThen(y + "/", c, q, [d] + t);
    assert ['.'] + (y + "/") == x + "/";
    var u := [c] + (y + "/") + ([d] + t);
    UnderDirGlobFinds(x, pre, u);
    assert pre + u == pre + [c] + y + "/" + [d] + t;
  }

  /** With no workspace folder open, every path is protected. */
  lemma NoWorkspaceEverythingProtected(ws: Workspace, filePath: string)
    requires ws.folders == []
    ensures IsProtectedFile(ws, filePath)
  {
  }

  // ----- files that are not protected -----

  /** A character of the glob that the three replacements leave alone, and
      that the expression reads as a literal of its own, occurs in every
      path the glob's expression is found in. */
  lemma GlobNeedsLiteral(glob: string, u: string, y: string, w: string, i: nat, path: string)
    requires glob == u + y + w && '*' !in y && '?' !in y
    requires i < |y| && !Regex.Structural(y[i]) && (i + 1 < |y| || w == "")
    ensures Regex.Search(Regex.Parse(GlobSource(glob)), path) ==> y[i] in path
  {
    GlobSourceAround(u, y, w);
    var gu, gw := GlobSource(u), GlobSource(w);
    var src := gu + y + gw;
    var idx := |gu| + i;
    assert src[idx] == y[i];
    if i + 1 < |y| {
      assert src[idx + 1] == y[i + 1];
    } else {
      assert gw == "";
      assert idx + 1 == |src|;
    }
    Regex.ParseKeepsLiteral(src, idx);
    Regex.SearchNeedsLiteral(Regex.Parse(src), path, y[i]);
  }

  /** The expression of a glob `**` followed by a slash and text without
      `*` or `?` is found only in a path with a slash after its first
      character: `.[^/]*` needs a character before the slash that follows it. */
  lemma AnyDirNeedsInnerSlash(glob: string, u: string, y: string, w: string, path: string)
    requires glob == u + y + w && GlobSource(u) == ".[^/]*"
    requires |y| >= 2 && y[0] == '/' && '*' !in y && '?' !in y
    ensures Regex.Search(Regex.Parse(GlobSource(glob)), path) ==> |path| > 0 && '/' in path[1..]
  {
    var r := y + GlobSource(w);
    AnyDirSourceSplit(glob, u, y, w);
    assert r[0] == '/' && r[1] == y[1];
    InnerSlashFrom(GlobSource(glob), GlobSource(u), r, path);
  }

  lemma AnyDirSourceSplit(glob: string, u: string, y: string, w: string)
    requires glob == u + y + w && GlobSource(u) == ".[^/]*"
    requires y != [] && '*' !in y && '?' !in y
    ensures GlobSource(glob) == GlobSource(u) + (y + GlobSource(w))
  {
    GlobSourceAround(u, y, w);
  }

  lemma InnerSlashFrom(source: string, d: string, r: string, path: string)
    requires d == ".[^/]*" && source == d + r
    requires |r| >= 2 && r[0] == '/' && r[1] != '*'
    ensures Regex.Search(Regex.Parse(source), path) ==> |path| > 0 && '/' in path[1..]
  {
    AnyDirSlashPattern(d, r);
    Regex.SearchNeedsInnerSlash(Regex.Parse(r[1..]), path);
  }

  lemma AnyDirSlashPattern(d: string, r: string)
    requires d == ".[^/]*"
    requires |r| >= 2 && r[0] == '/' && r[1] != '*'
    ensures Regex.Parse(d + r) ==
            [Regex.One(Regex.AnyButLineTerminator), Regex.Star(Regex.NotSlash), Regex.One(Regex.Literal('/'))] +
            Regex.Parse(r[1..])
  {
    assert d + r == ['.'] + ("[^/]*" + r);
    ParseAnyDirHead(r);
    Regex.ParseSlash(r);
  }

  lemma GitGlobNeeds(path: string)
    ensures FoundBy(0, path) ==> 'g' in path
  {
    GlobNeedsLiteral(ProtectedFilePatterns[0], "", ".git/", "**", 1, path);
  }

  lemma VscodeGlobNeeds(path: string)
    ensures FoundBy(1, path) ==> 'v' in path && 'c' in path
  {
    GlobNeedsLiteral(ProtectedFilePatterns[1], "", ".vscode/", "**", 1, path);
    GlobNeedsLiteral(ProtectedFilePatterns[1], "", ".vscode/", "**", 3, path);
  }

  lemma NodeModulesGlobNeeds(path: string)
    ensures FoundBy(2, path) ==> 'o' in path
  {
    GlobNeedsLiteral(ProtectedFilePatterns[2], "", "node_modules/", "**", 1, path);
  }

  lemma EnvGlobNeeds(path: string)
    ensures FoundBy(3, path) ==> 'v' in path && |path| > 0 && '/' in path[1..]
  {
    GlobNeedsLiteral(ProtectedFilePatterns[3], "**", "/.env", "", 4, path);
    GlobSourceDoubleStar();
    AnyDirNeedsInnerSlash(ProtectedFilePatterns[3], "**", "/.env", "", path);
  }

  lemma EnvVariantGlobNeeds(path: string)
    ensures FoundBy(4, path) ==> 'v' in path && |path| > 0 && '/' in path[1..]
  {
    GlobNeedsLiteral(ProtectedFilePatterns[4], "**", "/.env.", "*", 4, path);
    GlobSourceDoubleStar();
    AnyDirNeedsInnerSlash(ProtectedFilePatterns[4], "**", "/.env.", "*", path);
  }

  lemma NpmLockGlobNeeds(path: string)
    ensures FoundBy(5, path) ==> 'p' in path
  {
    GlobNeedsLiteral(ProtectedFilePatterns[5], "**", "/package-lock.json", "", 1, path);
  }

  lemma YarnLockGlobNeeds(path: string)
    ensures FoundBy(6, path) ==> 'y' in path
  {
    GlobNeedsLiteral(ProtectedFilePatterns[6], "**", "/yarn.lock", "", 1, path);
  }

  lemma PnpmLockGlobNeeds(path: string)
    ensures FoundBy(7, path) ==> 'p' in path
  {
    GlobNeedsLiteral(ProtectedFilePatterns[7], "**", "/pnpm-lock.yaml", "", 1, path);
  }

  lemma KeyGlobNeeds(path: string)
    ensures FoundBy(8, path) ==> 'k' in path
  {
    GlobNeedsLiteral(ProtectedFilePatterns[8], "**/*", ".key", "", 1, path);
  }

  lemma PemGlobNeeds(path: string)
    ensures FoundBy(9, path) ==> 'p' in path
  {
    GlobNeedsLiteral(ProtectedFilePatterns[9], "**/*", ".pem", "", 1, path);
  }

  lemma P12GlobNeeds(path: string)
    ensures FoundBy(10, path) ==> 'p' in path
  {
    GlobNeedsLiteral(ProtectedFilePatterns[10], "**/*", ".p12", "", 1, path);
  }

  /** Every glob's expression needs one of a few letters, and those of
      `**` + `/.env` and `**` + `/.env.*` a slash after the first character. */
  lemma GlobsNeed(k: nat, path: string)
    requires k < |ProtectedFilePatterns|
    ensures FoundBy(k, path) ==>
            'g' in path || 'v' in path || 'o' in path || 'p' in path || 'y' in path || 'k' in path
    ensures FoundBy(k, path) ==>
            'g' in path || 'o' in path || 'p' in path || 'y' in path || 'k' in path || 'c' in path ||
            (|path| > 0 && '/' in path[1..])
  {
    if k == 0 { GitGlobNeeds(path); }
    else if k == 1 { VscodeGlobNeeds(path); }
    else if k == 2 { NodeModulesGlobNeeds(path); }
    else if k == 3 { EnvGlobNeeds(path); }
    else if k == 4 { EnvVariantGlobNeeds(path); }
    else if k == 5 { NpmLockGlobNeeds(path); }
    else if k == 6 { YarnLockGlobNeeds(path); }
    else if k == 7 { PnpmLockGlobNeeds(path); }
    else if k == 8 { KeyGlobNeeds(path); }
    else if k == 9 { PemGlobNeeds(path); }
    else { P12GlobNeeds(path); }
  }

  /** With a workspace folder, a path holding none of the letters g, v, o,
      p, y and k is not protected: every glob's expression holds one of
      them as a literal. */
  lemma PathWithoutGlobLettersNotProtected(ws: Workspace, path: string)
    requires |ws.folders| > 0
    requires 'g' !in path && 'v' !in path && 'o' !in path
    requires 'p' !in path && 'y' !in path && 'k' !in path
    ensures !IsProtectedFile(ws, path)
  {
    forall k | 0 <= k < |ProtectedFilePatterns| ensures !FoundBy(k, path) {
      GlobsNeed(k, path);
    }
  }

  /** With a workspace folder, a path whose only slash is its first
      character and that holds none of the letters g, c, o, p, y and k is
      not protected, even when it names an environment file: the
      expressions of `**` + `/.env` need a character before the slash. */
  lemma TopLevelPathNotProtected(ws: Workspace, path: string)
    requires |ws.folders| > 0
    requires forall j :: 1 <= j < |path| ==> path[j] != '/'
    requires 'g' !in path && 'c' !in path && 'o' !in path
    requires 'p' !in path && 'y' !in path && 'k' !in path
    ensures !IsProtectedFile(ws, path)
  {
    assert |path| > 0 ==> '/' !in path[1..] by {
      if |path| > 0 {
        forall j | 0 <= j < |path[1..]| ensures path[1..][j] != '/' {
          assert path[1..][j] == path[j + 1];
        }
      }
    }
    forall k | 0 <= k < |ProtectedFilePatterns| ensures !FoundBy(k, path) {
      GlobsNeed(k, path);
    }
  }

  /** A source file is not protected; `.env` in a directory is, but `.env`
      at the root is not, since its glob needs a directory part. */
  lemma ProtectionExamples(ws: Workspace)
    requires |ws.folders| > 0
    ensures !IsProtectedFile(ws, "/w/src/index.ts")
    ensures IsProtectedFile(ws, "/w/.env")
    ensures !IsProtectedFile(ws, "/.env")
  {
    PathWithoutGlobLettersNotProtected(ws, "/w/src/index.ts");
    EnvFileProtected(ws, "/w", "");
    assert "/w" + "/.env" + "" == "/w/.env";
    TopLevelPathNotProtected(ws, "/.env");
  }

  // ----- allowed commands -----

  /** One entry of the allow-list against a command: with a `*`, a full
      match of the entry with each `*` read as `.*`; without, the command is
      the entry or starts with the entry and a space. The expression is
      read in the subset `Regex` models, so other syntax characters of the
      entry stand for themselves. */
  predicate CommandMatches(allowed: string, command: string) {
    if Contains(allowed, "*") then Regex.FullMatch(Regex.Parse(ReplaceAll(allowed, "*", ".*")), command)
    else command == allowed || StartsWith(command, allowed + " ")
  }

  /** `isCommandAllowed`: false for an empty allow-list, otherwise some entry matches. */
  predicate IsCommandAllowed(allowedCommands: seq<string>, command: string) {
    |allowedCommands| > 0 &&
    exists k :: 0 <= k < |allowedCommands| && CommandMatches(allowedCommands[k], command)
  }

  /** An entry made of characters that are not regular-expression syntax,
      followed by one `*`, admits exactly the commands that start with those
      characters and contain no line terminator after them. */
  lemma WildcardEntryMeaning(a: string, command: string)
    requires Regex.Plain(a)
    ensures CommandMatches(a + "*", command) <==>
            StartsWith(command, a) &&
            forall k :: |a| <= k < |command| ==> !Regex.IsLineTerminator(command[k])
  {
    var e := a + "*";
    ContainsIffOccurs(e, "*");
    assert OccursAt(e, "*", |a|);
    assert '*' !in a;
    ReplaceAllFreePrefix(a, "*", "*", ".*");
    ReplaceAllAtStart("", "*", ".*");
    assert ReplaceAll(e, "*", ".*") == a + ".*";
    Regex.ParsePlainPrefix(a, ".*");
    var dotStar := ".*";
    assert dotStar[0] == '.' && !Regex.OpensNotSlash(dotStar) && dotStar[1..] == "*";
    assert Regex.Parse(dotStar) == [Regex.Star(Regex.AnyButLineTerminator)];
    Regex.LiteralsThenFull(a, [Regex.Star(Regex.AnyButLineTerminator)], command);
    if StartsWith(command, a) {
      var rest := command[|a|..];
      Regex.AnyStarMatches(rest);
      assert forall k :: |a| <= k < |command| ==> command[k] == rest[k - |a|];
    }
  }

  /** An entry without `*` admits the command itself and the command
      followed by arguments, and nothing that merely starts with it. */
  lemma PlainEntryMeaning(a: string, t: string)
    requires !Contains(a, "*")
    requires t != "" && t[0] != ' '
    ensures CommandMatches(a, a)
    ensures CommandMatches(a, a + " " + t)
    ensures !CommandMatches(a, a + t)
  {
    assert (a + " " + t)[..|a + " "|] == a + " ";
    assert (a + t)[|a|] == t[0];
    assert (a + " ")[|a|] == ' ';
  }

  /** An empty allow-list admits nothing. */
  lemma EmptyAllowListDenies(command: string)
    ensures !IsCommandAllowed([], command)
  {
  }

  // ----- rate limiting -----

  datatype RateRecord = RateRecord(count: int, timestamp: int)

  type RateTable = map<Operation, RateRecord>

  function WindowMs(limits: Limits): int {
    limits.timeWindowMinutes * 60 * 1000
  }

  /** The most calls one window can admit: at least one, since a fresh
      window always admits its first call. */
  function Capacity(limits: Limits): int {
    if limits.maxRequests < 1 then 1 else limits.maxRequests
  }

  /** Every record counts between one and the capacity. */
  ghost predicate Bounded(table: RateTable, limits: Limits) {
    forall k :: k in table ==> 1 <= table[k].count <= Capacity(limits)
  }

  datatype RateOutcome = RateOutcome(allowed: bool, table: RateTable)

  /** `checkRateLimit` on a table: a missing or expired record starts a new
      window with one call; a full window denies; otherwise one more call is
      counted. */
  function RateStep(table: RateTable, op: Operation, now: int, limits: Limits): (r: RateOutcome)
    ensures op in r.table
    ensures forall k :: k != op ==> (k in r.table <==> k in table) && (k in table ==> r.table[k] == table[k])
    ensures Bounded(table, limits) ==> Bounded(r.table, limits)
    ensures !r.allowed ==> r.table == table
  {
    if op !in table || now - table[op].timestamp > WindowMs(limits) then
      RateOutcome(true, table[op := RateRecord(1, now)])
    else if table[op].count >= limits.maxRequests then
      RateOutcome(false, table)
    else
      RateOutcome(true, table[op := table[op].(count := table[op].count + 1)])
  }

  /** The outcomes of successive rate checks of one kind at the given times. */
  function RunChecks(table: RateTable, op: Operation, times: seq<int>, limits: Limits): (outs: seq<bool>)
    ensures |outs| == |times|
    decreases |times|
  {
    if times == [] then []
    else
      var r := RateStep(table, op, times[0], limits);
      [r.allowed] + RunChecks(r.table, op, times[1..], limits)
  }

  /** Inside a window whose record already counts `c` calls, the i-th further
      call is admitted exactly when `c + i` is below the capacity. */
  lemma {:induction false} RunInsideWindow(table: RateTable, op: Operation, c: int, t0: int, times: seq<int>, limits: Limits)
    requires op in table && table[op] == RateRecord(c, t0)
    requires 1 <= c <= Capacity(limits)
    requires forall i :: 0 <= i < |times| ==> times[i] - t0 <= WindowMs(limits)
    ensures forall i :: 0 <= i < |times| ==> RunChecks(table, op, times, limits)[i] == (c + i < Capacity(limits))
    decreases |times|
  {
    if times != [] {
      var r := RateStep(table, op, times[0], limits);
      assert r.allowed == (c < Capacity(limits));
      var c' := if r.allowed then c + 1 else c;
      assert r.table[op] == RateRecord(c', t0);
      RunInsideWindow(r.table, op, c', t0, times[1..], limits);
      var outs := RunChecks(table, op, times, limits);
      forall i | 0 <= i < |times| ensures outs[i] == (c + i < Capacity(limits)) {
        if i > 0 {
          assert outs[i] == RunChecks(r.table, op, times[1..], limits)[i - 1];
          if !r.allowed {
            assert c >= Capacity(limits);
          }
        }
      }
    }
  }

  /** Within one window that starts fresh, exactly the first
      `max(maxRequests, 1)` calls are admitted and every later one is denied. */
  lemma ExactlyCapacityPerWindow(table: RateTable, op: Operation, times: seq<int>, limits: Limits)
    requires |times| > 0
    requires op !in table || times[0] - table[op].timestamp > WindowMs(limits)
    requires forall i :: 0 <= i < |times| ==> times[i] - times[0] <= WindowMs(limits)
    ensures forall i :: 0 <= i < |times| ==> RunChecks(table, op, times, limits)[i] == (i < Capacity(limits))
  {
    var r := RateStep(table, op, times[0], limits);
    assert r.allowed && r.table[op] == RateRecord(1, times[0]);
    RunInsideWindow(r.table, op, 1, times[0], times[1..], limits);
    var outs := RunChecks(table, op, times, limits);
    forall i | 0 <= i < |times| ensures outs[i] == (i < Capacity(limits)) {
      if i > 0 {
        assert outs[i] == RunChecks(r.table, op, times[1..], limits)[i - 1];
      }
    }
  }

  /** After a reset, the next call of every kind opens a fresh window. */
  lemma ResetStartsFresh(op: Operation, now: int, limits: Limits)
    ensures RateStep(map[], op, now, limits) == RateOutcome(true, map[op := RateRecord(1, now)])
  {
  }

  // ----- the decision -----

  /** The per-kind permission test that follows a passed rate check. */
  predicate Permitted(p: Permissions, ws: Workspace, ctx: OperationContext)
    requires Paths.IsAbsolute(ws.cwd)
  {
    match ctx.operation
    case Read =>
      p.read.enabled &&
      (if Truthy(ctx.filePath) && !IsWithinWorkspace(ws, ctx.filePath.value) then p.read.includeOutsideWorkspace else true)
    case Write =>
      p.write.enabled &&
      (Truthy(ctx.filePath) ==>
        (IsWithinWorkspace(ws, ctx.filePath.value) || p.write.includeOutsideWorkspace) &&
        (!IsProtectedFile(ws, ctx.filePath.value) || p.write.includeProtectedFiles))
    case Execute =>
      p.execute.enabled && Truthy(ctx.command) && IsCommandAllowed(p.execute.allowedCommands, ctx.command.value)
    case Debug => p.debug
    case Terminal => p.terminal
    case Browser => p.browser
    case Unknown(_) => false
  }

  datatype Decision = Decision(approved: bool, table: RateTable)

  /** `canAutoApprove` on a table: the switch, then the rate check, then the
      permission test. */
  function Decide(config: Config, ws: Workspace, ctx: OperationContext, table: RateTable, now: int): Decision
    requires Paths.IsAbsolute(ws.cwd)
  {
    if !config.enabled then Decision(false, table)
    else
      var r := RateStep(table, ctx.operation, now, config.limits);
      if !r.allowed then Decision(false, r.table)
      else Decision(Permitted(config.permissions, ws, ctx), r.table)
  }

  /** The rate check comes first: when the switch is on, a call consumes
      quota even if the permission test then refuses it, and nothing is
      approved that the rate limiter or the permission test refuses. */
  lemma QuotaBeforePermission(config: Config, ws: Workspace, ctx: OperationContext, table: RateTable, now: int)
    requires Paths.IsAbsolute(ws.cwd)
    ensures var d := Decide(config, ws, ctx, table, now);
            var r := RateStep(table, ctx.operation, now, config.limits);
            (config.enabled ==> d.table == r.table) &&
            (!config.enabled ==> d.table == table) &&
            (d.approved <==> config.enabled && r.allowed && Permitted(config.permissions, ws, ctx))
  {
  }

  /** What each kind of operation needs once the rate check has passed. */
  lemma PermissionByKind(p: Permissions, ws: Workspace, ctx: OperationContext)
    requires Paths.IsAbsolute(ws.cwd)
    ensures ctx.operation == Read && Truthy(ctx.filePath) && !IsWithinWorkspace(ws, ctx.filePath.value) ==>
              Permitted(p, ws, ctx) == (p.read.enabled && p.read.includeOutsideWorkspace)
    ensures ctx.operation == Read && (!Truthy(ctx.filePath) || IsWithinWorkspace(ws, ctx.filePath.value)) ==>
              Permitted(p, ws, ctx) == p.read.enabled
    ensures ctx.operation == Write && !Truthy(ctx.filePath) ==> Permitted(p, ws, ctx) == p.write.enabled
    ensures (ctx.operation == Write && Truthy(ctx.filePath) && !IsWithinWorkspace(ws, ctx.filePath.value) &&
             !p.write.includeOutsideWorkspace) ==> !Permitted(p, ws, ctx)
    ensures (ctx.operation == Write && Truthy(ctx.filePath) && IsProtectedFile(ws, ctx.filePath.value) &&
             !p.write.includeProtectedFiles) ==> !Permitted(p, ws, ctx)
    ensures (ctx.operation == Write && Truthy(ctx.filePath) && IsWithinWorkspace(ws, ctx.filePath.value) &&
             !IsProtectedFile(ws, ctx.filePath.value)) ==> Permitted(p, ws, ctx) == p.write.enabled
    ensures ctx.operation == Execute && !Truthy(ctx.command) ==> !Permitted(p, ws, ctx)
    ensures ctx.operation == Execute && Truthy(ctx.command) ==>
              Permitted(p, ws, ctx) == (p.execute.enabled && IsCommandAllowed(p.execute.allowedCommands, ctx.command.value))
    ensures ctx.operation == Debug ==> Permitted(p, ws, ctx) == p.debug
    ensures ctx.operation == Terminal ==> Permitted(p, ws, ctx) == p.terminal
    ensures ctx.operation == Browser ==> Permitted(p, ws, ctx) == p.browser
    ensures ctx.operation.Unknown? ==> !Permitted(p, ws, ctx)
  {
  }

  /** A write outside every workspace folder, or with no folder open at all,
      needs both overrides, because with no folder every path is also
      protected. */
  lemma WriteWithoutWorkspace(p: Permissions, ws: Workspace, ctx: OperationContext)
    requires Paths.IsAbsolute(ws.cwd)
    requires ws.folders == [] && ctx.operation == Write && Truthy(ctx.filePath)
    ensures Permitted(p, ws, ctx) <==>
            p.write.enabled && p.write.includeOutsideWorkspace && p.write.includeProtectedFiles
  {
    NoWorkspaceEverythingProtected(ws, ctx.filePath.value);
  }

  // ----- status description -----

  const OperationNames: seq<string> := ["Read", "Write", "Execute", "Debug", "Terminal", "Browser"]

  function EnabledFlags(p: Permissions): (flags: seq<bool>)
    ensures |flags| == |OperationNames|
  {
    [p.read.enabled, p.write.enabled, p.execute.enabled, p.debug, p.terminal, p.browser]
  }

  /** The names whose flag is set, in the order given. */
  function Select(names: seq<string>, flags: seq<bool>): (r: seq<string>)
    requires |names| == |flags|
    decreases |names|
  {
    if names == [] then []
    else (if flags[0] then [names[0]] else []) + Select(names[1..], flags[1..])
  }

  lemma {:induction false} SelectMembers(names: seq<string>, flags: seq<bool>)
    requires |names| == |flags|
    requires forall i, j :: 0 <= i < j < |names| ==> names[i] != names[j]
    ensures forall k :: 0 <= k < |names| ==> (names[k] in Select(names, flags) <==> flags[k])
    ensures forall x :: x in Select(names, flags) ==> x in names
    decreases |names|
  {
    if names != [] {
      SelectMembers(names[1..], flags[1..]);
      forall k | 0 <= k < |names| ensures names[k] in Select(names, flags) <==> flags[k] {
        if k > 0 {
          assert names[k] == names[1..][k - 1];
          assert names[k] != names[0];
        } else {
          assert names[0] !in names[1..];
        }
      }
    }
  }

  const StatusPrefix := "Auto-approval enabled for: "

  /** `getStatusDescription`. */
  function StatusDescription(config: Config): string {
    if !config.enabled then "Auto-approval is disabled"
    else
      var names := Select(OperationNames, EnabledFlags(config.permissions));
      if names == [] then "Auto-approval enabled but no operations allowed"
      else StatusPrefix + Join(names, ", ")
  }

  /** The description, read back: after the prefix, the text splits on
      `", "` into exactly the enabled kinds, in the fixed order, each kind
      listed exactly when its flag is set. */
  lemma StatusDescriptionListsEnabled(config: Config)
    requires config.enabled
    requires Select(OperationNames, EnabledFlags(config.permissions)) != []
    ensures var text := StatusDescription(config);
            var listed := Split(text[|StatusPrefix|..], ", ");
            StartsWith(text, StatusPrefix) &&
            listed == Select(OperationNames, EnabledFlags(config.permissions)) &&
            forall k :: 0 <= k < |OperationNames| ==>
              (OperationNames[k] in listed <==> EnabledFlags(config.permissions)[k])
  {
    var flags := EnabledFlags(config.permissions);
    var names := Select(OperationNames, flags);
    OperationNamesDistinct();
    OperationNamesCommaFree();
    SelectReadBack(OperationNames, flags);
    var text := StatusDescription(config);
    assert text == StatusPrefix + Join(names, ", ");
    assert text[|StatusPrefix|..] == Join(names, ", ");
  }

  lemma OperationNamesDistinct()
    ensures forall i, j :: 0 <= i < j < |OperationNames| ==> OperationNames[i] != OperationNames[j]
  {
    assert forall i :: 0 <= i < |OperationNames| ==> OperationNames[i][0] in "RWEDTB";
    assert OperationNames[0][0] == 'R' && OperationNames[1][0] == 'W' && OperationNames[2][0] == 'E';
    assert OperationNames[3][0] == 'D' && OperationNames[4][0] == 'T' && OperationNames[5][0] == 'B';
  }

  lemma OperationNamesCommaFree()
    ensures forall k :: 0 <= k < |OperationNames| ==> ',' !in OperationNames[k]
  {
  }

  /** Selected names that are distinct and comma-free are read back by
      splitting their comma-separated join. */
  lemma SelectReadBack(names: seq<string>, flags: seq<bool>)
    requires |names| == |flags| && Select(names, flags) != []
    requires forall i, j :: 0 <= i < j < |names| ==> names[i] != names[j]
    requires forall k :: 0 <= k < |names| ==> ',' !in names[k]
    ensures Split(Join(Select(names, flags), ", "), ", ") == Select(names, flags)
    ensures forall k :: 0 <= k < |names| ==> (names[k] in Select(names, flags) <==> flags[k])
  {
    var sel := Select(names, flags);
    SelectMembers(names, flags);
    forall k | 0 <= k < |sel| ensures ", "[0] !in sel[k] {
      assert sel[k] in names;
    }
    SplitJoin(sel, ", ");
  }

  // ----- the manager -----

  /** The manager keeps the rate-limit table and updates it in place. */
  class AutoApprovalManager {
    var requestCount: RateTable

    constructor()
      ensures requestCount == map[]
    {
      requestCount := map[];
    }

    /** `checkRateLimit`. */
    method CheckRateLimit(op: Operation, now: int, limits: Limits) returns (allowed: bool)
      modifies this
      ensures RateOutcome(allowed, requestCount) == RateStep(old(requestCount), op, now, limits)
    {
      var windowMs := limits.timeWindowMinutes * 60 * 1000;
      if op !in requestCount || now - requestCount[op].timestamp > windowMs {
        requestCount := requestCount[op := RateRecord(1, now)];
        return true;
      }
      var record := requestCount[op];
      if record.count >= limits.maxRequests {
        return false;
      }
      requestCount := requestCount[op := record.(count := record.count + 1)];
      return true;
    }

    /** `canAutoApprove`. */
    method CanAutoApprove(config: Config, ws: Workspace, ctx: OperationContext, now: int) returns (approved: bool)
      requires Paths.IsAbsolute(ws.cwd)
      modifies this
      ensures !config.enabled ==> !approved && requestCount == old(requestCount)
      ensures Decision(approved, requestCount) == Decide(config, ws, ctx, old(requestCount), now)
    {
      if !config.enabled {
        return false;
      }
      var withinRate := CheckRateLimit(ctx.operation, now, config.limits);
      if !withinRate {
        return false;
      }
      var p := config.permissions;
      match ctx.operation {
        case Read =>
          if !p.read.enabled { return false; }
          if Truthy(ctx.filePath) && !IsWithinWorkspace(ws, ctx.filePath.value) {
            return p.read.includeOutsideWorkspace;
          }
          return true;
        case Write =>
          if !p.write.enabled { return false; }
          if Truthy(ctx.filePath) {
            if !IsWithinWorkspace(ws, ctx.filePath.value) {
              if !p.write.includeOutsideWorkspace { return false; }
            }
            if IsProtectedFile(ws, ctx.filePath.value) {
              if !p.write.includeProtectedFiles { return false; }
            }
          }
          return true;
        case Execute =>
          if !p.execute.enabled { return false; }
          if Truthy(ctx.command) {
            return IsCommandAllowed(p.execute.allowedCommands, ctx.command.value);
          }
          return false;
        case Debug => return p.debug;
        case Terminal => return p.terminal;
        case Browser => return p.browser;
        case Unknown(_) => return false;
      }
    }

    /** `resetRateLimits`. */
    method ResetRateLimits()
      modifies this
      ensures requestCount == map[]
    {
      requestCount := map[];
    }
  }
}
