# MCP Bridge (Claude to VS Code): a Dafny model of its core

The bridge is a VS Code extension. Through it an MCP client such as Claude
Desktop reads, lists and edits the files of the open workspace. This project
models the five parts of the extension that decide what happens, and proves
properties about them:

- **The auto-approval policy** (`auto_approval.dfy`, module `AutoApproval`).
  - A global switch comes first.
  - Then comes a rate limiter with a table of counters per kind of operation.
    The table is a field of the class `AutoApprovalManager`, and its methods
    update it in place.
  - Last comes a per-kind permission test built from three string tests:
    - workspace containment, a plain prefix test on resolved paths;
    - protected files, where glob patterns are turned into regular
      expressions by three `replace` calls and searched, unanchored, in the
      path;
    - the command allow-list.
  - It also models the status description and the counter reset.
- **The HTTP transport** (`server.dfy`, class `Server.BidiHttpTransport`).
  - It keeps the status and reports each change to a listener.
  - It answers the routes `/ping`, `/request-handover`,
    `/notify-tools-updated` and `/`.
  - It keeps the table of requests that wait for their response (`send`
    resolves them).
  - It models `start`, `close` and `requestHandover`.
  - Each inbound HTTP request gets a number, and the replies sent are recorded
    against those numbers. The transport's invariant is then stated on them:
    every request is answered at most once, and a waiting request has no
    answer yet.
- **The lifecycle manager** (`server.dfy`, class
  `Server.ServerLifecycleManager`).
  - It covers transport registration and the heartbeat with its five-minute
    client timeout.
  - It covers the graceful and forced shutdowns, the manual shutdown and
    `getStatus`.
  - It lives in the same module as the transport because each of the two
    files uses the other.
- **The directory lister** (`list_directory.dfy`, module `ListDirectory`).
  - It models path resolution and the upward walk that collects `.gitignore`
    patterns.
  - It models the recursive tree builder: directories first, hidden and
    ignored entries skipped, a depth cut-off.
  - It models the text drawing with box-drawing connectors.
- **The text editor tool** (`text_editor.dfy`, module `TextEditor`).
  - It models parameter checking per command and the confirmation dialog's
    reading.
  - It models `view`, including ranges and directory listings, and
    `str_replace`, `create`, `insert` and `undo_edit`, with all their error
    messages.
  - It models the rejection messages that carry user feedback.

The supporting modules model the JavaScript and Node.js behaviour the core
relies on:

| file | module | what it models |
|---|---|---|
| `wrappers.dfy` | `Wrappers` | `Option` and `Result` |
| `strings.dfy` | `Strings` | `startsWith`, `includes`, `split`/`join` with a string separator, `replace` with a global pattern and a literal replacement, `replaceAll` with a string replacement and its `$` patterns, `trim` |
| `regex.dfy` | `Regex` | the regular-expression subset the globs produce, and the allow-list entries that hold no syntax character other than `*` and `.`: literals, `.`, `[^/]` and `*` |
| `paths.dfy` | `Paths` | POSIX `path.isAbsolute`, `normalize`, `join`, `resolve`, `dirname` and `basename` |
| `dir_entries.dfy` | `DirEntries` | VS Code's file-type bits and the "directories first, then by name" sort |

The host supplies things the model cannot compute: the clock, the workspace
folders, the working directory, file contents and stats, and how a bind, a
close, a dialog or a save ends. These arrive as parameters. Three host
functions stay abstract parameters:

- the `.gitignore` matcher of the `ignore` library;
- `localeCompare`, which is any total preorder on names;
- the document's position-error text.

## Model

Source paths are relative to the repository root.

| member | source | states |
|---|---|---|
| AutoApproval.OperationNamed | packages/extension/src/utils/AutoApprovalManager.ts:4-11 | A string is read as one of the six operation kinds exactly when it is one of their names (`read`, `write`, `execute`, `debug`, `terminal`, `browser`), and as an unknown kind otherwise. Either way the operation's name is the string. |
| AutoApproval.OperationNameRoundTrip | packages/extension/src/utils/AutoApprovalManager.ts:4-11 | An operation whose unknown name is none of the kind names is the operation its name stands for. So the rate table's key, the name, determines the operation. |
| AutoApproval.SiblingFolderCountsAsInside | packages/extension/src/utils/AutoApprovalManager.ts:111-122 | Containment is a plain string-prefix test on resolved paths. A sibling folder whose name extends the workspace folder's name (`/w/app` and `/w/app2`) therefore counts as inside the workspace. |
| AutoApproval.NoWorkspaceEverythingProtected | packages/extension/src/utils/AutoApprovalManager.ts:124-128 | With no workspace folder open, every path is protected. |
| AutoApproval.EnvAndLockFilesProtected | packages/extension/src/utils/AutoApprovalManager.ts:63-75 | `.env`, `package-lock.json`, `yarn.lock` and `pnpm-lock.yaml`, after any non-empty directory part and a slash, make the path protected, whatever follows. |
| AutoApproval.EnvFileProtected | packages/extension/src/utils/AutoApprovalManager.ts:124-140 | The `**/.env` pattern protects `dir/.env…`. |
| AutoApproval.NpmLockProtected | packages/extension/src/utils/AutoApprovalManager.ts:124-140 | The `**/package-lock.json` pattern protects `dir/package-lock.json…`. |
| AutoApproval.YarnLockProtected | packages/extension/src/utils/AutoApprovalManager.ts:124-140 | The `**/yarn.lock` pattern protects `dir/yarn.lock…`. |
| AutoApproval.PnpmLockProtected | packages/extension/src/utils/AutoApprovalManager.ts:124-140 | The `**/pnpm-lock.yaml` pattern protects `dir/pnpm-lock.yaml…`. |
| AutoApproval.NamedFileProtected | packages/extension/src/utils/AutoApprovalManager.ts:124-140 | Any `**/x` pattern, with x free of `*` and `?`, protects `dir/x…`. |
| AutoApproval.UnescapedDotOverMatches | packages/extension/src/utils/AutoApprovalManager.ts:131-138 | The `.` of `.env` is not escaped, so a file named `Xenv`, for any character X that is not a line terminator, is protected too. |
| AutoApproval.ToolDirectoriesProtected | packages/extension/src/utils/AutoApprovalManager.ts:63-66 | Anything below a `.git`, `.vscode` or `node_modules` directory is protected, at any position in the path. So is anything below a directory whose name ends in some character followed by `git`. |
| AutoApproval.GitDirectoryProtected | packages/extension/src/utils/AutoApprovalManager.ts:124-140 | `….git/x…` is protected. |
| AutoApproval.VscodeDirectoryProtected | packages/extension/src/utils/AutoApprovalManager.ts:124-140 | `….vscode/x…` is protected. |
| AutoApproval.NodeModulesProtected | packages/extension/src/utils/AutoApprovalManager.ts:124-140 | `…node_modules/x…` is protected. |
| AutoApproval.ToolDirectoryProtected | packages/extension/src/utils/AutoApprovalManager.ts:124-140 | Any `x/**` pattern, with x free of `*` and `?`, protects `…x/c…`. |
| AutoApproval.LookAlikeGitDirectory | packages/extension/src/utils/AutoApprovalManager.ts:131-138 | Because the dot is not escaped, `…Cgit/x…` is protected for any character C that is not a line terminator (for example `digit/`). |
| AutoApproval.LookAlikeDirectory | packages/extension/src/utils/AutoApprovalManager.ts:124-140 | For a `.y/**` pattern, `…Cy/x…` is protected for any non-terminator C. |
| AutoApproval.GlobSourceDoubleStar | packages/extension/src/utils/AutoApprovalManager.ts:132-135 | The glob `**` becomes `.[^/]*`: the `.*` of the first replacement is rewritten again by the second. |
| AutoApproval.GlobSourceAround | packages/extension/src/utils/AutoApprovalManager.ts:132-135 | Glob text without `*` or `?` passes through the three replacements unchanged, and the parts on either side are translated on their own. |
| AutoApproval.GlobSourceAnyDir | packages/extension/src/utils/AutoApprovalManager.ts:132-135 | The three replacements turn `**/x` into `.[^/]*/x`. The `.*` from the first replacement is rewritten again by the second. |
| AutoApproval.GlobSourceUnderDir | packages/extension/src/utils/AutoApprovalManager.ts:132-135 | The three replacements turn `x/**` into `x/.[^/]*`. |
| AutoApproval.GlobNeedsLiteral | packages/extension/src/utils/AutoApprovalManager.ts:124-139 | A glob character that the replacements leave alone and that reads as a literal must occur in every path the glob's expression is found in. |
| AutoApproval.AnyDirNeedsInnerSlash | packages/extension/src/utils/AutoApprovalManager.ts:124-139 | The expression of `**/…` is found only in a path with a slash after its first character. |
| AutoApproval.GlobsNeed | packages/extension/src/utils/AutoApprovalManager.ts:124-139 | Each of the eleven globs needs one of the letters g, v, o, p, y and k in the path. Each also needs one of g, c, o, p, y and k, or a slash after the first character. |
| AutoApproval.PathWithoutGlobLettersNotProtected | packages/extension/src/utils/AutoApprovalManager.ts:124-139 | With a workspace folder, a path without the letters g, v, o, p, y and k is not protected. |
| AutoApproval.TopLevelPathNotProtected | packages/extension/src/utils/AutoApprovalManager.ts:124-139 | With a workspace folder, a path whose only slash is its first character and which lacks g, c, o, p, y and k is not protected. |
| AutoApproval.ProtectionExamples | packages/extension/src/utils/AutoApprovalManager.ts:124-139 | `/w/src/index.ts` is not protected. `/w/.env` is protected, but `/.env` is not, because `**/.env` needs a directory part before the slash. |
| AutoApproval.AnyDirGlobFinds | packages/extension/src/utils/AutoApprovalManager.ts:137-138 | The expression of `**/x` is found in `dir/u` whenever x's pattern matches at the start of u. |
| AutoApproval.UnderDirGlobFinds | packages/extension/src/utils/AutoApprovalManager.ts:137-138 | The expression of `x/**` is found in `pre + u` whenever `x/` followed by one character matches at the start of u. |
| AutoApproval.WildcardEntryMeaning | packages/extension/src/utils/AutoApprovalManager.ts:171-175 | An allow-list entry `a*`, with a free of regular-expression syntax characters, admits a command if and only if the command starts with a and has no line terminator after it (the expression is anchored with `^…$`). |
| AutoApproval.PlainEntryMeaning | packages/extension/src/utils/AutoApprovalManager.ts:177 | An entry without `*` admits the command itself and the command followed by a space and arguments. It does not admit a command that merely starts with the entry. |
| AutoApproval.EmptyAllowListDenies | packages/extension/src/utils/AutoApprovalManager.ts:167-169 | An empty allow-list admits no command. |
| AutoApproval.RateStep | packages/extension/src/utils/AutoApprovalManager.ts:142-161 | A rate check touches only the record of its own kind. It keeps every count between 1 and the capacity. A denied check leaves the table unchanged. |
| AutoApproval.RunInsideWindow | packages/extension/src/utils/AutoApprovalManager.ts:151-160 | Inside a window that already counts c calls, the i-th further call is admitted exactly when c + i is below the capacity. |
| AutoApproval.ExactlyCapacityPerWindow | packages/extension/src/utils/AutoApprovalManager.ts:142-161 | A fresh window admits exactly the first max(maxRequests, 1) calls and denies every later call in the window. |
| AutoApproval.ResetStartsFresh | packages/extension/src/utils/AutoApprovalManager.ts:269-271 | After the reset, the next call of any kind opens a new window with count 1. |
| AutoApproval.QuotaBeforePermission | packages/extension/src/utils/AutoApprovalManager.ts:185-239 | When the switch is on, the rate check runs first and consumes quota even when the permission test then refuses. A call is approved if and only if the switch is on, the rate check passes and the permission test passes. When the switch is off, nothing changes. |
| AutoApproval.PermissionByKind | packages/extension/src/utils/AutoApprovalManager.ts:197-238 | States what each kind needs, case by case:<br>- a read needs the read flag, and outside the workspace also the outside-workspace flag;<br>- a write without a path needs only the write flag;<br>- a write outside the workspace is refused unless writes outside it are allowed;<br>- a write to a protected file is refused unless protected files are allowed;<br>- a write to an unprotected file inside the workspace needs only the write flag;<br>- execute without a command is refused, and with one needs the execute flag and an allow-list match;<br>- debug, terminal and browser each need their own flag;<br>- an unknown kind is refused. |
| AutoApproval.WriteWithoutWorkspace | packages/extension/src/utils/AutoApprovalManager.ts:208-223 | With no folder open, a write with a path is permitted if and only if writes, outside-workspace writes and protected-file writes are all enabled. |
| AutoApproval.StatusDescriptionListsEnabled | packages/extension/src/utils/AutoApprovalManager.ts:244-264 | The description starts with its prefix. Split on `", "`, the rest is exactly the enabled kinds, in the fixed order, and each kind is listed if and only if it is enabled. |
| AutoApproval.SelectMembers | packages/extension/src/utils/AutoApprovalManager.ts:252-257 | For distinct names, a name is selected if and only if its flag is set, and only given names are selected. |
| AutoApproval.SelectReadBack | packages/extension/src/utils/AutoApprovalManager.ts:263 | Splitting the comma-joined selection of distinct, comma-free names gives the selection back. |
| AutoApproval.AutoApprovalManager.constructor | packages/extension/src/utils/AutoApprovalManager.ts:58-61 | The rate table starts empty. |
| AutoApproval.AutoApprovalManager.CheckRateLimit | packages/extension/src/utils/AutoApprovalManager.ts:142-161 | The method's answer and new table are those of `RateStep` on the old table. |
| AutoApproval.AutoApprovalManager.CanAutoApprove | packages/extension/src/utils/AutoApprovalManager.ts:185-239 | With the switch off, it refuses and leaves the table alone. Otherwise its answer and new table are those of `Decide`, whose properties are the lemmas above. |
| AutoApproval.AutoApprovalManager.ResetRateLimits | packages/extension/src/utils/AutoApprovalManager.ts:269-271 | The table is empty afterwards. |
| Server.DecimalRoundTrip | packages/extension/src/bidi-http-transport.ts:209 | Reading back the decimal digits printed for a port gives the port. |
| Server.BindErrorNamesPort | packages/extension/src/bidi-http-transport.ts:205-210 | A failed bind's message is the fixed prefix, the port's digits, `": "` and the host's error, and each part can be read back. |
| Server.AnswerKeepsConsistent | packages/extension/src/bidi-http-transport.ts:149-180 | Answering a request that has arrived, is not waiting and has no answer yet keeps the reply record consistent: at most one answer per request, and none for a waiting request. |
| Server.BidiHttpTransport.constructor | packages/extension/src/bidi-http-transport.ts:8-34 | A new transport is stopped. It holds no server and has no pending resolvers. |
| Server.BidiHttpTransport.IsServerRunning | packages/extension/src/bidi-http-transport.ts:17-19 | Running if and only if the status is `running`. |
| Server.BidiHttpTransport.Announced | packages/extension/src/bidi-http-transport.ts:21-26 | The listener receives exactly the status changes when it is set, and none otherwise. |
| Server.BidiHttpTransport.SetStatus | packages/extension/src/bidi-http-transport.ts:21-26 | Stores the status, then reports it to the listener if one is set. Nothing else changes. |
| Server.BidiHttpTransport.Start | packages/extension/src/bidi-http-transport.ts:94-211 | Reports `starting` and registers with the lifecycle manager. It succeeds if and only if the bind succeeds. On success it holds a server and reports `running`. On failure it reports `stopped`, keeps whatever server it held, and fails with the port-naming message. |
| Server.BidiHttpTransport.Arrive | packages/extension/src/bidi-http-transport.ts:104-108 | Every inbound request updates the manager's last client activity to the current time, then gets the next number. |
| Server.BidiHttpTransport.HandlePing | packages/extension/src/bidi-http-transport.ts:110-119 | Answers once, with whether the status is `running`. Like the other routes, it is modelled whether or not a server is held, since a kept-alive connection can still reach it after a handover released the server. |
| Server.BidiHttpTransport.HandleRequestHandover | packages/extension/src/bidi-http-transport.ts:122-139 | Answers success first, then lets go of the server if one is held and reports `stopped`. |
| Server.BidiHttpTransport.HandleNotifyToolsUpdated | packages/extension/src/bidi-http-transport.ts:141-147 | Reports `tool_list_updated`, then answers success. |
| Server.BidiHttpTransport.HandleMessage | packages/extension/src/bidi-http-transport.ts:149-180 | A `tools/list` request while the tool list is updated reports `running`.<br>- With a handler, a message with an id stores its resolver under the id before the handler sees it, and the reply waits for `send`; a message without an id is answered with the success text.<br>- Without a handler, the reply is a 500 "No message handler" and nothing is stored.<br>- A handler that throws gets a 500 "Internal Server Error", and the stored resolver stays in the table.<br>The reply-record invariant is kept. |
| Server.BidiHttpTransport.Dispatch | packages/extension/src/bidi-http-transport.ts:158-179 | The handler part of `POST /`, with the same outcomes per case as above. |
| Server.BidiHttpTransport.Send | packages/extension/src/bidi-http-transport.ts:213-226 | A message with an id and a result whose id has a stored resolver removes the resolver. If the request is still waiting, the message becomes its one reply. Any other message changes nothing. |
| Server.BidiHttpTransport.Close | packages/extension/src/bidi-http-transport.ts:228-262 | Reports `stopped` first. Without a server it succeeds. A close that fails keeps the server and fails with the host's error. A close that ends or times out lets go of the server. The pending requests, waiting polls, delivered messages and replies are kept as they were. |
| Server.BidiHttpTransport.RequestHandover | packages/extension/src/bidi-http-transport.ts:36-92 | Reports `starting`. A refusal returns false and changes nothing more. An acceptance or a failed request both lead to one `start`, and the handover succeeds if and only if that start succeeds. |
| Server.ServerLifecycleManager.constructor | packages/extension/src/utils/ServerLifecycleManager.ts:8-18 | No transport, no heartbeat, no shutdown guard, and activity set to the current time. |
| Server.ServerLifecycleManager.RegisterTransport | packages/extension/src/utils/ServerLifecycleManager.ts:30-36 | Replaces the transport and leaves exactly one live heartbeat. It installs the handlers once more (each registration installs them again) and shows "In esecuzione". Nothing else changes. |
| Server.ServerLifecycleManager.StartHeartbeat | packages/extension/src/utils/ServerLifecycleManager.ts:48-62 | Clears the heartbeat it holds and creates one, so exactly one is live afterwards. |
| Server.ServerLifecycleManager.UpdateClientActivity | packages/extension/src/utils/ServerLifecycleManager.ts:41-43 | Only the last activity time changes. |
| Server.ServerLifecycleManager.GracefulShutdown | packages/extension/src/utils/ServerLifecycleManager.ts:92-133 | While the guard is held, nothing changes, in the manager or the transport. Otherwise the heartbeat is cleared and the transport is closed: it reports `stopped` to its listener, lets go of its server unless closing it failed, and keeps its requests, polls, messages and replies.<br>- On success the transport is dropped, the guard released and "Spento" shown.<br>- On a failed close the transport and the guard stay, "Errore" is shown and the exit is scheduled. |
| Server.ServerLifecycleManager.ForceShutdown | packages/extension/src/utils/ServerLifecycleManager.ts:138-162 | Clears the heartbeat and schedules the exit, and changes nothing else. It does not touch the transport, because it looks up a `server` property that the transport does not have. |
| Server.ServerLifecycleManager.Shutdown | packages/extension/src/utils/ServerLifecycleManager.ts:167-169 | Same as a graceful shutdown, for the manager and for the transport it closes. |
| Server.ServerLifecycleManager.HeartbeatTick | packages/extension/src/utils/ServerLifecycleManager.ts:53-61 | More than five minutes without client activity (strictly more) leads to a graceful shutdown, with its effect on the manager and on the transport. Otherwise the manager and the transport are unchanged. |
| Server.ServerLifecycleManager.GetStatus | packages/extension/src/utils/ServerLifecycleManager.ts:174-184 | Active if and only if a transport and a heartbeat are held. The time since activity is the current time minus the last activity. |
| ListDirectory.BuildDirectoryTree | packages/extension/src/tools/list_directory.ts:146-208 | The loop that pushes children returns exactly the tree `BuildTree` describes. |
| ListDirectory.ListedChildren | packages/extension/src/tools/list_directory.ts:163-200 | A built node's children:<br>- hold no hidden entry unless hidden entries are wanted;<br>- hold no entry the ignore rules match;<br>- put every directory before every file;<br>- appear in name order within each kind. |
| ListDirectory.ChildrenMirrorKept | packages/extension/src/tools/list_directory.ts:173-200 | The children are the kept entries one for one, with the same names, and a node is a directory exactly when its entry is. |
| ListDirectory.KeptSorted | packages/extension/src/tools/list_directory.ts:173-185 | Skipping entries keeps the rest in sorted order. |
| ListDirectory.DepthCutOff | packages/extension/src/tools/list_directory.ts:154-156 | A node deeper than the limit has no children. The tree built from depth d has at most maxDepth - d + 2 levels. |
| ListDirectory.ChildrenLevels | packages/extension/src/tools/list_directory.ts:189-192 | Each child subtree has at most the remaining depth budget in levels. |
| ListDirectory.RenderIsPreOrder | packages/extension/src/tools/list_directory.ts:217-237 | The drawing is one line per node of the tree, in pre-order. Each line is indented by the flags of its ancestors. |
| ListDirectory.RenderTreeRows | packages/extension/src/tools/list_directory.ts:217-237 | A node drawn below the root with the prefix its ancestors build gives its own line, then its subtree's lines. |
| ListDirectory.RenderChildrenRows | packages/extension/src/tools/list_directory.ts:226-234 | The children are drawn in order, the last with the closing connector. |
| ListDirectory.RowShapes | packages/extension/src/tools/list_directory.ts:218-227 | The root's line has no connector. A child's line has its ancestors' indentation, then `└── ` if it is the last child or `├── ` otherwise, then the name and `/` for a directory. The indentation for the next level is `    ` after a last child and `│   ` otherwise. |
| ListDirectory.PreOrderSize | packages/extension/src/tools/list_directory.ts:217-237 | The walk visits each node once: its length is the size of the tree. |
| ListDirectory.Ancestors | packages/extension/src/tools/list_directory.ts:104-127 | The walk starts at the directory and steps to each parent. Two consecutive directories always differ. It stops at the first directory that is its own parent, and it is empty only for the empty path. |
| ListDirectory.AncestorsRise | packages/extension/src/tools/list_directory.ts:122-126 | Each step moves strictly upward, so the walk terminates and visits no directory twice. |
| ListDirectory.AncestorsStayAbsolute | packages/extension/src/tools/list_directory.ts:122-126 | From an absolute directory, every step is absolute. |
| ListDirectory.WalkEndsAtRoot | packages/extension/src/tools/list_directory.ts:104-127 | From an absolute directory, the walk ends at `/` and its directories are pairwise distinct. |
| ListDirectory.FilterPatterns | packages/extension/src/tools/list_directory.ts:112-115 | A line is kept if and only if, once trimmed, it is non-empty and not a `#` comment. |
| ListDirectory.LoadGitignorePatterns | packages/extension/src/tools/list_directory.ts:97-134 | The loop's patterns are those of each visited directory's `.gitignore`, in walk order. |
| ListDirectory.ReadPatterns | packages/extension/src/tools/list_directory.ts:105-120 | A readable `.gitignore` gives its pattern lines. An unreadable one gives none. |
| ListDirectory.CollectedPatterns | packages/extension/src/tools/list_directory.ts:104-127 | A pattern is collected if and only if it is a pattern line of some visited directory's `.gitignore`. |
| ListDirectory.CollectedFrom | packages/extension/src/tools/list_directory.ts:117 | Every collected pattern comes from some visited directory. |
| ListDirectory.CollectedAll | packages/extension/src/tools/list_directory.ts:117 | Every pattern line of every visited directory is collected. |
| ListDirectory.ListDirectoryTool | packages/extension/src/tools/list_directory.ts:31-72 | The three outcomes:<br>- an unreadable path gives "Directory is empty or does not exist";<br>- a path that is not a directory gives "… is not a directory";<br>- otherwise the result is the drawing of the tree built from depth 1 with the walk's patterns. |
| ListDirectory.MaxDepth | packages/extension/src/tools/list_directory.ts:56 | A missing or zero depth means `Number.MAX_SAFE_INTEGER`. Any other depth is kept. |
| Paths.ResolvePath | packages/extension/src/tools/list_directory.ts:79-90 | An absolute path is kept. A relative path is joined to the workspace root when there is one, and resolved against the working directory otherwise. The result is absolute whenever the root is absolute or missing. |
| Paths.PathResolve | packages/extension/src/utils/AutoApprovalManager.ts:117-119 | `path.resolve` gives an absolute path. |
| Paths.ResolveClean | packages/extension/src/utils/AutoApprovalManager.ts:117-119 | Resolving an absolute path that is already normal gives it back. |
| Paths.DirnameFixedPoints | packages/extension/src/tools/list_directory.ts:122-125 | `dirname` leaves exactly `.` and `/` unchanged, and otherwise shortens the path. |
| Paths.Dirname | packages/extension/src/tools/list_directory.ts:122 | The parent of an absolute path is absolute, and it is `.`, `/`, `//` or a proper prefix of the path. |
| Paths.Basename | packages/extension/src/tools/list_directory.ts:56 | The base name has no slash, and it is empty if and only if the path has no segment. |
| Paths.BasenameOfRooted | packages/extension/src/tools/list_directory.ts:56 | The base name of `/a/…/z` is z. |
| Paths.SegmentsOfNormalized | packages/extension/src/tools/list_directory.ts:86 | Normalising an absolute path gives an absolute path whose segments contain no `.`, `..` or empty segment. |
| Strings.ContainsIffOccurs | packages/extension/src/tools/text_editor.ts:257 | `includes` holds if and only if the text occurs at some index. |
| Strings.JoinSplit | packages/extension/src/tools/text_editor.ts:469-472 | Joining the pieces of a split with the same separator gives the text back. |
| Strings.SplitJoin | packages/extension/src/utils/AutoApprovalManager.ts:263 | Splitting the join of pieces that cannot start the separator gives the pieces back. |
| Strings.SplitMoreThanOneIffContains | packages/extension/src/tools/text_editor.ts:257-268 | A split yields more than one piece if and only if the separator occurs. |
| Strings.ReplaceAllIsSplitJoin | packages/extension/src/utils/AutoApprovalManager.ts:133-135 | A global replacement whose replacement text holds no `$` (all the glob and command rewrites) equals splitting on the needle and joining with the replacement. |
| Strings.ReplaceAllAbsent | packages/extension/src/utils/AutoApprovalManager.ts:133-135 | Replacing a needle that does not occur changes nothing. |
| Strings.ReplaceAllAround | packages/extension/src/utils/AutoApprovalManager.ts:133-135 | A middle part sharing no character with the needle is never part of an occurrence: the parts on either side are replaced on their own and the middle is kept. |
| Strings.SubstitutionPatterns | packages/extension/src/tools/text_editor.ts:268 | In a replacement string, `$$` stands for `$`, `$&` for the matched text, `` $` `` for the text before the occurrence and `$'` for the text after it. A `$` followed by any other character stands for itself. |
| Strings.SubstitutionPlain | packages/extension/src/tools/text_editor.ts:268 | A replacement string without `$` stands for itself at every occurrence. |
| Strings.ReplaceAllFromPieces | packages/extension/src/tools/text_editor.ts:268 | `replaceAll` with a string replacement keeps the text between occurrences. It replaces each occurrence by the replacement expanded there, where the expansion sees the whole text before and after that occurrence. |
| Strings.ReplaceAllExpandingPlain | packages/extension/src/tools/text_editor.ts:268 | With no `$` in the replacement, `replaceAll` is split-then-join and equals the literal replacement. |
| Strings.SplitConcat | packages/extension/src/tools/text_editor.ts:469 | Splitting on one character distributes over an occurrence of it. |
| Strings.Trim | packages/extension/src/tools/list_directory.ts:113 | `trim` gives the substring left after removing exactly the leading and the trailing white space: everything before it and after it is white space, and it neither starts nor ends with white space. It is empty if and only if the line is all white space. |
| Regex.SearchIffSomeSubstring | packages/extension/src/utils/AutoApprovalManager.ts:137-138 | An unanchored `test` succeeds if and only if the pattern fully matches some substring. |
| Regex.PrefixMatchIffFullOfPrefix | packages/extension/src/utils/AutoApprovalManager.ts:137-138 | A match at the start is a full match of some prefix. |
| Regex.LiteralsMatchExactly | packages/extension/src/utils/AutoApprovalManager.ts:172-174 | A pattern of literals fully matches exactly its own text. |
| Regex.AnyStarMatches | packages/extension/src/utils/AutoApprovalManager.ts:172-174 | `.*` fully matches exactly the texts without line terminators. |
| Regex.ParseKeepsLiteral | packages/extension/src/utils/AutoApprovalManager.ts:137 | A source character other than `.`, `*`, `[`, `^`, `/` and `]`, not followed by `*`, is a literal term of the parsed expression. |
| Regex.SearchNeedsLiteral | packages/extension/src/utils/AutoApprovalManager.ts:137-138 | An expression with a literal term is found only in strings holding that character. |
| Regex.SearchNeedsInnerSlash | packages/extension/src/utils/AutoApprovalManager.ts:137-138 | Any character, a run of non-slashes and a slash are found only in a string with a slash after its first character. |
| Regex.ParseStarFree | packages/extension/src/utils/AutoApprovalManager.ts:132-137 | A source without `*` reads as one term per character (`.` is any character, everything else is itself), whatever follows it, as long as that does not start with `*`. |
| DirEntries.SortEntries | packages/extension/src/tools/list_directory.ts:163-171 | The sorted entries are a permutation of the entries. For a total preorder on names, every directory comes before every file and names are in order within each kind. |
| DirEntries.Insert | packages/extension/src/tools/text_editor.ts:147-154 | Insertion adds one element and keeps the order. |
| DirEntries.SortedMeaning | packages/extension/src/tools/text_editor.ts:147-154 | In sorted entries, a directory never follows a file, and entries of one kind are in name order. |
| DirEntries.ExactDirectoryTest | packages/extension/src/tools/text_editor.ts:140 | A file type equals the directory type if and only if it has the directory bit and no other bit. A type with the link bit never equals it, and a link to a directory (66) has both bits. |
| TextEditor.Validate | packages/extension/src/tools/text_editor.ts:567-621 | A request is refused if and only if its command is unknown or a required parameter is missing or empty. Each command has its own message ("Invalid command" for an unknown one). An accepted request carries the parameters unchanged. |
| TextEditor.MapConfirmation | packages/extension/src/tools/text_editor.ts:68-103 | Approved if and only if the answer is "Approve". Anything other than "Approve" or "Deny" is feedback, kept verbatim. An error means refused, with no feedback. |
| TextEditor.RejectionRoundTrip | packages/extension/src/tools/text_editor.ts:296-307 | A rejection message starts with its base text. The feedback can be read back from it exactly when non-empty feedback was given. |
| TextEditor.ReplaceContent | packages/extension/src/tools/text_editor.ts:257-268 | Fails if and only if the old text does not occur, with the "not found" message naming it. On success, the new content is the old content's pieces between occurrences, each occurrence replaced by the new text with its `$` patterns expanded there. |
| TextEditor.ReplaceKeepsPieces | packages/extension/src/tools/text_editor.ts:268 | Every occurrence is replaced and nothing else changes. The text is at least two pieces joined by the old text. The result keeps those pieces, with the new text's expansion at each occurrence. For new text without `$`, that is the same pieces joined by the new text. |
| TextEditor.DollarPatternInReplacement | packages/extension/src/tools/text_editor.ts:268 | Replacing `1` by `$$` in `x = 1;` gives `x = $;`, not `x = $$;`. |
| TextEditor.InsertIndex | packages/extension/src/tools/text_editor.ts:470-471 | The insertion index never exceeds the line count (the behaviour of `splice`). |
| TextEditor.InsertLines | packages/extension/src/tools/text_editor.ts:469-472 | After the insertion, the lines are the lines before the index, then the new text's lines, then the rest. |
| TextEditor.InsertOneLine | packages/extension/src/tools/text_editor.ts:469-472 | A one-line insertion adds exactly one line at the index. A line number past the end appends after a newline. |
| TextEditor.LineStart | packages/extension/src/tools/text_editor.ts:213-216 | A line's offset lies within the text. |
| TextEditor.ViewText | packages/extension/src/tools/text_editor.ts:211-219 | Without a range, the whole text is shown. With a range, the read fails if and only if the end is below -1 (a negative position). |
| TextEditor.LinesBetween | packages/extension/src/tools/text_editor.ts:213-216 | The text between the starts of lines i and j is lines i..j-1, each ending with a newline. |
| TextEditor.LinesFrom | packages/extension/src/tools/text_editor.ts:213-216 | The text from the start of line i is lines i.. joined. |
| TextEditor.ViewShowsLinesBetween | packages/extension/src/tools/text_editor.ts:211-216 | A range inside the document shows lines start-1 to end-1, each with its newline. |
| TextEditor.ViewShowsLinesToEnd | packages/extension/src/tools/text_editor.ts:211-216 | An end of -1 or past the last line shows everything from line start-1. |
| TextEditor.ListingLineRoundTrip | packages/extension/src/tools/text_editor.ts:159-177 | A listing line can be read back into its kind (`d`, `l` or `-`) and the name. |
| TextEditor.ListingLines | packages/extension/src/tools/text_editor.ts:159-177 | One line per entry, in order. |
| TextEditor.FormatListing | packages/extension/src/tools/text_editor.ts:147-180 | The loop builds the header, a blank line, then one line per sorted entry, joined with newlines. |
| TextEditor.ListingReadBack | packages/extension/src/tools/text_editor.ts:157-180 | For names without newlines, splitting the listing gives the header, a blank line and one parseable line per entry. |
| TextEditor.ListingShowsDirectory | packages/extension/src/tools/text_editor.ts:140-180 | The listing of a directory shows each entry exactly once (a permutation), directories first and in name order, with the kind and name readable from each line. |
| TextEditor.ViewFile | packages/extension/src/tools/text_editor.ts:121-232 | The method returns what `ViewResult` describes:<br>- cancelled;<br>- "File does not exist at path: …";<br>- the listing of a plain directory, or "Error reading directory: …";<br>- the viewed text, or "Error reading file: …". |
| TextEditor.OnlyPlainDirectoriesListed | packages/extension/src/tools/text_editor.ts:137-221 | For an approved view of an existing path:<br>- the directory type is listed: an error exactly when the read fails, else the sorted listing;<br>- every other type is opened as a document: an error exactly when opening or the range read fails, else the text read;<br>- a type with the link bit is never the directory type, so a link to a directory is opened, not listed. |
| TextEditor.ReplaceResult | packages/extension/src/tools/text_editor.ts:234-345 | The diff view is shown new content if and only if the file exists, opens, and contains the old text. That content is the `$`-expanding replacement of every occurrence, given by the piece-by-piece reference. Without a proposal the result is an error. |
| TextEditor.CreateResult | packages/extension/src/tools/text_editor.ts:347-437 | The diff view is shown the file text if and only if the path does not exist yet. Without a proposal the result is an error. |
| TextEditor.InsertResult | packages/extension/src/tools/text_editor.ts:439-537 | The diff view is shown new content if and only if the file exists and opens. Its lines are the file's lines before the clamped insertion point, the lines of the new text, then the remaining lines. Without a proposal the result is an error. |
| TextEditor.EditNeedsApproval | packages/extension/src/tools/text_editor.ts:234-345 | A replacement is reported as an error if and only if it was not approved. A skipped dialog always approves. A rejection reports the feedback exactly when some was given. |
| TextEditor.CreateNeedsFreshPathAndApproval | packages/extension/src/tools/text_editor.ts:347-437 | An existing path is refused with "File already exists". Otherwise creation is an error if and only if it was not approved, and a rejection carries the feedback exactly when some was given. |
| TextEditor.InsertNeedsApproval | packages/extension/src/tools/text_editor.ts:439-537 | An insertion into a readable file is an error if and only if it was not approved. A rejection carries the feedback exactly when some was given. |
| TextEditor.TextEditorTool | packages/extension/src/tools/text_editor.ts:567-621 | Refused parameters give their message as an error. Otherwise each command runs on the resolved path: `view`, `str_replace`, `create`, `insert`, and `undo_edit`, which errs with no active edit session. The content handed to the diff view is the one the editing command proposes; a refused call, `view` and `undo_edit` propose none. |

## Left out

- **Host and I/O.**
  - VS Code, Express and Node.js I/O (HTTP sockets, file reads and writes, dialogs, output-channel logging, the warning popup) are not modelled. Their outcomes are parameters.
  - The ping reply's timestamp is left out: it is only a clock reading.
- **Timers.** Delays and intervals (the 1-second wait before a restart, the 30-second heartbeat period, the 5-second close timeout, the 10-second shutdown guard timer, the 100 ms exit delay) are not modelled as time.
  - A heartbeat is one call of `HeartbeatTick`.
  - A close timeout is one outcome of closing.
  - The shutdown guard's timer firing in the middle of a close, and interleavings of asynchronous handlers in general, are not modelled. Each operation runs to completion.
- **Process and singletons.** The process signal handlers and `process.exit` are only counted (`handlerInstalls`, `exitScheduled`). The `getInstance` singletons are plain objects that callers pass along.
- **Host functions kept abstract.** These are parameters:
  - the `ignore` library's `.gitignore` matching;
  - `localeCompare`;
  - VS Code's position-error text.

  The sort is a stable insertion sort. JavaScript's `sort` gives the same order for every preorder when it is stable, which V8's is.
- ListDirectory.RelativeName: the path the ignore matcher is asked about, `path.relative(path.dirname(fullPath), path.join(fullPath, name))`, is written as the node name, `/` and the entry name (the entry name alone when the node name is empty). Below the listed directory the two always agree, because each child path is a normalised join of its parent and a plain name. At the listed directory they differ only when the path's last segment is `.` or `..`:
  - for `/w/p/.`, the code asks about `x` and the model about `./x`;
  - for `/w/p/..`, they differ only for the entry named after the directory the `..` leaves, about which the code asks with an empty path;
  - for a `..` that climbs out of `/` (such as `/..`), they differ for every entry: the code asks about `x`, the model about `../x`.
- **Text editor.**
  - The diff view (`DiffViewProvider`: open, update, revert, save, undo) is outside the model. The save's report and whether an edit session is active are parameters.
  - The URI's `fsPath` is taken to be the resolved path.
  - Line endings are `\n` only.
  - `ensureParentDirectory` is not modelled.
  - `getText` on a range is modelled on the `\n`-split lines. VS Code's clamping of positions past the end is modelled only for the last line.
- AutoApproval.AutoApprovalManager.CanAutoApprove and AutoApproval.CommandMatches: an allow-list entry holding regular-expression syntax characters other than `*` and `.` (`+ ? ( ) [ ] { } | ^ $ \`) gets their regular-expression meaning in the code. If the entry is not a valid expression (`g++ *` gives "Nothing to repeat"), the code throws a `SyntaxError`, which escapes `isCommandAllowed` and `canAutoApprove`. The model reads those characters literally and never throws, so both are exact only for allow-lists free of them.
- AutoApproval.WildcardEntryMeaning: stated only for entries free of syntax characters (`Regex.Plain`), for the reason above.
- **Exceptions.**
  - A JavaScript exception inside a loop (a failed directory read deep in the tree, or anything unexpected) is modelled only where the code catches it with a specific outcome.
  - The outer "Failed to list directory" catch is not modelled.
  - `gracefulShutdown`'s `reason` argument is only logged and is not modelled.
- **Configuration.** `openSettings` and the reading of the configuration (`getConfig`) are left out; the configuration is a parameter.
- **Behaviour followed as the code has it.**
  - Process handlers are installed again on every `registerTransport`, not once.
  - `send` resolves only messages that carry a `result`, so an error response leaves its request waiting.
  - Numbers are JavaScript numbers, modelled as unbounded integers.
