/** The text editor tool: parameter checks and dispatch, and what each
    command computes — the view of a file or a directory, the content after
    a replacement or an insertion, and the messages returned. What the host
    answers (the confirmation dialog, the file system, the open document,
    the diff view's save) is a parameter. */
module TextEditor {
  import opened Wrappers
  import opened Strings
  import Paths
  import opened DirEntries

  /** The text returned to the caller, and whether it reports an error. */
  datatype ToolResult = ToolResult(text: string, isError: bool)

  /** An optional string that JavaScript treats as true: present and not
      empty. */
  predicate Truthy(s: Option<string>) {
    s.Some? && s.value != ""
  }

  // ----- parameters and dispatch -----

  datatype Command = View | StrReplace | Create | Insert | UndoEdit | Unknown(name: string)

  datatype Params = Params(command: Command, path: string, viewRange: Option<(int, int)>,
                           oldStr: Option<string>, newStr: Option<string>, fileText: Option<string>,
                           insertLine: Option<int>, skipDialog: Option<bool>)

  /** A command whose parameters passed the checks, with what it needs. */
  datatype Request =
    | ViewRequest(path: string, viewRange: Option<(int, int)>)
    | ReplaceRequest(path: string, oldStr: string, newStr: string, skipDialog: bool)
    | CreateRequest(path: string, fileText: string, skipDialog: bool)
    | InsertRequest(path: string, insertLine: int, newStr: string, skipDialog: bool)
    | UndoRequest

  const MissingReplaceParams := "old_str and new_str parameters are required"
  const MissingFileText := "file_text parameter is required"
  const MissingInsertParams := "insert_line and new_str parameters are required"
  const InvalidCommand := "Invalid command"

  /** The checks of `textEditorTool`: `str_replace` needs a non-empty old and
      new text, `create` a non-empty file text, `insert` a line number and a
      non-empty new text; an unknown command is refused. */
  function Validate(p: Params): (r: Result<Request, string>)
    ensures r.Failure? <==>
              (p.command.StrReplace? && !(Truthy(p.oldStr) && Truthy(p.newStr))) ||
              (p.command.Create? && !Truthy(p.fileText)) ||
              (p.command.Insert? && (p.insertLine.None? || !Truthy(p.newStr))) ||
              p.command.Unknown?
    ensures p.command.StrReplace? && r.Failure? ==> r.error == MissingReplaceParams
    ensures p.command.Create? && r.Failure? ==> r.error == MissingFileText
    ensures p.command.Insert? && r.Failure? ==> r.error == MissingInsertParams
    ensures p.command.Unknown? ==> r == Failure(InvalidCommand)
    ensures r.Success? ==> RequestCarries(p, r.value)
  {
    match p.command
    case View => Success(ViewRequest(p.path, p.viewRange))
    case StrReplace =>
      if !Truthy(p.oldStr) || !Truthy(p.newStr) then Failure(MissingReplaceParams)
      else Success(ReplaceRequest(p.path, p.oldStr.value, p.newStr.value, p.skipDialog == Some(true)))
    case Create =>
      if !Truthy(p.fileText) then Failure(MissingFileText)
      else Success(CreateRequest(p.path, p.fileText.value, p.skipDialog == Some(true)))
    case Insert =>
      if p.insertLine.None? || !Truthy(p.newStr) then Failure(MissingInsertParams)
      else Success(InsertRequest(p.path, p.insertLine.value, p.newStr.value, p.skipDialog == Some(true)))
    case UndoEdit => Success(UndoRequest)
    case Unknown(_) => Failure(InvalidCommand)
  }

  /** The request is the command of the parameters, with their values; the
      texts a replacement or insertion needs are non-empty. */
  predicate RequestCarries(p: Params, q: Request) {
    match q
    case ViewRequest(path, range) => p.command.View? && path == p.path && range == p.viewRange
    case ReplaceRequest(path, oldStr, newStr, skip) =>
      p.command.StrReplace? && path == p.path && Some(oldStr) == p.oldStr && Some(newStr) == p.newStr &&
      oldStr != "" && newStr != "" && skip == (p.skipDialog == Some(true))
    case CreateRequest(path, fileText, skip) =>
      p.command.Create? && path == p.path && Some(fileText) == p.fileText && fileText != "" &&
      skip == (p.skipDialog == Some(true))
    case InsertRequest(path, line, newStr, skip) =>
      p.command.Insert? && path == p.path && Some(line) == p.insertLine && Some(newStr) == p.newStr &&
      newStr != "" && skip == (p.skipDialog == Some(true))
    case UndoRequest => p.command.UndoEdit?
  }

  // ----- confirmation -----

  /** What the confirmation dialog gave back: the label chosen or typed, or
      an error (raised, for instance, when no text editor is active). */
  datatype ConfirmOutcome = Chose(choice: string) | Threw

  datatype Confirmation = Confirmation(approved: bool, feedback: Option<string>)

  /** `showPersistentConfirmation`'s reading of the dialog. */
  function MapConfirmation(o: ConfirmOutcome): (c: Confirmation)
    ensures c.approved <==> o == Chose("Approve")
    ensures c.feedback.Some? <==> o.Chose? && o.choice != "Approve" && o.choice != "Deny"
    ensures c.feedback.Some? ==> c.feedback.value == o.choice
  {
    match o
    case Threw => Confirmation(false, None)
    case Chose(choice) =>
      if choice == "Approve" then Confirmation(true, None)
      else Confirmation(false, if choice != "Deny" then Some(choice) else None)
  }

  /** The decision an edit acts on: approved outright when the dialog is
      skipped. */
  function EditConfirmation(skipDialog: bool, o: ConfirmOutcome): Confirmation {
    if skipDialog then Confirmation(true, None) else MapConfirmation(o)
  }

  const FeedbackInfix := " with feedback: "

  /** The message of a rejected edit: the base text, then the feedback when
      there is some. */
  function RejectionMessage(base: string, feedback: Option<string>): string {
    if Truthy(feedback) then base + FeedbackInfix + feedback.value else base
  }

  /** The feedback read back from a rejection message. */
  function FeedbackOf(base: string, message: string): Option<string> {
    var head := base + FeedbackInfix;
    if |message| >= |head| && message[..|head|] == head then Some(message[|head|..]) else None
  }

  /** A rejection message names the feedback exactly when some was given. */
  lemma RejectionRoundTrip(base: string, feedback: Option<string>)
    ensures FeedbackOf(base, RejectionMessage(base, feedback)) == (if Truthy(feedback) then feedback else None)
    ensures StartsWith(RejectionMessage(base, feedback), base)
  {
    var head := base + FeedbackInfix;
    var m := RejectionMessage(base, feedback);
    if Truthy(feedback) {
      assert m == head + feedback.value;
      assert m[..|head|] == head && m[|head|..] == feedback.value;
    } else {
      assert |m| < |head|;
    }
    assert m[..|base|] == base;
  }

  // ----- saving an edit -----

  /** What the diff view reports after saving: new problems, whether the
      user edited the proposal, and their feedback. */
  datatype SaveResult = SaveResult(newProblemsMessage: Option<string>, userEdits: bool, userFeedback: Option<string>)

  /** The message after a saved edit: the edited or the plain success text,
      then the new problems, then the feedback on a line of its own. */
  function SavedMessage(editedText: string, doneText: string, save: SaveResult): string {
    (if save.userEdits then editedText else doneText) +
    (if Truthy(save.newProblemsMessage) then save.newProblemsMessage.value else "") +
    (if Truthy(save.userFeedback) then "\nUser feedback: " + save.userFeedback.value else "")
  }

  // ----- replacing text -----

  /** The content after `str_replace`, or the error when the old text does
      not occur. The new text is a replacement template: its `$` patterns
      are expanded at every occurrence. */
  function ReplaceContent(content: string, oldStr: string, newStr: string): (r: Result<string, string>)
    requires oldStr != ""
    ensures r.Failure? <==> !Contains(content, oldStr)
    ensures r.Failure? ==> r.error == "Text to replace '" + oldStr + "' not found in the file"
    ensures r.Success? ==> r.value == JoinSubstituted("", Split(content, oldStr), oldStr, newStr)
  {
    if !Contains(content, oldStr) then Failure("Text to replace '" + oldStr + "' not found in the file")
    else
      ReplaceAllExpandingPieces(content, oldStr, newStr);
      Success(ReplaceAllExpanding(content, oldStr, newStr))
  }

  /** A replacement keeps everything between the occurrences of the old
      text: the old content is those pieces (at least two) joined by the old
      text, and the new content is the same pieces with every occurrence
      replaced by the expansion of the new text there; when the new text
      holds no `$`, that is the same pieces joined by the new text. */
  lemma ReplaceKeepsPieces(content: string, oldStr: string, newStr: string)
    requires oldStr != "" && Contains(content, oldStr)
    ensures var pieces := Split(content, oldStr);
            |pieces| >= 2 &&
            Join(pieces, oldStr) == content &&
            ReplaceContent(content, oldStr, newStr) == Success(JoinSubstituted("", pieces, oldStr, newStr)) &&
            ('$' !in newStr ==> ReplaceContent(content, oldStr, newStr) == Success(Join(pieces, newStr)))
  {
    SplitMoreThanOneIffContains(content, oldStr);
    JoinSplit(content, oldStr);
    if '$' !in newStr {
      JoinSubstitutedPlain("", Split(content, oldStr), oldStr, newStr);
    }
  }

  /** `$$` in the new text inserts a single dollar sign. */
  lemma DollarPatternInReplacement()
    ensures ReplaceContent("x = 1;", "1", "$$") == Success("x = $;")
  {
    DollarExampleOccurs();
    DollarExampleExpands();
  }

  lemma DollarExampleOccurs()
    ensures Contains("x = 1;", "1")
  {
    var content := "x = 1;";
    assert StartsWith(content[4..], "1");
    assert Contains(content[4..], "1");
    assert content[4..] == content[3..][1..] && content[3..] == content[2..][1..];
    assert content[2..] == content[1..][1..];
  }

  lemma DollarExampleExpands()
    ensures ReplaceAllExpanding("x = 1;", "1", "$$") == "x = $;"
  {
    DollarExampleTail();
    assert ReplaceAllFrom("x =", " 1;", "1", "$$") == " $;";
    assert ReplaceAllFrom("x ", "= 1;", "1", "$$") == "= $;";
    assert ReplaceAllFrom("x", " = 1;", "1", "$$") == " = $;";
  }

  lemma DollarExampleTail()
    ensures ReplaceAllFrom("x = ", "1;", "1", "$$") == "$;"
  {
    SubstitutionPatterns("1", "x = ", ";", 'a');
    assert ReplaceAllFrom("x = 1", ";", "1", "$$") == ";";
  }

  // ----- inserting text -----

  /** `Math.max(0, insertLine)`, then clamped to the end as `splice` does. */
  function InsertIndex(insertLine: int, lineCount: nat): (k: nat)
    ensures k <= lineCount
  {
    var k := if insertLine < 0 then 0 else insertLine;
    if k > lineCount then lineCount else k
  }

  /** The content after `insert`: the new text spliced in as one element of
      the lines, which are joined again. */
  function InsertContent(content: string, insertLine: int, newStr: string): string {
    var lines := Split(content, "\n");
    var k := InsertIndex(insertLine, |lines|);
    Join(lines[..k] + [newStr] + lines[k..], "\n")
  }

  /** Pieces free of the separator, joined around one more piece, split
      back into those pieces and the split of that piece. */
  lemma SplitSpliced(front: seq<string>, mid: string, back: seq<string>, c: char)
    requires forall k :: 0 <= k < |front| ==> c !in front[k]
    requires forall k :: 0 <= k < |back| ==> c !in back[k]
    ensures Split(Join(front + [mid] + back, [c]), [c]) == front + Split(mid, [c]) + back
  {
    var rest := [mid] + back;
    var pieces := Split(mid, [c]);
    SplitMidBack(mid, back, c);
    if front == [] {
      assert front + [mid] + back == rest;
      assert front + pieces == pieces;
    } else {
      Regroup(front, [mid], back);
      Regroup(front, pieces, back);
      JoinAround(front, rest, c);
    }
  }

  lemma Regroup<T>(a: seq<T>, b: seq<T>, c: seq<T>)
    ensures a + b + c == a + (b + c)
  {
  }

  lemma JoinAround(front: seq<string>, rest: seq<string>, c: char)
    requires |front| >= 1 && |rest| >= 1 && forall k :: 0 <= k < |front| ==> c !in front[k]
    ensures Split(Join(front + rest, [c]), [c]) == front + Split(Join(rest, [c]), [c])
  {
    JoinAppend(front, rest, [c]);
    SplitConcat(Join(front, [c]), c, Join(rest, [c]));
    SplitJoin(front, [c]);
  }

  lemma SplitMidBack(mid: string, back: seq<string>, c: char)
    requires forall k :: 0 <= k < |back| ==> c !in back[k]
    ensures Split(Join([mid] + back, [c]), [c]) == Split(mid, [c]) + back
  {
    if back == [] {
      assert [mid] + back == [mid];
    } else {
      JoinAppend([mid], back, [c]);
      SplitConcat(mid, c, Join(back, [c]));
      SplitJoin(back, [c]);
    }
  }

  /** The lines after an insertion are the lines before the insertion
      point, the lines of the new text, then the remaining lines. */
  lemma InsertLines(content: string, insertLine: int, newStr: string)
    ensures var lines := Split(content, "\n");
            var k := InsertIndex(insertLine, |lines|);
            Split(InsertContent(content, insertLine, newStr), "\n") == lines[..k] + Split(newStr, "\n") + lines[k..]
  {
    var lines := Split(content, "\n");
    var k := InsertIndex(insertLine, |lines|);
    SplitPiecesFree(content, '\n');
    assert forall m :: 0 <= m < k ==> lines[..k][m] == lines[m];
    assert forall m :: 0 <= m < |lines| - k ==> lines[k..][m] == lines[k + m];
    SplitSpliced(lines[..k], newStr, lines[k..], '\n');
  }

  /** A one-line insertion adds exactly one line: the lines before the
      insertion point are unchanged, the new text is the line at that
      point, and the rest follow; past the end, the text is appended. */
  lemma InsertOneLine(content: string, insertLine: int, newStr: string)
    requires '\n' !in newStr
    ensures var lines := Split(content, "\n");
            var k := InsertIndex(insertLine, |lines|);
            var after := Split(InsertContent(content, insertLine, newStr), "\n");
            |after| == |lines| + 1 && after[..k] == lines[..k] && after[k] == newStr && after[k + 1..] == lines[k..]
    ensures insertLine >= |Split(content, "\n")| ==> InsertContent(content, insertLine, newStr) == content + "\n" + newStr
  {
    var lines := Split(content, "\n");
    var k := InsertIndex(insertLine, |lines|);
    InsertLines(content, insertLine, newStr);
    SplitFree(newStr, "\n");
    var after := Split(InsertContent(content, insertLine, newStr), "\n");
    assert after == lines[..k] + [newStr] + lines[k..];
    if insertLine >= |lines| {
      assert lines[..k] + [newStr] + lines[k..] == lines + [newStr];
      JoinAppend(lines, [newStr], "\n");
      JoinSplit(content, "\n");
    }
  }

  // ----- viewing a range -----

  /** Where a position `(line, 0)` falls in the text of the lines, as the
      document clamps it: the start of that line, or the end of the text
      for a line past the last one. */
  function LineStart(lines: seq<string>, line: nat): (offset: nat)
    ensures offset <= |Join(lines, "\n")|
  {
    if line >= |lines| then |Join(lines, "\n")|
    else if line == 0 then 0
    else
      JoinAppend(lines[..line], lines[line..], "\n");
      assert lines[..line] + lines[line..] == lines;
      |Join(lines[..line], "\n")| + 1
  }

  /** The text `viewFile` shows: the whole document, or the text between
      the starts of the two lines of the range (0-based: the first minus
      one, never below zero; the last, or the line count for -1), in either
      order. A last line below -1 makes the host's position constructor
      fail with `positionError`. */
  function ViewText(content: string, viewRange: Option<(int, int)>, positionError: string): (r: Result<string, string>)
    ensures viewRange.None? ==> r == Success(content)
    ensures viewRange.Some? ==> (r.Failure? <==> viewRange.value.1 < -1)
  {
    if viewRange.None? then Success(content)
    else
      var (start, end) := viewRange.value;
      var startLine := if start - 1 < 0 then 0 else start - 1;
      var lines := Split(content, "\n");
      var endLine := if end == -1 then |lines| else end;
      if endLine < 0 then Failure(positionError)
      else
        JoinSplit(content, "\n");
        var a := LineStart(lines, startLine);
        var b := LineStart(lines, endLine);
        Success(if a <= b then content[a..b] else content[b..a])
  }

  lemma JoinSplitAt(lines: seq<string>, k: nat)
    requires 0 < k < |lines|
    ensures Join(lines, "\n") == Join(lines[..k], "\n") + "\n" + Join(lines[k..], "\n")
  {
    JoinAppend(lines[..k], lines[k..], "\n");
    assert lines[..k] + lines[k..] == lines;
  }

  /** The text before the start of line `j` is the lines before it, with
      the line break that ends the last of them. */
  lemma LinesBefore(lines: seq<string>, j: nat)
    requires 0 < j < |lines|
    ensures LineStart(lines, j) == |Join(lines[..j], "\n")| + 1
    ensures Join(lines, "\n")[..LineStart(lines, j)] == Join(lines[..j], "\n") + "\n"
  {
    JoinSplitAt(lines, j);
  }

  /** The text between the starts of lines `i` and `j` is those lines, each
      with its line break. */
  lemma LinesBetween(lines: seq<string>, i: nat, j: nat)
    requires i < j < |lines|
    ensures LineStart(lines, i) < LineStart(lines, j)
    ensures Join(lines, "\n")[LineStart(lines, i)..LineStart(lines, j)] == Join(lines[i..j], "\n") + "\n"
  {
    var all := Join(lines, "\n");
    var pre := lines[..j];
    LinesBefore(lines, j);
    var b := LineStart(lines, j);
    if i == 0 {
      assert pre == lines[i..j];
    } else {
      LinesBefore(lines, i);
      LinesBefore(pre, i);
      assert pre[..i] == lines[..i];
      LinesFrom(pre, i);
      assert pre[i..] == lines[i..j];
      var a := LineStart(lines, i);
      assert a == LineStart(pre, i);
      assert all[a..b] == all[..b][a..];
      assert (Join(pre, "\n") + "\n")[a..] == Join(pre, "\n")[a..] + "\n";
    }
  }

  /** The text from the start of line `i` to the end is the remaining lines. */
  lemma LinesFrom(lines: seq<string>, i: nat)
    requires i < |lines|
    ensures Join(lines, "\n")[LineStart(lines, i)..] == Join(lines[i..], "\n")
  {
    if i > 0 {
      JoinSplitAt(lines, i);
    } else {
      assert lines[i..] == lines;
    }
  }

  /** A range in reading order that ends inside the document shows the
      lines from the first of the range (1-based) up to and including the
      last (counted here as 0-based, so the line the document numbers
      `end + 1` is left out), each followed by its line break. */
  lemma ViewShowsLinesBetween(content: string, start: int, end: int, positionError: string)
    requires var i := if start - 1 < 0 then 0 else start - 1;
             i < end < |Split(content, "\n")|
    ensures var i := if start - 1 < 0 then 0 else start - 1;
            ViewText(content, Some((start, end)), positionError) ==
              Success(Join(Split(content, "\n")[i..end], "\n") + "\n")
  {
    var lines := Split(content, "\n");
    var i := if start - 1 < 0 then 0 else start - 1;
    JoinSplit(content, "\n");
    LinesBetween(lines, i, end);
  }

  /** A range whose end is -1 or past the last line shows everything from
      the first line of the range on. */
  lemma ViewShowsLinesToEnd(content: string, start: int, end: int, positionError: string)
    requires var i := if start - 1 < 0 then 0 else start - 1;
             (end == -1 || end >= |Split(content, "\n")|) && i < |Split(content, "\n")|
    ensures var i := if start - 1 < 0 then 0 else start - 1;
            ViewText(content, Some((start, end)), positionError) == Success(Join(Split(content, "\n")[i..], "\n"))
  {
    var lines := Split(content, "\n");
    var i := if start - 1 < 0 then 0 else start - 1;
    JoinSplit(content, "\n");
    LinesFrom(lines, i);
    var endLine := if end == -1 then |lines| else end;
    assert LineStart(lines, endLine) == |content|;
    assert content[LineStart(lines, i)..|content|] == content[LineStart(lines, i)..];
  }

  // ----- listing a directory -----

  datatype Kind = DirectoryKind | LinkKind | OtherKind

  /** The directory bit wins over the link bit. */
  function KindOf(e: Entry): Kind {
    if IsDirectory(e) then DirectoryKind
    else if IsSymbolicLink(e) then LinkKind
    else OtherKind
  }

  /** One line of a listing: `d name/`, `l name@` or `- name`. */
  function ListingLine(e: Entry): string {
    match KindOf(e)
    case DirectoryKind => "d " + e.name + "/"
    case LinkKind => "l " + e.name + "@"
    case OtherKind => "- " + e.name
  }

  /** A listing line read back into its kind and name. */
  function ParseListingLine(line: string): Option<(Kind, string)> {
    if |line| >= 3 && line[..2] == "d " && line[|line| - 1] == '/' then Some((DirectoryKind, line[2..|line| - 1]))
    else if |line| >= 3 && line[..2] == "l " && line[|line| - 1] == '@' then Some((LinkKind, line[2..|line| - 1]))
    else if |line| >= 2 && line[..2] == "- " then Some((OtherKind, line[2..]))
    else None
  }

  lemma ListingLineRoundTrip(e: Entry)
    ensures ParseListingLine(ListingLine(e)) == Some((KindOf(e), e.name))
  {
    var line := ListingLine(e);
    assert line[..2] == ListingLine(e)[..2];
    match KindOf(e) {
      case DirectoryKind =>
        assert line == "d " + e.name + "/" && line[2..|line| - 1] == e.name;
      case LinkKind =>
        assert line == "l " + e.name + "@" && line[2..|line| - 1] == e.name;
      case OtherKind =>
        assert line == "- " + e.name && line[2..] == e.name;
    }
  }

  function ListingHeader(fsPath: string): string {
    "Directory listing for: " + fsPath
  }

  function ListingLines(es: seq<Entry>): (r: seq<string>)
    ensures |r| == |es| && forall k :: 0 <= k < |es| ==> r[k] == ListingLine(es[k])
    decreases |es|
  {
    if es == [] then [] else ListingLines(es[..|es| - 1]) + [ListingLine(es[|es| - 1])]
  }

  /** The listing text: the header, an empty line, then one line per entry
      in the order given. */
  function ListingText(fsPath: string, es: seq<Entry>): string {
    Join([ListingHeader(fsPath), ""] + ListingLines(es), "\n")
  }

  /** The directory branch of `viewFile`: sort the entries, then push one
      line per entry after the header and an empty line. */
  method FormatListing(fsPath: string, entries: seq<Entry>, leq: (string, string) -> bool) returns (text: string)
    ensures text == ListingText(fsPath, SortEntries(leq, entries))
  {
    var sorted := SortEntries(leq, entries);
    var lines := [ListingHeader(fsPath), ""];
    var i := 0;
    while i < |sorted|
      invariant 0 <= i <= |sorted|
      invariant lines == [ListingHeader(fsPath), ""] + ListingLines(sorted[..i])
    {
      assert sorted[..i + 1][..i] == sorted[..i];
      lines := lines + [ListingLine(sorted[i])];
      i := i + 1;
    }
    assert sorted[..|sorted|] == sorted;
    text := Join(lines, "\n");
  }

  lemma ListingLineFree(e: Entry)
    requires '\n' !in e.name
    ensures '\n' !in ListingLine(e)
  {
  }

  /** Read back, a listing whose path and names have no line break gives
      the header, an empty line, then one line per entry, which names that
      entry and its kind. */
  lemma ListingReadBack(fsPath: string, es: seq<Entry>)
    requires '\n' !in fsPath && forall k :: 0 <= k < |es| ==> '\n' !in es[k].name
    ensures var read := Split(ListingText(fsPath, es), "\n");
            |read| == |es| + 2 && read[0] == ListingHeader(fsPath) && read[1] == "" &&
            forall k :: 0 <= k < |es| ==> ParseListingLine(read[k + 2]) == Some((KindOf(es[k]), es[k].name))
  {
    var lines := ListingLines(es);
    var parts := [ListingHeader(fsPath), ""] + lines;
    forall k | 0 <= k < |parts| ensures "\n"[0] !in parts[k] {
      if k >= 2 {
        assert parts[k] == ListingLine(es[k - 2]);
        ListingLineFree(es[k - 2]);
      }
    }
    SplitJoin(parts, "\n");
    forall k | 0 <= k < |es| ensures ParseListingLine(parts[k + 2]) == Some((KindOf(es[k]), es[k].name)) {
      assert parts[k + 2] == ListingLine(es[k]);
      ListingLineRoundTrip(es[k]);
    }
  }

  /** The sort keeps every entry, so names without a line break stay so. */
  lemma SortedNamesFree(leq: (string, string) -> bool, entries: seq<Entry>)
    requires forall k :: 0 <= k < |entries| ==> '\n' !in entries[k].name
    ensures forall k :: 0 <= k < |SortEntries(leq, entries)| ==> '\n' !in SortEntries(leq, entries)[k].name
  {
    var sorted := SortEntries(leq, entries);
    forall k | 0 <= k < |sorted| ensures '\n' !in sorted[k].name {
      assert sorted[k] in multiset(entries);
      var m :| 0 <= m < |entries| && entries[m] == sorted[k];
    }
  }

  /** The listing `viewFile` returns names every entry of the directory
      once per occurrence, directories before other entries and, within a
      kind, in the host's name order. */
  lemma ListingShowsDirectory(fsPath: string, entries: seq<Entry>, leq: (string, string) -> bool)
    requires '\n' !in fsPath && forall k :: 0 <= k < |entries| ==> '\n' !in entries[k].name
    requires TotalPreorder(leq)
    ensures var sorted := SortEntries(leq, entries);
            var read := Split(ListingText(fsPath, sorted), "\n");
            multiset(sorted) == multiset(entries) && Sorted(leq, sorted) &&
            |sorted| == |entries| && |read| == |sorted| + 2 &&
            forall k :: 0 <= k < |sorted| ==> ParseListingLine(read[k + 2]) == Some((KindOf(sorted[k]), sorted[k].name))
  {
    var sorted := SortEntries(leq, entries);
    SortedNamesFree(leq, entries);
    ListingReadBack(fsPath, sorted);
    assert |sorted| == |multiset(sorted)| == |multiset(entries)| == |entries|;
  }

  // ----- the commands -----

  /** What the host answers during one call. */
  datatype Host = Host(
    workspaceRoot: Option<string>,
    cwd: string,
    confirmation: ConfirmOutcome,
    stat: Option<nat>,
    readDirectory: Result<seq<Entry>, string>,
    document: Result<string, string>,
    positionError: string,
    save: SaveResult,
    isEditing: bool,
    leq: (string, string) -> bool)

  /** `viewFile` after the dialog: a refused view, a missing path, a
      directory (only a plain directory: the file type must be exactly the
      directory bit), or the text of the document. */
  function ViewResult(fsPath: string, viewRange: Option<(int, int)>, host: Host): ToolResult {
    if !MapConfirmation(host.confirmation).approved then ToolResult("File view cancelled by user.", true)
    else if host.stat.None? then ToolResult("File does not exist at path: " + fsPath, true)
    else if host.stat.value == DirectoryBit then
      match host.readDirectory
      case Failure(message) => ToolResult("Error reading directory: " + message, true)
      case Success(entries) => ToolResult(ListingText(fsPath, SortEntries(host.leq, entries)), false)
    else
      match host.document
      case Failure(message) => ToolResult("Error reading file: " + message, true)
      case Success(content) =>
        match ViewText(content, viewRange, host.positionError)
        case Failure(message) => ToolResult("Error reading file: " + message, true)
        case Success(text) => ToolResult(text, false)
  }

  method ViewFile(fsPath: string, viewRange: Option<(int, int)>, host: Host) returns (r: ToolResult)
    ensures r == ViewResult(fsPath, viewRange, host)
  {
    var confirmResult := MapConfirmation(host.confirmation);
    if !confirmResult.approved {
      return ToolResult("File view cancelled by user.", true);
    }
    if host.stat.None? {
      return ToolResult("File does not exist at path: " + fsPath, true);
    }
    if host.stat.value == DirectoryBit {
      match host.readDirectory {
        case Failure(message) =>
          return ToolResult("Error reading directory: " + message, true);
        case Success(entries) =>
          var text := FormatListing(fsPath, entries, host.leq);
          return ToolResult(text, false);
      }
    }
    match host.document {
      case Failure(message) =>
        return ToolResult("Error reading file: " + message, true);
      case Success(content) =>
        var shown := ViewText(content, viewRange, host.positionError);
        match shown {
          case Failure(message) => return ToolResult("Error reading file: " + message, true);
          case Success(text) => return ToolResult(text, false);
        }
    }
  }

  /** The directory test is an equality with the directory type: only a
      plain directory is listed, and every other existing path, a link to a
      directory included (its type carries the link bit as well), is opened
      as a document. */
  lemma OnlyPlainDirectoriesListed(fsPath: string, viewRange: Option<(int, int)>, host: Host)
    requires MapConfirmation(host.confirmation).approved && host.stat.Some?
    ensures host.stat.value == DirectoryBit ==>
              (ViewResult(fsPath, viewRange, host).isError <==> host.readDirectory.Failure?) &&
              (host.readDirectory.Success? ==>
                 ViewResult(fsPath, viewRange, host).text == ListingText(fsPath, SortEntries(host.leq, host.readDirectory.value)))
    ensures host.stat.value != DirectoryBit ==>
              (ViewResult(fsPath, viewRange, host).isError <==>
                 host.document.Failure? || ViewText(host.document.value, viewRange, host.positionError).Failure?) &&
              (!ViewResult(fsPath, viewRange, host).isError ==>
                 ViewResult(fsPath, viewRange, host).text == ViewText(host.document.value, viewRange, host.positionError).value)
    ensures HasBit(host.stat.value, SymbolicLinkBit) ==> host.stat.value != DirectoryBit
  {
    ExactDirectoryTest(host.stat.value);
  }

  /** What an editing command returns, with the content it handed to the
      diff view, if it got that far. */
  datatype EditOutcome = EditOutcome(result: ToolResult, proposed: Option<string>)

  /** `replaceText`: a missing file, a document that cannot be opened, an
      old text that does not occur, a rejected proposal, or the saved
      replacement. The diff view is shown the replaced content exactly when
      the old text occurs in a readable file. */
  function ReplaceResult(fsPath: string, oldStr: string, newStr: string, skipDialog: bool, host: Host): (o: EditOutcome)
    requires oldStr != ""
    ensures o.proposed.Some? <==> host.stat.Some? && host.document.Success? && Contains(host.document.value, oldStr)
    ensures o.proposed.Some? ==>
              o.proposed.value == JoinSubstituted("", Split(host.document.value, oldStr), oldStr, newStr)
    ensures o.proposed.None? ==> o.result.isError
  {
    if host.stat.None? then EditOutcome(ToolResult("File does not exist at path: " + fsPath, true), None)
    else
      match host.document
      case Failure(message) => EditOutcome(ToolResult("Error replacing text: " + message, true), None)
      case Success(content) =>
        match ReplaceContent(content, oldStr, newStr)
        case Failure(message) => EditOutcome(ToolResult(message, true), None)
        case Success(newContent) =>
          var c := EditConfirmation(skipDialog, host.confirmation);
          if !c.approved then
            EditOutcome(ToolResult(RejectionMessage("Changes were rejected by the user", c.feedback), true), Some(newContent))
          else
            EditOutcome(ToolResult(SavedMessage("User modified the changes. Please review the updated content.",
                                                "Text replacement completed successfully", host.save), false),
                        Some(newContent))
  }

  /** `createFile`: an existing path is refused; otherwise the file text is
      shown in the diff view, then a rejected proposal or the saved file. */
  function CreateResult(fileText: string, skipDialog: bool, host: Host): (o: EditOutcome)
    ensures o.proposed.Some? <==> host.stat.None?
    ensures o.proposed.Some? ==> o.proposed.value == fileText
    ensures o.proposed.None? ==> o.result.isError
  {
    if host.stat.Some? then EditOutcome(ToolResult("File already exists", true), None)
    else
      var c := EditConfirmation(skipDialog, host.confirmation);
      if !c.approved then
        EditOutcome(ToolResult(RejectionMessage("File creation was cancelled by the user", c.feedback), true), Some(fileText))
      else
        EditOutcome(ToolResult(SavedMessage("User modified the new file content. Please review the changes.",
                                            "File created successfully", host.save), false),
                    Some(fileText))
  }

  /** `insertText`: a missing file, a document that cannot be opened, a
      rejected proposal, or the saved insertion. The diff view is shown the
      lines of the file with the lines of the new text at the clamped
      insertion point exactly when the file is readable. */
  function InsertResult(fsPath: string, insertLine: int, newStr: string, skipDialog: bool, host: Host): (o: EditOutcome)
    ensures o.proposed.Some? <==> host.stat.Some? && host.document.Success?
    ensures o.proposed.Some? ==>
              var lines := Split(host.document.value, "\n");
              var k := InsertIndex(insertLine, |lines|);
              Split(o.proposed.value, "\n") == lines[..k] + Split(newStr, "\n") + lines[k..]
    ensures o.proposed.None? ==> o.result.isError
  {
    if host.stat.None? then EditOutcome(ToolResult("File does not exist at path: " + fsPath, true), None)
    else if host.document.Failure? then EditOutcome(ToolResult("Error inserting text: " + host.document.error, true), None)
    else
      InsertLines(host.document.value, insertLine, newStr);
      var newContent := InsertContent(host.document.value, insertLine, newStr);
      var c := EditConfirmation(skipDialog, host.confirmation);
      if !c.approved then
        EditOutcome(ToolResult(RejectionMessage("Text insertion was cancelled by the user", c.feedback), true), Some(newContent))
      else
        EditOutcome(ToolResult(SavedMessage("User modified the inserted content. Please review the changes.",
                                            "Text insertion completed successfully", host.save), false),
                    Some(newContent))
  }

  /** `undoEdit`. */
  function UndoResult(host: Host): ToolResult {
    if !host.isEditing then ToolResult("No active edit session to undo", true)
    else ToolResult("Undo completed successfully", false)
  }

  /** An edit is applied only when approved: a rejected edit reports an
      error whose message carries the feedback exactly when some was
      given, and a skipped dialog always approves. */
  lemma EditNeedsApproval(fsPath: string, oldStr: string, newStr: string, skipDialog: bool, host: Host)
    requires oldStr != "" && host.stat.Some? && host.document.Success? && Contains(host.document.value, oldStr)
    ensures var c := EditConfirmation(skipDialog, host.confirmation);
            var r := ReplaceResult(fsPath, oldStr, newStr, skipDialog, host).result;
            (skipDialog ==> c.approved) &&
            (r.isError <==> !c.approved) &&
            (!c.approved ==> FeedbackOf("Changes were rejected by the user", r.text) ==
                               (if Truthy(c.feedback) then c.feedback else None))
  {
    var c := EditConfirmation(skipDialog, host.confirmation);
    RejectionRoundTrip("Changes were rejected by the user", c.feedback);
  }

  /** A file is created only where none exists, and only when approved; a
      refusal reports the feedback exactly when some was given. */
  lemma CreateNeedsFreshPathAndApproval(fileText: string, skipDialog: bool, host: Host)
    ensures var c := EditConfirmation(skipDialog, host.confirmation);
            var r := CreateResult(fileText, skipDialog, host).result;
            (host.stat.Some? ==> r == ToolResult("File already exists", true)) &&
            (host.stat.None? ==> (r.isError <==> !c.approved)) &&
            (host.stat.None? && !c.approved ==>
               FeedbackOf("File creation was cancelled by the user", r.text) ==
               (if Truthy(c.feedback) then c.feedback else None))
  {
    var c := EditConfirmation(skipDialog, host.confirmation);
    RejectionRoundTrip("File creation was cancelled by the user", c.feedback);
  }

  /** An insertion into a readable file is applied only when approved; a
      refusal reports the feedback exactly when some was given. */
  lemma InsertNeedsApproval(fsPath: string, insertLine: int, newStr: string, skipDialog: bool, host: Host)
    requires host.stat.Some? && host.document.Success?
    ensures var c := EditConfirmation(skipDialog, host.confirmation);
            var r := InsertResult(fsPath, insertLine, newStr, skipDialog, host).result;
            (r.isError <==> !c.approved) &&
            (!c.approved ==> FeedbackOf("Text insertion was cancelled by the user", r.text) ==
                               (if Truthy(c.feedback) then c.feedback else None))
  {
    var c := EditConfirmation(skipDialog, host.confirmation);
    RejectionRoundTrip("Text insertion was cancelled by the user", c.feedback);
  }

  /** `textEditorTool`: the checks, then the command, on the resolved
      path. Besides the result, `proposed` is the content handed to the
      diff view; only an editing command that got that far has one. */
  method TextEditorTool(p: Params, host: Host) returns (r: ToolResult, proposed: Option<string>)
    requires Paths.IsAbsolute(host.cwd)
    ensures Validate(p).Failure? ==> r == ToolResult(Validate(p).error, true) && proposed == None
    ensures Validate(p).Success? ==>
              var fsPath := Paths.ResolvePath(p.path, host.workspaceRoot, host.cwd);
              match Validate(p).value
              case ViewRequest(_, range) => r == ViewResult(fsPath, range, host) && proposed == None
              case ReplaceRequest(_, oldStr, newStr, skip) =>
                EditOutcome(r, proposed) == ReplaceResult(fsPath, oldStr, newStr, skip, host)
              case CreateRequest(_, fileText, skip) => EditOutcome(r, proposed) == CreateResult(fileText, skip, host)
              case InsertRequest(_, insertLine, newStr, skip) =>
                EditOutcome(r, proposed) == InsertResult(fsPath, insertLine, newStr, skip, host)
              case UndoRequest => r == UndoResult(host) && proposed == None
  {
    proposed := None;
    var checked := Validate(p);
    if checked.Failure? {
      return ToolResult(checked.error, true), None;
    }
    var fsPath := Paths.ResolvePath(p.path, host.workspaceRoot, host.cwd);
    match checked.value {
      case ViewRequest(_, range) =>
        r := ViewFile(fsPath, range, host);
      case ReplaceRequest(_, oldStr, newStr, skip) =>
        var o := ReplaceResult(fsPath, oldStr, newStr, skip, host);
        r, proposed := o.result, o.proposed;
      case CreateRequest(_, fileText, skip) =>
        var o := CreateResult(fileText, skip, host);
        r, proposed := o.result, o.proposed;
      case InsertRequest(_, insertLine, newStr, skip) =>
        var o := InsertResult(fsPath, insertLine, newStr, skip, host);
        r, proposed := o.result, o.proposed;
      case UndoRequest =>
        r := UndoResult(host);
    }
  }
}
