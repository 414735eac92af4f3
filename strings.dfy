/** The JavaScript string operations the bridge relies on, as functions on
    `seq<char>`: `startsWith`, `includes`, `split` and `join` with a string
    separator, `replaceAll` with a string needle, and `trim`. */
module Strings {

  /** `s.startsWith(p)`. */
  predicate StartsWith(s: string, p: string) {
    |p| <= |s| && s[..|p|] == p
  }

  /** `s.includes(t)`, computed by scanning from the left. */
  predicate Contains(s: string, t: string)
    decreases |s|
  {
    StartsWith(s, t) || (|s| > 0 && Contains(s[1..], t))
  }

  /** `t` occurs in `s` at index `i`. */
  ghost predicate OccursAt(s: string, t: string, i: int) {
    0 <= i && i + |t| <= |s| && s[i..i + |t|] == t
  }

  /** The scan finds an occurrence exactly when there is one. */
  lemma ContainsIffOccurs(s: string, t: string)
    ensures Contains(s, t) <==> exists i :: OccursAt(s, t, i)
  {
    if Contains(s, t) {
      ContainsOccurs(s, t);
    }
    if exists i :: OccursAt(s, t, i) {
      var i :| OccursAt(s, t, i);
      OccursContains(s, t, i);
    }
  }

  lemma {:induction false} ContainsOccurs(s: string, t: string)
    requires Contains(s, t)
    ensures exists i :: OccursAt(s, t, i)
    decreases |s|
  {
    if StartsWith(s, t) {
      assert OccursAt(s, t, 0);
    } else {
      ContainsOccurs(s[1..], t);
      var i :| OccursAt(s[1..], t, i);
      assert s[1..][i..i + |t|] == s[i + 1..i + 1 + |t|];
      assert OccursAt(s, t, i + 1);
    }
  }

  lemma {:induction false} OccursContains(s: string, t: string, i: int)
    requires OccursAt(s, t, i)
    ensures Contains(s, t)
    decreases i
  {
    if i == 0 {
      assert StartsWith(s, t);
    } else {
      assert s[1..][i - 1..i - 1 + |t|] == s[i..i + |t|];
      OccursContains(s[1..], t, i - 1);
    }
  }

  /** `s.split(sep)` for a non-empty separator: the pieces between the
      occurrences of `sep`, found from the left without overlap. */
  function Split(s: string, sep: string): (parts: seq<string>)
    requires |sep| > 0
    ensures |parts| >= 1
    decreases |s|
  {
    if |s| < |sep| then [s]
    else if s[..|sep|] == sep then [""] + Split(s[|sep|..], sep)
    else
      var rest := Split(s[1..], sep);
      [[s[0]] + rest[0]] + rest[1..]
  }

  /** `parts.join(sep)`. */
  function Join(parts: seq<string>, sep: string): string
    decreases |parts|
  {
    if |parts| == 0 then ""
    else if |parts| == 1 then parts[0]
    else parts[0] + sep + Join(parts[1..], sep)
  }

  /** `s.replaceAll(needle, replacement)` for a non-empty needle: every occurrence,
      found from the left without overlap, is replaced. */
  function ReplaceAll(s: string, needle: string, replacement: string): string
    requires |needle| > 0
    decreases |s|
  {
    if |s| < |needle| then s
    else if s[..|needle|] == needle then replacement + ReplaceAll(s[|needle|..], needle, replacement)
    else [s[0]] + ReplaceAll(s[1..], needle, replacement)
  }

  /** Joining pieces whose first piece gained a leading character. */
  lemma JoinConsFirst(c: char, parts: seq<string>, sep: string)
    requires |parts| >= 1
    ensures Join([[c] + parts[0]] + parts[1..], sep) == [c] + Join(parts, sep)
  {
    var ps := [[c] + parts[0]] + parts[1..];
    if |parts| > 1 {
      assert ps[1..] == parts[1..];
    }
  }

  /** `replaceAll` is `split` followed by `join` with the replacement. */
  lemma {:induction false} ReplaceAllIsSplitJoin(s: string, needle: string, replacement: string)
    requires |needle| > 0
    ensures ReplaceAll(s, needle, replacement) == Join(Split(s, needle), replacement)
    decreases |s|
  {
    if |s| < |needle| {
    } else if s[..|needle|] == needle {
      ReplaceAllIsSplitJoin(s[|needle|..], needle, replacement);
      var rest := Split(s[|needle|..], needle);
      assert ([""] + rest)[1..] == rest;
    } else {
      ReplaceAllIsSplitJoin(s[1..], needle, replacement);
      JoinConsFirst(s[0], Split(s[1..], needle), replacement);
    }
  }

  /** Splitting and joining with the same separator gives the string back. */
  lemma {:induction false} JoinSplit(s: string, sep: string)
    requires |sep| > 0
    ensures Join(Split(s, sep), sep) == s
    decreases |s|
  {
    if |s| < |sep| {
    } else if s[..|sep|] == sep {
      var rest := Split(s[|sep|..], sep);
      assert Split(s, sep) == [""] + rest;
      assert ([""] + rest)[1..] == rest;
      assert Join([""] + rest, sep) == "" + sep + Join(rest, sep);
      JoinSplit(s[|sep|..], sep);
      assert s == s[..|sep|] + s[|sep|..];
    } else {
      var rest := Split(s[1..], sep);
      assert Split(s, sep) == [[s[0]] + rest[0]] + rest[1..];
      JoinSplit(s[1..], sep);
      JoinConsFirst(s[0], rest, sep);
      assert s == [s[0]] + s[1..];
    }
  }

  /** The separator occurs in `s` exactly when `split` yields more than one piece. */
  lemma {:induction false} SplitMoreThanOneIffContains(s: string, sep: string)
    requires |sep| > 0
    ensures |Split(s, sep)| > 1 <==> Contains(s, sep)
    decreases |s|
  {
    if |s| < |sep| {
      assert !StartsWith(s, sep);
      if |s| > 0 {
        SplitMoreThanOneIffContains(s[1..], sep);
      }
    } else if s[..|sep|] == sep {
    } else {
      SplitMoreThanOneIffContains(s[1..], sep);
    }
  }

  /** Replacing a needle that does not occur changes nothing. */
  lemma {:induction false} ReplaceAllAbsent(s: string, needle: string, replacement: string)
    requires |needle| > 0 && !Contains(s, needle)
    ensures ReplaceAll(s, needle, replacement) == s
    decreases |s|
  {
    if |s| >= |needle| {
      ReplaceAllAbsent(s[1..], needle, replacement);
    }
  }

  /** Every piece of a split on a one-character separator is free of it. */
  lemma {:induction false} SplitPiecesFree(s: string, c: char)
    ensures forall k :: 0 <= k < |Split(s, [c])| ==> c !in Split(s, [c])[k]
    decreases |s|
  {
    if |s| >= 1 {
      SplitPiecesFree(s[1..], c);
    }
  }

  /** A string without the separator's first character is one piece. */
  lemma {:induction false} SplitFree(a: string, sep: string)
    requires |sep| > 0 && sep[0] !in a
    ensures Split(a, sep) == [a]
    decreases |a|
  {
    if |a| >= |sep| {
      assert a[..|sep|][0] == a[0];
      SplitFree(a[1..], sep);
      assert a == [a[0]] + a[1..];
    }
  }

  /** A piece without the separator's first character, followed by the
      separator, splits off first. */
  lemma {:induction false} SplitAfterPiece(a: string, sep: string, rest: string)
    requires |sep| > 0 && sep[0] !in a
    ensures Split(a + sep + rest, sep) == [a] + Split(rest, sep)
    decreases |a|
  {
    var s := a + sep + rest;
    if |a| == 0 {
      assert s[..|sep|] == sep;
      assert s[|sep|..] == rest;
    } else {
      assert s[0] == a[0] && s[..|sep|][0] != sep[0];
      assert s[1..] == a[1..] + sep + rest;
      SplitAfterPiece(a[1..], sep, rest);
      assert [a[0]] + a[1..] == a;
    }
  }

  /** Joining pieces that do not hold the separator's first character and
      splitting again gives the pieces back: `split` and `join` are inverse
      on such pieces. */
  lemma {:induction false} SplitJoin(parts: seq<string>, sep: string)
    requires |parts| >= 1 && |sep| > 0
    requires forall k :: 0 <= k < |parts| ==> sep[0] !in parts[k]
    ensures Split(Join(parts, sep), sep) == parts
    decreases |parts|
  {
    if |parts| == 1 {
      SplitFree(parts[0], sep);
    } else {
      SplitJoin(parts[1..], sep);
      SplitAfterPiece(parts[0], sep, Join(parts[1..], sep));
      assert [parts[0]] + parts[1..] == parts;
    }
  }

  /** Splitting on one character, one character at a time. */
  lemma SplitFirst(x: string, d: char, c: char)
    ensures d == c ==> Split([d] + x, [c]) == [""] + Split(x, [c])
    ensures d != c ==> Split([d] + x, [c]) == [[d] + Split(x, [c])[0]] + Split(x, [c])[1..]
  {
    var s := [d] + x;
    assert s[..1] == [d] && s[1..] == x && s[0] == d;
  }

  // The piece lists of one step of SplitConcat, as plain sequences.
  lemma SplitStep(d: char, c: char, tail: seq<string>, bs: seq<string>, whole: seq<string>, part: seq<string>)
    requires |tail| >= 1
    requires d == c ==> whole == [""] + (tail + bs) && part == [""] + tail
    requires d != c ==> whole == [[d] + (tail + bs)[0]] + (tail + bs)[1..] && part == [[d] + tail[0]] + tail[1..]
    ensures whole == part + bs
  {
    if d != c {
      assert (tail + bs)[0] == tail[0] && (tail + bs)[1..] == tail[1..] + bs;
    }
  }

  /** Splitting on one character distributes over an occurrence of it. */
  lemma {:induction false} SplitConcat(a: string, c: char, b: string)
    ensures Split(a + [c] + b, [c]) == Split(a, [c]) + Split(b, [c])
    decreases |a|
  {
    var bs := Split(b, [c]);
    if a == [] {
      SplitFirst(b, c, c);
      assert a + [c] + b == [c] + b;
      assert Split(a, [c]) == [""];
    } else {
      var x := a[1..];
      SplitConcat(x, c, b);
      var tail := Split(x, [c]);
      SplitFirst(x + [c] + b, a[0], c);
      SplitFirst(x, a[0], c);
      assert a + [c] + b == [a[0]] + (x + [c] + b);
      assert a == [a[0]] + x;
      SplitStep(a[0], c, tail, bs, Split(a + [c] + b, [c]), Split(a, [c]));
    }
  }

  /** Join distributes over concatenation of non-empty piece lists. */
  lemma {:induction false} JoinAppend(xs: seq<string>, ys: seq<string>, sep: string)
    requires |xs| >= 1 && |ys| >= 1
    ensures Join(xs + ys, sep) == Join(xs, sep) + sep + Join(ys, sep)
    decreases |xs|
  {
    if |xs| == 1 {
      assert (xs + ys)[1..] == ys;
    } else {
      JoinAppend(xs[1..], ys, sep);
      assert (xs + ys)[1..] == xs[1..] + ys;
    }
  }

  /** A prefix without the needle's first character is copied unchanged. */
  lemma {:induction false} ReplaceAllFreePrefix(a: string, b: string, needle: string, replacement: string)
    requires |needle| > 0 && needle[0] !in a
    ensures ReplaceAll(a + b, needle, replacement) == a + ReplaceAll(b, needle, replacement)
    decreases |a|
  {
    if a != [] {
      var s := a + b;
      assert s[0] == a[0];
      if |s| >= |needle| {
        assert s[..|needle|][0] == a[0];
      }
      assert s[1..] == a[1..] + b;
      ReplaceAllFreePrefix(a[1..], b, needle, replacement);
      assert [a[0]] + a[1..] == a;
    } else {
      assert a + b == b;
    }
  }

  /** A string without the needle's first character is left unchanged. */
  lemma ReplaceAllFree(s: string, needle: string, replacement: string)
    requires |needle| > 0 && needle[0] !in s
    ensures ReplaceAll(s, needle, replacement) == s
  {
    ReplaceAllFreePrefix(s, "", needle, replacement);
    assert s + "" == s;
  }

  /** An occurrence of the needle at the start is replaced. */
  lemma ReplaceAllAtStart(b: string, needle: string, replacement: string)
    requires |needle| > 0
    ensures ReplaceAll(needle + b, needle, replacement) == replacement + ReplaceAll(b, needle, replacement)
  {
    var s := needle + b;
    assert s[..|needle|] == needle && s[|needle|..] == b;
  }

  /** A single occurrence of the needle, between texts that cannot start
      one, is replaced. */
  lemma ReplaceAllOnce(a: string, b: string, needle: string, replacement: string)
    requires |needle| > 0 && needle[0] !in a && needle[0] !in b
    ensures ReplaceAll(a + needle + b, needle, replacement) == a + replacement + b
  {
    assert a + needle + b == a + (needle + b);
    ReplaceAllFreePrefix(a, needle + b, needle, replacement);
    ReplaceAllAtStart(b, needle, replacement);
    ReplaceAllFree(b, needle, replacement);
    assert a + (replacement + b) == a + replacement + b;
  }

  /** The same, for texts already spelled out whole. */
  lemma ReplaceAllOnceIn(s: string, a: string, b: string, needle: string, replacement: string, t: string)
    requires |needle| > 0 && needle[0] !in a && needle[0] !in b
    requires s == a + needle + b && t == a + replacement + b
    ensures ReplaceAll(s, needle, replacement) == t
  {
    ReplaceAllOnce(a, b, needle, replacement);
  }

  /** Text appended to the last piece is appended to the join. */
  lemma {:induction false} JoinExtendLast(parts: seq<string>, t: string, sep: string)
    requires |parts| >= 1
    ensures Join(parts[..|parts| - 1] + [parts[|parts| - 1] + t], sep) == Join(parts, sep) + t
    decreases |parts|
  {
    var ps := parts[..|parts| - 1] + [parts[|parts| - 1] + t];
    if |parts| > 1 {
      assert ps[0] == parts[0];
      assert ps[1..] == parts[1..][..|parts| - 2] + [parts[1..][|parts| - 2] + t];
      JoinExtendLast(parts[1..], t, sep);
    }
  }

  /** The characters JavaScript's `trim` removes: WhiteSpace and
      LineTerminator of ECMAScript section 12.2 and 12.3. */
  predicate IsWhiteSpace(c: char) {
    c == '\t' || c == '\n' || c == '\U{000B}' || c == '\U{000C}' || c == '\r' || c == ' ' ||
    c == '\U{00A0}' || c == '\U{1680}' || ('\U{2000}' <= c <= '\U{200A}') ||
    c == '\U{2028}' || c == '\U{2029}' || c == '\U{202F}' || c == '\U{205F}' ||
    c == '\U{3000}' || c == '\U{FEFF}'
  }

  function TrimStart(s: string): (r: string)
    ensures |r| <= |s| && r == s[|s| - |r|..]
    ensures r == "" || !IsWhiteSpace(r[0])
    ensures forall k :: 0 <= k < |s| - |r| ==> IsWhiteSpace(s[k])
    decreases |s|
  {
    if |s| > 0 && IsWhiteSpace(s[0]) then TrimStart(s[1..]) else s
  }

  function TrimEnd(s: string): (r: string)
    ensures |r| <= |s| && r == s[..|r|]
    ensures r == "" || !IsWhiteSpace(r[|r| - 1])
    ensures forall k :: |r| <= k < |s| ==> IsWhiteSpace(s[k])
    decreases |s|
  {
    if |s| > 0 && IsWhiteSpace(s[|s| - 1]) then TrimEnd(s[..|s| - 1]) else s
  }

  /** The part `r` that `TrimEnd` keeps of the part `t` that `TrimStart`
      keeps of `s` sits in `s` between white space only. */
  lemma TrimmedBetween(s: string, t: string, r: string)
    requires |t| <= |s| && t == s[|s| - |t|..] && forall k :: 0 <= k < |s| - |t| ==> IsWhiteSpace(s[k])
    requires |r| <= |t| && r == t[..|r|] && forall k :: |r| <= k < |t| ==> IsWhiteSpace(t[k])
    ensures var i := |s| - |t|;
            OccursAt(s, r, i) && (forall k :: 0 <= k < i ==> IsWhiteSpace(s[k])) &&
            (forall k :: i + |r| <= k < |s| ==> IsWhiteSpace(s[k]))
  {
    var i := |s| - |t|;
    assert s[i..i + |r|] == t[..|r|];
    forall k | i + |r| <= k < |s| ensures IsWhiteSpace(s[k]) {
      assert s[k] == t[k - i];
    }
  }

  /** `s.trim()`: the part of `s` between its leading and trailing white space. */
  function Trim(s: string): (r: string)
    ensures exists i :: OccursAt(s, r, i) && (forall k :: 0 <= k < i ==> IsWhiteSpace(s[k])) &&
                        (forall k :: i + |r| <= k < |s| ==> IsWhiteSpace(s[k]))
    ensures r == "" <==> forall k :: 0 <= k < |s| ==> IsWhiteSpace(s[k])
    ensures r != "" ==> !IsWhiteSpace(r[0]) && !IsWhiteSpace(r[|r| - 1])
  {
    var t := TrimStart(s);
    var r := TrimEnd(t);
    var i := |s| - |t|;
    TrimmedBetween(s, t, r);
    assert (forall k :: 0 <= k < |s| ==> IsWhiteSpace(s[k])) ==> t == "" by {
      if t != "" {
        assert s[i] == t[0];
      }
    }
    r
  }

  /** A middle part `y` that shares no character with the needle cannot be
      part of an occurrence, so the parts on either side of it are replaced
      on their own. */
  lemma {:induction false} ReplaceAllAround(u: string, y: string, w: string, needle: string, replacement: string)
    requires |needle| > 0 && y != []
    requires forall j :: 0 <= j < |needle| ==> needle[j] !in y
    ensures ReplaceAll(u + y + w, needle, replacement) ==
            ReplaceAll(u, needle, replacement) + y + ReplaceAll(w, needle, replacement)
    decreases |u|
  {
    var n := |needle|;
    if u == [] {
      assert u + y + w == y + w;
      assert needle[0] !in y;
      ReplaceAllFreePrefix(y, w, needle, replacement);
    } else if |u| >= n && u[..n] == needle {
      ReplaceAllAround(u[n..], y, w, needle, replacement);
      AroundMatch(u, y, w, needle, replacement);
    } else {
      assert y[0] in y;
      assert |u| < n ==> needle[|u|] != y[0];
      ReplaceAllAround(u[1..], y, w, needle, replacement);
      AroundSkip(u, y, w, needle, replacement);
    }
  }

  lemma AroundMatch(u: string, y: string, w: string, needle: string, replacement: string)
    requires |needle| > 0 && |u| >= |needle| && u[..|needle|] == needle
    requires ReplaceAll(u[|needle|..] + y + w, needle, replacement) ==
             ReplaceAll(u[|needle|..], needle, replacement) + y + ReplaceAll(w, needle, replacement)
    ensures ReplaceAll(u + y + w, needle, replacement) ==
            ReplaceAll(u, needle, replacement) + y + ReplaceAll(w, needle, replacement)
  {
    MatchTail(u, y, w, |needle|);
    ReplaceAllMatch(u + y + w, needle, replacement);
    ReplaceAllMatch(u, needle, replacement);
    PrefixAssoc(replacement, ReplaceAll(u[|needle|..], needle, replacement), y, ReplaceAll(w, needle, replacement));
  }

  lemma MatchTail(u: string, y: string, w: string, n: nat)
    requires n <= |u|
    ensures (u + y + w)[..n] == u[..n] && (u + y + w)[n..] == u[n..] + y + w
  {
  }

  lemma PrefixAssoc(p: string, a: string, y: string, b: string)
    ensures p + (a + y + b) == p + a + y + b
  {
  }

  /** An occurrence at the front is replaced, and the rest follows. */
  lemma ReplaceAllMatch(s: string, needle: string, replacement: string)
    requires |needle| > 0 && |s| >= |needle| && s[..|needle|] == needle
    ensures ReplaceAll(s, needle, replacement) == replacement + ReplaceAll(s[|needle|..], needle, replacement)
  {
  }

  lemma AroundSkip(u: string, y: string, w: string, needle: string, replacement: string)
    requires |needle| > 0 && u != [] && y != []
    requires |u| >= |needle| ==> u[..|needle|] != needle
    requires |u| < |needle| ==> needle[|u|] != y[0]
    requires ReplaceAll(u[1..] + y + w, needle, replacement) ==
             ReplaceAll(u[1..], needle, replacement) + y + ReplaceAll(w, needle, replacement)
    ensures ReplaceAll(u + y + w, needle, replacement) ==
            ReplaceAll(u, needle, replacement) + y + ReplaceAll(w, needle, replacement)
  {
    SkipWindow(u, y, w, needle);
    ConcatTail(u, y, w);
    ReplaceAllSkip(u + y + w, needle, replacement);
    ReplaceAllSkip(u, needle, replacement);
    ConsAssoc(u[0], ReplaceAll(u[1..], needle, replacement), y, ReplaceAll(w, needle, replacement));
  }

  lemma ConcatTail(u: string, y: string, w: string)
    requires u != []
    ensures (u + y + w)[0] == u[0] && (u + y + w)[1..] == u[1..] + y + w
  {
  }

  lemma ConsAssoc(c: char, a: string, y: string, b: string)
    ensures [c] + (a + y + b) == [c] + a + y + b
  {
  }

  /** Under the conditions of `AroundSkip`, no occurrence starts at the
      front of `u + y + w`. */
  lemma SkipWindow(u: string, y: string, w: string, needle: string)
    requires |needle| > 0 && u != [] && y != []
    requires |u| >= |needle| ==> u[..|needle|] != needle
    requires |u| < |needle| ==> needle[|u|] != y[0]
    ensures |u + y + w| >= |needle| ==> (u + y + w)[..|needle|] != needle
  {
    var n := |needle|;
    var s := u + y + w;
    if |s| >= n {
      if |u| >= n {
        assert s[..n] == u[..n];
      } else {
        assert s[..n][|u|] == y[0];
      }
    }
  }

  /** Where no occurrence starts, the first character is kept. */
  lemma ReplaceAllSkip(s: string, needle: string, replacement: string)
    requires |needle| > 0 && s != []
    requires |s| >= |needle| ==> s[..|needle|] != needle
    ensures ReplaceAll(s, needle, replacement) == [s[0]] + ReplaceAll(s[1..], needle, replacement)
  {
    if |s| < |needle| {
      assert ReplaceAll(s[1..], needle, replacement) == s[1..];
      assert s == [s[0]] + s[1..];
    }
  }

  // ----- replacement templates -----

  /** The text that replaces one occurrence of `matched` when the
      replacement is a string: ECMAScript's GetSubstitution for a search
      value that is itself a string, so without capture groups. `$$` stands
      for `$`, `$&` for the matched text, "$`" for the text before the
      occurrence and `$'` for the text after it; every other character, a
      `$` that starts none of these included, stands for itself. */
  function Substitution(template: string, matched: string, before: string, after: string): string
    decreases |template|
  {
    if template == [] then []
    else if template[0] == '$' && |template| >= 2 && template[1] == '$' then
      "$" + Substitution(template[2..], matched, before, after)
    else if template[0] == '$' && |template| >= 2 && template[1] == '&' then
      matched + Substitution(template[2..], matched, before, after)
    else if template[0] == '$' && |template| >= 2 && template[1] == '`' then
      before + Substitution(template[2..], matched, before, after)
    else if template[0] == '$' && |template| >= 2 && template[1] == '\'' then
      after + Substitution(template[2..], matched, before, after)
    else [template[0]] + Substitution(template[1..], matched, before, after)
  }

  /** `replaceAll` on the text `rest` that follows `before` in the whole
      string: occurrences are found from the left without overlap, and each
      one is replaced by its substitution, which sees the whole string on
      both sides of it. */
  function ReplaceAllFrom(before: string, rest: string, needle: string, template: string): string
    requires |needle| > 0
    decreases |rest|
  {
    if |rest| < |needle| then rest
    else if rest[..|needle|] == needle then
      Substitution(template, needle, before, rest[|needle|..]) +
      ReplaceAllFrom(before + needle, rest[|needle|..], needle, template)
    else [rest[0]] + ReplaceAllFrom(before + [rest[0]], rest[1..], needle, template)
  }

  /** `s.replaceAll(needle, template)` for a non-empty string needle and a
      string template, `$` patterns included. */
  function ReplaceAllExpanding(s: string, needle: string, template: string): string
    requires |needle| > 0
  {
    ReplaceAllFrom("", s, needle, template)
  }

  /** The same replacement read piece by piece: the pieces between
      occurrences kept as they are, and each occurrence replaced by the
      substitution that sees the text before it (`before`, then the pieces
      and occurrences so far) and the text after it. */
  function JoinSubstituted(before: string, pieces: seq<string>, needle: string, template: string): string
    requires |pieces| >= 1
    decreases |pieces|
  {
    if |pieces| == 1 then pieces[0]
    else
      pieces[0] + Substitution(template, needle, before + pieces[0], Join(pieces[1..], needle)) +
      JoinSubstituted(before + pieces[0] + needle, pieces[1..], needle, template)
  }

  /** What each pattern stands for. */
  lemma SubstitutionPatterns(matched: string, before: string, after: string, c: char)
    requires c != '$' && c != '&' && c != '`' && c != '\''
    ensures Substitution("$$", matched, before, after) == "$"
    ensures Substitution("$&", matched, before, after) == matched
    ensures Substitution("$`", matched, before, after) == before
    ensures Substitution("$'", matched, before, after) == after
    ensures Substitution(['$', c], matched, before, after) == ['$', c]
  {
    var t := ['$', c];
    assert t[1..] == [c] && t[1..][1..] == [];
    assert Substitution([c], matched, before, after) == [c];
  }

  /** A template without `$` stands for itself. */
  lemma {:induction false} SubstitutionPlain(template: string, matched: string, before: string, after: string)
    requires '$' !in template
    ensures Substitution(template, matched, before, after) == template
    decreases |template|
  {
    if template != [] {
      assert template[0] != '$';
      assert '$' !in template[1..] by {
        forall k | 0 <= k < |template[1..]| ensures template[1..][k] != '$' {
          assert template[1..][k] == template[k + 1];
        }
      }
      SubstitutionPlain(template[1..], matched, before, after);
      assert template == [template[0]] + template[1..];
    }
  }

  /** Joining substituted pieces whose first piece gained a leading character. */
  lemma JoinSubstitutedCons(c: char, before: string, parts: seq<string>, needle: string, template: string)
    requires |parts| >= 1
    ensures JoinSubstituted(before, [[c] + parts[0]] + parts[1..], needle, template) ==
            [c] + JoinSubstituted(before + [c], parts, needle, template)
  {
    var ps := [[c] + parts[0]] + parts[1..];
    if |parts| > 1 {
      assert ps[1..] == parts[1..];
      assert before + ps[0] == before + [c] + parts[0];
      assert before + ps[0] + needle == before + [c] + parts[0] + needle;
    }
  }

  /** `replaceAll` with a template replaces every occurrence by its own
      substitution and leaves the text between occurrences unchanged. */
  lemma {:induction false} ReplaceAllFromPieces(before: string, s: string, needle: string, template: string)
    requires |needle| > 0
    ensures ReplaceAllFrom(before, s, needle, template) == JoinSubstituted(before, Split(s, needle), needle, template)
    decreases |s|
  {
    if |s| < |needle| {
    } else if s[..|needle|] == needle {
      ReplaceAllFromPieces(before + needle, s[|needle|..], needle, template);
      PiecesAtMatch(before, s, needle, template);
    } else {
      ReplaceAllFromPieces(before + [s[0]], s[1..], needle, template);
      JoinSubstitutedCons(s[0], before, Split(s[1..], needle), needle, template);
    }
  }

  lemma PiecesAtMatch(before: string, s: string, needle: string, template: string)
    requires |needle| > 0 && |s| >= |needle| && s[..|needle|] == needle
    requires ReplaceAllFrom(before + needle, s[|needle|..], needle, template) ==
             JoinSubstituted(before + needle, Split(s[|needle|..], needle), needle, template)
    ensures ReplaceAllFrom(before, s, needle, template) == JoinSubstituted(before, Split(s, needle), needle, template)
  {
    var tail := s[|needle|..];
    JoinSplit(tail, needle);
    JoinSubstitutedEmptyFirst(before, Split(tail, needle), needle, template);
  }

  lemma JoinSubstitutedEmptyFirst(before: string, rest: seq<string>, needle: string, template: string)
    requires |rest| >= 1
    ensures JoinSubstituted(before, [""] + rest, needle, template) ==
            Substitution(template, needle, before, Join(rest, needle)) + JoinSubstituted(before + needle, rest, needle, template)
  {
    var ps := [""] + rest;
    assert ps[1..] == rest;
    assert before + ps[0] == before;
    assert before + ps[0] + needle == before + needle;
  }

  lemma ReplaceAllExpandingPieces(s: string, needle: string, template: string)
    requires |needle| > 0
    ensures ReplaceAllExpanding(s, needle, template) == JoinSubstituted("", Split(s, needle), needle, template)
  {
    ReplaceAllFromPieces("", s, needle, template);
  }

  /** Substituted pieces with a template without `$` are the pieces joined
      by the template. */
  lemma {:induction false} JoinSubstitutedPlain(before: string, pieces: seq<string>, needle: string, template: string)
    requires |pieces| >= 1 && '$' !in template
    ensures JoinSubstituted(before, pieces, needle, template) == Join(pieces, template)
    decreases |pieces|
  {
    if |pieces| > 1 {
      SubstitutionPlain(template, needle, before + pieces[0], Join(pieces[1..], needle));
      JoinSubstitutedPlain(before + pieces[0] + needle, pieces[1..], needle, template);
    }
  }

  /** Without `$` in the template, `replaceAll` is the literal replacement:
      `split` on the needle, then `join` with the template. */
  lemma ReplaceAllExpandingPlain(s: string, needle: string, template: string)
    requires |needle| > 0 && '$' !in template
    ensures ReplaceAllExpanding(s, needle, template) == Join(Split(s, needle), template)
    ensures ReplaceAllExpanding(s, needle, template) == ReplaceAll(s, needle, template)
  {
    ReplaceAllFromPieces("", s, needle, template);
    JoinSubstitutedPlain("", Split(s, needle), needle, template);
    ReplaceAllIsSplitJoin(s, needle, template);
  }
}
