/** The part of JavaScript regular expressions that the approval engine
    builds from its glob patterns, and from command patterns free of other
    syntax characters than `*`: literal characters, `.` (any character but
    a line terminator), the class `[^/]` and the `*` repetition of a single
    class. `Parse` is `new RegExp(source)` for such
    sources, `FullMatch` is a test against `^source$`, `Search` is
    `regex.test(s)` without anchors and without flags. */
module Regex {
  import opened Strings

  datatype CharClass = Literal(c: char) | AnyButLineTerminator | NotSlash

  datatype Term = One(cls: CharClass) | Star(cls: CharClass)

  type Pattern = seq<Term>

  /** The characters `.` refuses when the `s` flag is absent. */
  predicate IsLineTerminator(c: char) {
    c == '\n' || c == '\r' || c == '\U{2028}' || c == '\U{2029}'
  }

  predicate ClassMatches(k: CharClass, c: char) {
    match k
    case Literal(d) => c == d
    case AnyButLineTerminator => !IsLineTerminator(c)
    case NotSlash => c != '/'
  }

  /** `source` opens with the class `[^/]`. */
  predicate OpensNotSlash(source: string) {
    |source| >= 4 && source[0] == '[' && source[1] == '^' && source[2] == '/' && source[3] == ']'
  }

  /** `new RegExp(source)`: `[^/]` and `.` are classes, a `*` repeats the
      class before it and every other character stands for itself. */
  function Parse(source: string): Pattern
    decreases |source|
  {
    if source == [] then []
    else
      var cls := if OpensNotSlash(source) then NotSlash
                 else if source[0] == '.' then AnyButLineTerminator
                 else Literal(source[0]);
      var rest := if OpensNotSlash(source) then source[4..] else source[1..];
      if |rest| > 0 && rest[0] == '*' then [Star(cls)] + Parse(rest[1..])
      else [One(cls)] + Parse(rest)
  }

  /** The pattern made of the characters of `a`, each standing for itself. */
  function Literals(a: string): (p: Pattern)
    ensures |p| == |a|
    ensures forall k :: 0 <= k < |a| ==> p[k] == One(Literal(a[k]))
  {
    if a == [] then [] else [One(Literal(a[0]))] + Literals(a[1..])
  }

  /** `p` matches all of `s`. */
  predicate FullMatch(p: Pattern, s: string)
    decreases |p| + |s|
  {
    if p == [] then s == []
    else match p[0]
      case One(k) => |s| > 0 && ClassMatches(k, s[0]) && FullMatch(p[1..], s[1..])
      case Star(k) =>
        FullMatch(p[1..], s) || (|s| > 0 && ClassMatches(k, s[0]) && FullMatch(p, s[1..]))
  }

  /** `p` matches some prefix of `s`. */
  predicate PrefixMatch(p: Pattern, s: string)
    decreases |p| + |s|
  {
    if p == [] then true
    else match p[0]
      case One(k) => |s| > 0 && ClassMatches(k, s[0]) && PrefixMatch(p[1..], s[1..])
      case Star(k) =>
        PrefixMatch(p[1..], s) || (|s| > 0 && ClassMatches(k, s[0]) && PrefixMatch(p, s[1..]))
  }

  /** `p` matches somewhere in `s`, trying the start positions from the left. */
  predicate Search(p: Pattern, s: string)
    decreases |s|
  {
    PrefixMatch(p, s) || (|s| > 0 && Search(p, s[1..]))
  }

  /** A prefix match is a full match of some prefix. */
  lemma {:induction false} PrefixMatchIffFullOfPrefix(p: Pattern, s: string)
    ensures PrefixMatch(p, s) <==> exists j :: 0 <= j <= |s| && FullMatch(p, s[..j])
    decreases |p| + |s|
  {
    if p == [] {
      assert FullMatch(p, s[..0]);
    } else {
      if |s| > 0 {
        PrefixMatchIffFullOfPrefix(p[1..], s[1..]);
        PrefixMatchIffFullOfPrefix(p, s[1..]);
      }
      PrefixMatchIffFullOfPrefix(p[1..], s);
      if PrefixMatch(p, s) {
        match p[0]
        case One(k) =>
          var j :| 0 <= j <= |s[1..]| && FullMatch(p[1..], s[1..][..j]);
          assert s[..j + 1][1..] == s[1..][..j];
          assert FullMatch(p, s[..j + 1]);
        case Star(k) =>
          if PrefixMatch(p[1..], s) {
            var j :| 0 <= j <= |s| && FullMatch(p[1..], s[..j]);
            assert FullMatch(p, s[..j]);
          } else {
            var j :| 0 <= j <= |s[1..]| && FullMatch(p, s[1..][..j]);
            assert s[..j + 1][1..] == s[1..][..j];
            assert FullMatch(p, s[..j + 1]);
          }
      }
      if exists j :: 0 <= j <= |s| && FullMatch(p, s[..j]) {
        var j :| 0 <= j <= |s| && FullMatch(p, s[..j]);
        match p[0]
        case One(k) =>
          assert s[..j][1..] == s[1..][..j - 1];
        case Star(k) =>
          if !FullMatch(p[1..], s[..j]) {
            assert s[..j][1..] == s[1..][..j - 1];
          }
      }
    }
  }

  /** `regex.test(s)` holds exactly when `p` matches some substring of `s`. */
  lemma {:induction false} SearchIffSomeSubstring(p: Pattern, s: string)
    ensures Search(p, s) <==> exists i, j :: 0 <= i <= j <= |s| && FullMatch(p, s[i..j])
    decreases |s|
  {
    PrefixMatchIffFullOfPrefix(p, s);
    if |s| > 0 {
      SearchIffSomeSubstring(p, s[1..]);
    }
    if Search(p, s) {
      if PrefixMatch(p, s) {
        var j :| 0 <= j <= |s| && FullMatch(p, s[..j]);
        assert s[0..j] == s[..j];
      } else {
        var i, j :| 0 <= i <= j <= |s[1..]| && FullMatch(p, s[1..][i..j]);
        assert s[1..][i..j] == s[i + 1..j + 1];
      }
    }
    if exists i, j :: 0 <= i <= j <= |s| && FullMatch(p, s[i..j]) {
      var i, j :| 0 <= i <= j <= |s| && FullMatch(p, s[i..j]);
      if i == 0 {
        assert s[..j] == s[i..j];
      } else {
        assert s[1..][i - 1..j - 1] == s[i..j];
      }
    }
  }

  /** A match of a prefix of `s[i..]` is found by the search. */
  lemma {:induction false} SearchFindsAt(p: Pattern, s: string, i: nat)
    requires i <= |s| && PrefixMatch(p, s[i..])
    ensures Search(p, s)
    decreases i
  {
    if i > 0 {
      assert s[1..][i - 1..] == s[i..];
      SearchFindsAt(p, s[1..], i - 1);
    }
  }

  /** A pattern of literals matches exactly the string it spells. */
  lemma {:induction false} LiteralsMatchExactly(a: string, s: string)
    ensures FullMatch(Literals(a), s) <==> s == a
    decreases |a|
  {
    if a != [] {
      var p := Literals(a);
      assert p[1..] == Literals(a[1..]);
      if |s| > 0 {
        LiteralsMatchExactly(a[1..], s[1..]);
        assert s == [s[0]] + s[1..];
        assert a == [a[0]] + a[1..];
      }
    }
  }

  /** A pattern of literals matches a prefix of `s` exactly when `s` starts
      with the string it spells. */
  lemma {:induction false} LiteralsPrefix(a: string, s: string)
    ensures PrefixMatch(Literals(a), s) <==> StartsWith(s, a)
    decreases |a|
  {
    if a != [] {
      var p := Literals(a);
      assert p[1..] == Literals(a[1..]);
      if |s| > 0 {
        LiteralsPrefix(a[1..], s[1..]);
        if |s| >= |a| {
          assert s[..|a|] == [s[0]] + s[1..][..|a| - 1];
        }
        assert a == [a[0]] + a[1..];
      }
    }
  }

  /** `.*` matches exactly the strings without a line terminator. */
  lemma {:induction false} AnyStarMatches(s: string)
    ensures FullMatch([Star(AnyButLineTerminator)], s) <==>
            forall k :: 0 <= k < |s| ==> !IsLineTerminator(s[k])
    decreases |s|
  {
    var p := [Star(AnyButLineTerminator)];
    assert p[1..] == [];
    if |s| > 0 {
      AnyStarMatches(s[1..]);
      assert forall k :: 1 <= k < |s| ==> s[1..][k - 1] == s[k];
    }
  }

  /** Literals followed by more of the pattern: the literal part must be a
      prefix and the rest must match what follows it. */
  lemma {:induction false} LiteralsThenFull(a: string, q: Pattern, s: string)
    ensures FullMatch(Literals(a) + q, s) <==> StartsWith(s, a) && FullMatch(q, s[|a|..])
    decreases |a|
  {
    if a != [] {
      var p := Literals(a) + q;
      assert p[1..] == Literals(a[1..]) + q;
      if |s| > 0 {
        LiteralsThenFull(a[1..], q, s[1..]);
        if |s| >= |a| {
          assert s[1..][|a| - 1..] == s[|a|..];
          assert s[1..][..|a| - 1] == s[1..|a|];
          assert s[..|a|] == [s[0]] + s[1..|a|];
        }
        assert a == [a[0]] + a[1..];
      }
    } else {
      assert Literals(a) + q == q;
    }
  }

  /** A JavaScript regular expression syntax character, which outside a
      class does not stand for itself. */
  predicate SyntaxCharacter(c: char) {
    c == '\\' || c == '^' || c == '$' || c == '.' || c == '*' || c == '+' || c == '?' ||
    c == '(' || c == ')' || c == '[' || c == ']' || c == '{' || c == '}' || c == '|'
  }

  /** A source without syntax characters: JavaScript reads it as literal
      characters, and so does `Parse`. */
  predicate Plain(a: string) {
    forall k :: 0 <= k < |a| ==> !SyntaxCharacter(a[k])
  }

  lemma {:induction false} ParsePlainPrefix(a: string, b: string)
    requires Plain(a)
    requires b == [] || b[0] != '*'
    ensures Parse(a + b) == Literals(a) + Parse(b)
    decreases |a|
  {
    if a != [] {
      var src := a + b;
      assert src[0] == a[0] && !OpensNotSlash(src);
      assert src[1..] == a[1..] + b;
      ParsePlainPrefix(a[1..], b);
      assert Literals(a) == [One(Literal(a[0]))] + Literals(a[1..]);
    } else {
      assert a + b == b;
    }
  }

  /** The pattern `Parse` reads from a source without `*` or `[`: a `.` is
      the any-character class, every other character a literal. */
  function SourcePattern(a: string): (p: Pattern)
    ensures |p| == |a|
    ensures forall k :: 0 <= k < |a| ==>
              p[k] == One(if a[k] == '.' then AnyButLineTerminator else Literal(a[k]))
  {
    if a == [] then [] else [One(if a[0] == '.' then AnyButLineTerminator else Literal(a[0]))] + SourcePattern(a[1..])
  }

  predicate StarFree(a: string) {
    forall k :: 0 <= k < |a| ==> a[k] != '*' && a[k] != '['
  }

  lemma {:induction false} ParseStarFree(a: string, b: string)
    requires StarFree(a)
    requires b == [] || b[0] != '*'
    ensures Parse(a + b) == SourcePattern(a) + Parse(b)
    decreases |a|
  {
    if a != [] {
      var src := a + b;
      assert src[0] == a[0] && !OpensNotSlash(src);
      assert src[1..] == a[1..] + b;
      ParseStarFree(a[1..], b);
      assert SourcePattern(a) == [SourcePattern(a)[0]] + SourcePattern(a[1..]);
    } else {
      assert a + b == b;
    }
  }

  /** A source pattern matches the very characters it was read from: a `.`
      matches the character `.` itself. */
  lemma {:induction false} SourcePatternThen(a: string, q: Pattern, t: string)
    requires PrefixMatch(q, t)
    ensures PrefixMatch(SourcePattern(a) + q, a + t)
    decreases |a|
  {
    if a != [] {
      var p := SourcePattern(a) + q;
      assert p[1..] == SourcePattern(a[1..]) + q;
      assert (a + t)[0] == a[0] && ClassMatches(SourcePattern(a)[0].cls, a[0]);
      assert (a + t)[1..] == a[1..] + t;
      SourcePatternThen(a[1..], q, t);
    } else {
      assert SourcePattern(a) + q == q && a + t == t;
    }
  }

  /** The same, except that the first character of the source is a `.`,
      which matches any character other than a line terminator. */
  lemma SourcePatternDotThen(a: string, c: char, q: Pattern, t: string)
    requires !IsLineTerminator(c)
    requires PrefixMatch(q, t)
    ensures PrefixMatch(SourcePattern(['.'] + a) + q, [c] + a + t)
  {
    var p := SourcePattern(['.'] + a) + q;
    assert (['.'] + a)[1..] == a;
    assert p[0] == One(AnyButLineTerminator);
    assert p[1..] == SourcePattern(a) + q;
    assert ([c] + a + t)[1..] == a + t;
    SourcePatternThen(a, q, t);
  }

  /** Reading `.` followed by a source that does not start with `*`. */
  lemma ParseDot(b: string)
    requires b == [] || b[0] != '*'
    ensures Parse(['.'] + b) == [One(AnyButLineTerminator)] + Parse(b)
  {
    var src := ['.'] + b;
    assert src[0] == '.' && !OpensNotSlash(src) && src[1..] == b;
  }

  /** Reading `.*` followed by a source that does not start with `*`. */
  lemma ParseDotStar(b: string)
    requires b == [] || b[0] != '*'
    ensures Parse(".*" + b) == [Star(AnyButLineTerminator)] + Parse(b)
  {
    var src := ".*" + b;
    assert src[0] == '.' && !OpensNotSlash(src);
    assert src[1..][0] == '*' && src[1..][1..] == b;
  }

  /** Reading `[^/]*` followed by a source that does not start with `*`. */
  lemma ParseNotSlashStar(b: string)
    requires b == [] || b[0] != '*'
    ensures Parse("[^/]*" + b) == [Star(NotSlash)] + Parse(b)
  {
    var src := "[^/]*" + b;
    assert OpensNotSlash(src);
    assert src[4..][0] == '*' && src[4..][1..] == b;
  }

  /** One term that takes the first character, then the rest. */
  lemma PrefixMatchOne(k: CharClass, q: Pattern, c: char, u: string)
    requires ClassMatches(k, c) && PrefixMatch(q, u)
    ensures PrefixMatch([One(k)] + q, [c] + u)
  {
    assert ([One(k)] + q)[1..] == q;
    assert ([c] + u)[1..] == u;
  }

  /** A starred term may take nothing. */
  lemma PrefixMatchStarSkip(k: CharClass, q: Pattern, u: string)
    requires PrefixMatch(q, u)
    ensures PrefixMatch([Star(k)] + q, u)
  {
    assert ([Star(k)] + q)[1..] == q;
  }

  /** Two terms in front of a pattern, one at a time or together. */
  lemma PrependTwo(a: Term, b: Term, p: Pattern)
    ensures [a] + ([b] + p) == [a, b] + p
  {
  }

  lemma {:induction false} SourcePatternAppend(a: string, b: string)
    ensures SourcePattern(a + b) == SourcePattern(a) + SourcePattern(b)
    decreases |a|
  {
    if a == [] {
      assert a + b == b;
    } else {
      assert (a + b)[0] == a[0] && (a + b)[1..] == a[1..] + b;
      SourcePatternAppend(a[1..], b);
    }
  }

  /** A class that admits `d`, then any run of non-slashes, matches `d`
      followed by anything. */
  lemma AnyThenNotSlashes(d: char, t: string)
    requires !IsLineTerminator(d)
    ensures PrefixMatch([One(AnyButLineTerminator), Star(NotSlash)], [d] + t)
  {
    var q := [One(AnyButLineTerminator), Star(NotSlash)];
    assert q[1..] == [Star(NotSlash)] && q[1..][1..] == [];
    assert ([d] + t)[1..] == t;
  }

  // ----- literals a match needs -----

  /** The characters that `Parse` may read as part of a class or of a
      repetition rather than as a literal of their own. */
  predicate Structural(c: char) {
    c == '.' || c == '*' || c == '[' || c == '^' || c == '/' || c == ']'
  }

  /** A character that is not structural and not repeated by a `*` after it
      is one literal term of the pattern. */
  lemma {:induction false} ParseKeepsLiteral(src: string, k: nat)
    requires k < |src| && !Structural(src[k])
    requires k + 1 == |src| || src[k + 1] != '*'
    ensures One(Literal(src[k])) in Parse(src)
    decreases |src|
  {
    var ons := OpensNotSlash(src);
    var rest := if ons then src[4..] else src[1..];
    var starred := |rest| > 0 && rest[0] == '*';
    var d := if starred then |src| - |rest| + 1 else |src| - |rest|;
    assert ons ==> Structural(src[0]) && Structural(src[1]) && Structural(src[2]) && Structural(src[3]);
    assert ons && starred ==> src[4] == '*';
    assert !ons && starred ==> src[1] == '*';
    if k == 0 {
      assert !ons && src[0] != '.' && !starred;
      assert Parse(src) == [One(Literal(src[0]))] + Parse(rest);
    } else {
      assert k >= d;
      var tail := src[d..];
      assert tail == (if starred then rest[1..] else rest);
      assert tail[k - d] == src[k];
      assert k + 1 < |src| ==> tail[k - d + 1] == src[k + 1];
      ParseKeepsLiteral(tail, k - d);
      assert Parse(src)[1..] == Parse(tail);
    }
  }

  /** A pattern with a literal term matches only strings holding that
      character. */
  lemma {:induction false} PrefixMatchNeedsLiteral(p: Pattern, s: string, c: char)
    requires One(Literal(c)) in p
    ensures PrefixMatch(p, s) ==> c in s
    decreases |p| + |s|
  {
    assert p == [p[0]] + p[1..];
    if |s| > 0 {
      assert s == [s[0]] + s[1..];
    }
    if p[0] != One(Literal(c)) {
      assert One(Literal(c)) in p[1..];
      match p[0]
      case One(k) =>
        if |s| > 0 {
          PrefixMatchNeedsLiteral(p[1..], s[1..], c);
        }
      case Star(k) =>
        PrefixMatchNeedsLiteral(p[1..], s, c);
        if |s| > 0 {
          PrefixMatchNeedsLiteral(p, s[1..], c);
        }
    }
  }

  /** ... and is found only in strings holding that character. */
  lemma {:induction false} SearchNeedsLiteral(p: Pattern, s: string, c: char)
    requires One(Literal(c)) in p
    ensures Search(p, s) ==> c in s
    decreases |s|
  {
    PrefixMatchNeedsLiteral(p, s, c);
    if |s| > 0 {
      SearchNeedsLiteral(p, s[1..], c);
      assert s == [s[0]] + s[1..];
    }
  }

  /** Any character, a run of non-slashes and a slash are found only in a
      string with a slash after its first character. */
  lemma {:induction false} SearchNeedsInnerSlash(q: Pattern, s: string)
    ensures Search([One(AnyButLineTerminator), Star(NotSlash), One(Literal('/'))] + q, s) ==>
            |s| > 0 && '/' in s[1..]
    decreases |s|
  {
    var p := [One(AnyButLineTerminator), Star(NotSlash), One(Literal('/'))] + q;
    if |s| > 0 {
      assert p[1..] == [Star(NotSlash), One(Literal('/'))] + q;
      assert One(Literal('/')) in p[1..];
      PrefixMatchNeedsLiteral(p[1..], s[1..], '/');
      SearchNeedsInnerSlash(q, s[1..]);
      if |s| > 1 {
        assert s[1..] == [s[1]] + s[1..][1..];
      }
    }
  }

  /** A slash not repeated by a `*` is a literal slash term. */
  lemma ParseSlash(r: string)
    requires |r| >= 2 && r[0] == '/' && r[1] != '*'
    ensures Parse(r) == [One(Literal('/'))] + Parse(r[1..])
  {
    assert !OpensNotSlash(r);
  }
}
