/**
  The rewrite done by `replace_text`: Python's
  `re.sub(".*?default_selection\\s+\\d", replacement, content)`, modelled for this one
  pattern rather than through a general regular-expression engine.

  - `.` matches any character except a line feed, so the lazy prefix `.*?` never crosses a line.
  - `\s` is ASCII whitespace (space, tab, line feed, carriage return, vertical tab, form feed);
    `\s+` may therefore cross line breaks.
  - `\d` is one ASCII digit.
  - `re.sub` replaces every non-overlapping match, scanning left to right; text outside the
    matches is copied unchanged.
*/
module Substitution {
  import opened Common

  /** The keyword the pattern looks for. */
  const Keyword: string := "default_selection"

  /** ASCII `\s`: space, or one of tab, line feed, vertical tab, form feed, carriage return (codes 9 to 13). */
  predicate IsSpace(c: char) {
    c == ' ' || '\t' <= c <= '\r'
  }

  /** ASCII `\d`. */
  predicate IsDigit(c: char) {
    '0' <= c <= '9'
  }

  /**
    `\s+\d` matches at the start of `t`: one whitespace character followed either by a digit or
    by another match of `\s+\d`. Greedy `\s+` with backtracking needs nothing more, because a
    digit is never whitespace: the run in front of the digit is always the whole run.
  */
  predicate SpacesThenDigit(t: string)
    decreases |t|
  {
    |t| >= 2 && IsSpace(t[0]) && (IsDigit(t[1]) || SpacesThenDigit(t[1..]))
  }

  /** Length of that match: the whitespace run and the one digit after it. */
  function SpacesThenDigitLen(t: string): (n: nat)
    requires SpacesThenDigit(t)
    ensures 2 <= n <= |t|
    ensures IsDigit(t[n - 1])
    decreases |t|
  {
    if IsDigit(t[1]) then 2 else 1 + SpacesThenDigitLen(t[1..])
  }

  /** A run of `n >= 1` whitespace characters followed by a digit is a match of length `n + 1`. */
  lemma {:induction false} RunThenDigitMatches(u: string, n: nat)
    requires 1 <= n < |u|
    requires forall k :: 0 <= k < n ==> IsSpace(u[k])
    requires IsDigit(u[n])
    ensures SpacesThenDigit(u) && SpacesThenDigitLen(u) == n + 1
    decreases n
  {
    if n > 1 {
      assert IsSpace(u[1]) && !IsDigit(u[1]);
      forall k | 0 <= k < n - 1
        ensures IsSpace(u[1..][k])
      {
        assert u[1..][k] == u[k + 1];
      }
      assert u[1..][n - 1] == u[n];
      RunThenDigitMatches(u[1..], n - 1);
    }
  }

  /** Conversely, a match is whitespace up to its last character, which is a digit. */
  lemma {:induction false} MatchIsRunThenDigit(u: string)
    requires SpacesThenDigit(u)
    ensures forall k :: 0 <= k < SpacesThenDigitLen(u) - 1 ==> IsSpace(u[k])
    decreases |u|
  {
    if !IsDigit(u[1]) {
      MatchIsRunThenDigit(u[1..]);
      forall k | 1 <= k < SpacesThenDigitLen(u) - 1
        ensures IsSpace(u[k])
      {
        assert u[k] == u[1..][k - 1];
      }
    }
  }

  /** `default_selection\s+\d` matches at the very start of `t`. */
  predicate DirectiveAt(t: string) {
    && |t| >= |Keyword|
    && t[..|Keyword|] == Keyword
    && SpacesThenDigit(t[|Keyword|..])
  }

  /** Length of that match: the keyword, the whole whitespace run and exactly one digit. */
  function DirectiveLen(t: string): (n: nat)
    requires DirectiveAt(t)
    ensures |Keyword| + 2 <= n <= |t|
    ensures IsDigit(t[n - 1])
  {
    |Keyword| + SpacesThenDigitLen(t[|Keyword|..])
  }

  /**
    The keyword, `n >= 1` whitespace characters and a digit make a directive whose match is
    exactly those characters, whichever such `n` it is.
  */
  lemma DirectiveMatchesPattern(t: string, n: nat)
    requires |t| >= |Keyword| && t[..|Keyword|] == Keyword
    requires n >= 1 && |Keyword| + n < |t|
    requires forall k :: |Keyword| <= k < |Keyword| + n ==> IsSpace(t[k])
    requires IsDigit(t[|Keyword| + n])
    ensures DirectiveAt(t)
    ensures DirectiveLen(t) == |Keyword| + n + 1
  {
    var rest := t[|Keyword|..];
    forall k | 0 <= k < n
      ensures IsSpace(rest[k])
    {
      assert rest[k] == t[|Keyword| + k];
    }
    assert rest[n] == t[|Keyword| + n];
    RunThenDigitMatches(rest, n);
  }

  /** A string that does not start with 'd' holds no directive at its start. */
  lemma NoDirectiveWithoutKeyword(t: string)
    requires |t| == 0 || t[0] != 'd'
    ensures !DirectiveAt(t)
  {
    if |t| >= |Keyword| {
      assert t[..|Keyword|][0] != Keyword[0];
    }
  }

  /**
    A directive found at the start of `t` has the shape the pattern asks for: the keyword, a
    run of `n >= 1` whitespace characters and one digit, `n + 1` characters after the keyword.
  */
  lemma DirectiveShape(t: string)
    requires DirectiveAt(t)
    ensures t[..|Keyword|] == Keyword
    ensures var n := DirectiveLen(t) - |Keyword| - 1;
            && n >= 1
            && (forall k :: |Keyword| <= k < |Keyword| + n ==> IsSpace(t[k]))
            && IsDigit(t[|Keyword| + n])
  {
    var rest := t[|Keyword|..];
    MatchIsRunThenDigit(rest);
    forall k | |Keyword| <= k < DirectiveLen(t) - 1
      ensures IsSpace(t[k])
    {
      assert t[k] == rest[k - |Keyword|];
    }
  }

  /**
    End index of the match of `.*?default_selection\s+\d` whose lazy prefix has grown to `j`:
    the prefix first tries to stop at `j`; when no directive starts there it takes in `t[j]`,
    which it may do only if `t[j]` is not a line feed. `MatchEnd(t, i)` is the match attempted
    at `i`.
  */
  function MatchEnd(t: string, j: nat): (r: Option<nat>)
    requires j <= |t|
    ensures r.Some? ==> j + |Keyword| + 2 <= r.value <= |t|
    decreases |t| - j
  {
    if DirectiveAt(t[j..]) then Some(j + DirectiveLen(t[j..]))
    else if j < |t| && t[j] != '\n' then MatchEnd(t, j + 1)
    else None
  }

  /**
    `re.sub` of the pattern by `repl` over `t` from position `i` on: where a match starts, emit
    `repl` and continue after it; elsewhere copy one character and try again one position later.
  */
  function SubstituteFrom(t: string, i: nat, repl: string): (r: string)
    requires i <= |t|
    decreases |t| - i
  {
    if i == |t| then []
    else
      match MatchEnd(t, i)
      case Some(e) => repl + SubstituteFrom(t, e, repl)
      case None => [t[i]] + SubstituteFrom(t, i + 1, repl)
  }

  /** `re.sub(".*?default_selection\\s+\\d", repl, t)`. */
  function Substitute(t: string, repl: string): (r: string) {
    SubstituteFrom(t, 0, repl)
  }

  /** Start index of the line that holds position `q` of `t`. */
  function LineStart(t: string, q: nat): (l: nat)
    requires q <= |t|
    ensures l <= q
    ensures l == 0 || t[l - 1] == '\n'
    ensures forall k :: l <= k < q ==> t[k] != '\n'
  {
    if q == 0 || t[q - 1] == '\n' then q else LineStart(t, q - 1)
  }

  /**
    Where the match that reaches position `q` begins when the scan starts at `i`: the start of the
    line holding `q`, or `i` itself when the scan starts on that line.
  */
  function MatchStart(t: string, i: nat, q: nat): (l: nat)
    requires i <= q <= |t|
    ensures i <= l <= q
    ensures l == i || t[l - 1] == '\n'
    ensures forall k :: l <= k < q ==> t[k] != '\n'
  {
    if LineStart(t, q) < i then i else LineStart(t, q)
  }

  /** A scan from `k` that reaches the line feed at `e` before any directive finds no match. */
  lemma {:induction false} StopsAtLineBreak(t: string, k: nat, e: nat)
    requires k <= e < |t| && t[e] == '\n'
    requires forall j {:trigger DirectiveAt(t[j..])} :: k <= j < e ==> !DirectiveAt(t[j..])
    ensures MatchEnd(t, k) == None
    decreases e - k
  {
    if k == e {
      assert t[k..][0] == '\n';
      NoDirectiveWithoutKeyword(t[k..]);
    } else {
      StopsAtLineBreak(t, k + 1, e);
    }
  }

  /**
    A scan from `l` that meets no directive and no line feed before the directive at `q` stops
    right after that directive.
  */
  lemma {:induction false} FindsFirstDirective(t: string, l: nat, q: nat)
    requires l <= q <= |t| && DirectiveAt(t[q..])
    requires forall j {:trigger DirectiveAt(t[j..])} :: l <= j < q ==> !DirectiveAt(t[j..])
    requires forall j :: l <= j < q ==> t[j] != '\n'
    ensures MatchEnd(t, l) == Some(q + DirectiveLen(t[q..]))
    decreases q - l
  {
    if l < q {
      FindsFirstDirective(t, l + 1, q);
    }
  }

  /** With no directive from `k` on, the scan from `k` fails. */
  lemma {:induction false} MissesWithoutDirective(t: string, k: nat)
    requires k <= |t|
    requires forall j {:trigger DirectiveAt(t[j..])} :: k <= j < |t| ==> !DirectiveAt(t[j..])
    ensures MatchEnd(t, k) == None
    decreases |t| - k
  {
    if k == |t| {
      NoDirectiveWithoutKeyword(t[k..]);
    } else {
      MissesWithoutDirective(t, k + 1);
    }
  }

  /** Positions where no match starts are copied verbatim. */
  lemma {:induction false} CopiedUpTo(t: string, m: nat, l: nat, repl: string)
    requires m <= l <= |t|
    requires forall k {:trigger MatchEnd(t, k)} :: m <= k < l ==> MatchEnd(t, k) == None
    ensures SubstituteFrom(t, m, repl) == t[m..l] + SubstituteFrom(t, l, repl)
    decreases l - m
  {
    if m < l {
      CopiedAt(t, m, repl);
      CopiedUpTo(t, m + 1, l, repl);
      ConsSlice(t, m, l, SubstituteFrom(t, l, repl));
    }
  }

  /** Where no match starts, the character is copied and the scan moves on by one. */
  lemma CopiedAt(t: string, m: nat, repl: string)
    requires m < |t| && MatchEnd(t, m) == None
    ensures SubstituteFrom(t, m, repl) == [t[m]] + SubstituteFrom(t, m + 1, repl)
  {
  }

  /** `t[m]` in front of `t[m + 1..l]` is `t[m..l]`. */
  lemma ConsSlice(t: string, m: nat, l: nat, rest: string)
    requires m < l <= |t|
    ensures [t[m]] + (t[m + 1..l] + rest) == t[m..l] + rest
  {
    assert t[m..l] == [t[m]] + t[m + 1..l];
  }

  /**
    The scan from any position `i` up to the next directive, at `q`: the text from `i` to the
    start of the line holding that directive (or from `i` itself, when the scan starts on that
    line) is copied, the rest of the line up to and including the one digit after the whitespace
    is replaced by `repl`, and the scan resumes right after the match. Applied at every match in
    turn, each match starts at a line start or where the previous match ended.
  */
  lemma NextDirectiveRewrite(t: string, i: nat, q: nat, repl: string)
    requires i <= q <= |t| && DirectiveAt(t[q..])
    requires forall k {:trigger DirectiveAt(t[k..])} :: i <= k < q ==> !DirectiveAt(t[k..])
    ensures q + DirectiveLen(t[q..]) <= |t|
    ensures SubstituteFrom(t, i, repl)
         == t[i..MatchStart(t, i, q)] + (repl + SubstituteFrom(t, q + DirectiveLen(t[q..]), repl))
  {
    var l := MatchStart(t, i, q);
    FindsFirstDirective(t, l, q);
    RewriteFromLine(t, i, l, q + DirectiveLen(t[q..]), repl);
  }

  /**
    A match from `l` to `e`, reached from `i` over text that holds no directive and that breaks
    the line just before `l` (unless `l` is `i`): that text is copied and the match replaced.
  */
  lemma RewriteFromLine(t: string, i: nat, l: nat, e: nat, repl: string)
    requires i <= l < |t| && MatchEnd(t, l) == Some(e)
    requires l == i || t[l - 1] == '\n'
    requires forall k {:trigger DirectiveAt(t[k..])} :: i <= k < l ==> !DirectiveAt(t[k..])
    ensures SubstituteFrom(t, i, repl) == t[i..l] + (repl + SubstituteFrom(t, e, repl))
  {
    ReplacedAt(t, l, e, repl);
    CopiedToLineBreak(t, i, l, repl);
  }

  /**
    From `i` to a position `l` that follows a line feed (or is `i` itself), with no directive
    between them, the text is copied verbatim.
  */
  lemma CopiedToLineBreak(t: string, i: nat, l: nat, repl: string)
    requires i <= l <= |t|
    requires l == i || t[l - 1] == '\n'
    requires forall k {:trigger DirectiveAt(t[k..])} :: i <= k < l ==> !DirectiveAt(t[k..])
    ensures SubstituteFrom(t, i, repl) == t[i..l] + SubstituteFrom(t, l, repl)
  {
    forall k | i <= k < l
      ensures MatchEnd(t, k) == None
    {
      StopsAtLineBreak(t, k, l - 1);
    }
    CopiedUpTo(t, i, l, repl);
  }

  /**
    Where the first directive of `t` starts at `q`: everything before the line holding it is
    kept, the line's text up to and including the one digit after the whitespace is replaced by
    `repl`, and the scan resumes right after the match (so every later match is replaced too,
    as `NextDirectiveRewrite` describes).
  */
  lemma FirstDirectiveRewrite(t: string, q: nat, repl: string)
    requires q <= |t| && DirectiveAt(t[q..])
    requires forall k {:trigger DirectiveAt(t[k..])} :: 0 <= k < q ==> !DirectiveAt(t[k..])
    ensures q + DirectiveLen(t[q..]) <= |t|
    ensures Substitute(t, repl)
         == t[..LineStart(t, q)] + (repl + SubstituteFrom(t, q + DirectiveLen(t[q..]), repl))
  {
    NextDirectiveRewrite(t, 0, q, repl);
    assert t[0..LineStart(t, q)] == t[..LineStart(t, q)];
  }

  /** Where a match starts, `repl` is emitted and the scan resumes after the match. */
  lemma ReplacedAt(t: string, l: nat, e: nat, repl: string)
    requires l < |t| && MatchEnd(t, l) == Some(e)
    ensures SubstituteFrom(t, l, repl) == repl + SubstituteFrom(t, e, repl)
  {
  }

  /**
    `re.sub` adds no character of its own: a character found neither in `t` nor in `repl` is not
    in the result.
  */
  lemma {:induction false} SubstituteAvoids(t: string, i: nat, repl: string, c: char)
    requires i <= |t|
    requires c !in t && c !in repl
    ensures c !in SubstituteFrom(t, i, repl)
    decreases |t| - i
  {
    if i < |t| {
      match MatchEnd(t, i)
      case Some(e) =>
        SubstituteAvoids(t, e, repl, c);
      case None =>
        SubstituteAvoids(t, i + 1, repl, c);
    }
  }

  /**
    From a scan position past the last directive, the rest of the text is copied verbatim: the
    text after the last match is kept.
  */
  lemma TailCopied(t: string, i: nat, repl: string)
    requires i <= |t|
    requires forall k {:trigger DirectiveAt(t[k..])} :: i <= k <= |t| ==> !DirectiveAt(t[k..])
    ensures SubstituteFrom(t, i, repl) == t[i..]
  {
    forall k | i <= k < |t|
      ensures MatchEnd(t, k) == None
    {
      MissesWithoutDirective(t, k);
    }
    CopiedUpTo(t, i, |t|, repl);
    assert t[i..|t|] == t[i..];
  }

  /** A content without any directive is rewritten to itself: `re.sub` finds nothing to replace. */
  lemma NoDirectiveUnchanged(t: string, repl: string)
    requires forall k {:trigger DirectiveAt(t[k..])} :: 0 <= k <= |t| ==> !DirectiveAt(t[k..])
    ensures Substitute(t, repl) == t
  {
    TailCopied(t, 0, repl);
  }

  /**
    A content that starts with a directive: the match ends right after the one digit that
    follows the whitespace, and the scan resumes there.
  */
  lemma DirectiveAtStart(ws: string, d: char, rest: string, repl: string)
    requires |ws| >= 1 && forall k :: 0 <= k < |ws| ==> IsSpace(ws[k])
    requires IsDigit(d)
    ensures var t := Keyword + ws + [d] + rest;
            Substitute(t, repl) == repl + SubstituteFrom(t, |Keyword| + |ws| + 1, repl)
  {
    var t := Keyword + ws + [d] + rest;
    assert t[..|Keyword|] == Keyword;
    assert t[|Keyword| + |ws|] == d;
    forall k | |Keyword| <= k < |Keyword| + |ws|
      ensures IsSpace(t[k])
    {
      assert t[k] == ws[k - |Keyword|];
    }
    DirectiveMatchesPattern(t, |ws|);
    assert t[0..] == t;
  }

  /** A content that is one directive is replaced as a whole. */
  lemma WholeDirectiveReplaced(ws: string, d: char, repl: string)
    requires |ws| >= 1 && forall k :: 0 <= k < |ws| ==> IsSpace(ws[k])
    requires IsDigit(d)
    ensures Substitute(Keyword + ws + [d], repl) == repl
  {
    DirectiveAtStart(ws, d, [], repl);
    assert Keyword + ws + [d] + [] == Keyword + ws + [d];
    assert repl + [] == repl;
  }

  /**
    `default_selection` followed by a space and two digits keeps the second digit: with target 7,
    `default_selection 12` becomes `default_selection 72`.
  */
  lemma TrailingDigitKept(d1: char, d2: char, target: string)
    requires IsDigit(d1) && IsDigit(d2)
    ensures Substitute(Keyword + " " + [d1, d2], Keyword + " " + target) == Keyword + " " + target + [d2]
  {
    var repl := Keyword + " " + target;
    var t := Keyword + " " + [d1] + [d2];
    var e := |Keyword| + 2;
    assert Keyword + " " + [d1, d2] == t;
    DirectiveAtStart(" ", d1, [d2], repl);
    assert t[e] == d2 && |t| == e + 1;
    assert |t[e..]| < |Keyword| && |t[e + 1..]| < |Keyword|;
    assert MatchEnd(t, e) == None;
    assert SubstituteFrom(t, e, repl) == [d2];
  }

  /**
    A commented-out directive matches too: the `#` before it is inside the replaced span, so the
    line `#default_selection 1` becomes an active directive.
  */
  lemma {:induction false} CommentedDirectiveActivated(d: char, repl: string)
    requires IsDigit(d)
    ensures Substitute("#" + Keyword + " " + [d] + "\n", repl) == repl + "\n"
  {
    var t := "#" + Keyword + " " + [d] + "\n";
    var u := Keyword + " " + [d] + "\n";
    var e := |Keyword| + 3;
    assert t[1..] == u;
    assert u[..|Keyword|] == Keyword;
    assert u[|Keyword| + 1] == d;
    DirectiveMatchesPattern(u, 1);
    assert t[0..] == t;
    NoDirectiveWithoutKeyword(t);
    assert MatchEnd(t, 1) == Some(e);
    assert MatchEnd(t, 0) == Some(e);
    assert t[e] == '\n' && |t[e..]| == 1;
    assert MatchEnd(t, e) == None;
    CopiedAt(t, e, repl);
    assert SubstituteFrom(t, e, repl) == "\n";
  }
}
