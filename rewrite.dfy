/** Global regular-expression replacement. A pattern is modelled as a matcher
    anchored at the start of a string, and `ReplaceAll` drives it over the whole
    string the way `String.prototype.replace` does with a `/g` pattern: it takes
    the leftmost match, appends its replacement, resumes right after the match,
    and copies a character unchanged wherever no match starts. The scanners the
    patterns of both components are built from live here too. */
module Rewrite {
  import opened Text

  datatype Option<T> = None | Some(value: T)

  /** A match of `len` characters at the start of the input, to be replaced by `repl`. */
  datatype Match = Match(len: nat, repl: string)

  /** A matcher never matches the empty string (none of the patterns can). */
  ghost predicate Progresses(matcher: string -> Option<Match>) {
    forall t :: matcher(t).Some? ==> 0 < matcher(t).value.len <= |t|
  }

  /** Every match starts with the literal text `lead`. */
  ghost predicate StartsWithLead(matcher: string -> Option<Match>, lead: string) {
    forall t :: matcher(t).Some? ==> lead <= t
  }

  /** Every replacement is empty. */
  ghost predicate DeletesMatches(matcher: string -> Option<Match>) {
    forall t :: matcher(t).Some? ==> matcher(t).value.repl == []
  }

  /** The matched text reappears, in order, inside its replacement. */
  ghost predicate KeepsMatchedText(matcher: string -> Option<Match>) {
    forall t :: matcher(t).Some? && matcher(t).value.len <= |t| ==>
      IsSubsequence(t[..matcher(t).value.len], matcher(t).value.repl)
  }

  /** `s.replace(pattern, replacement)` for a `/g` pattern whose anchored match is `matcher`. */
  function ReplaceAll(matcher: string -> Option<Match>, s: string): string
    requires Progresses(matcher)
    decreases |s|
  {
    if s == [] then []
    else
      match matcher(s)
      case Some(m) => m.repl + ReplaceAll(matcher, s[m.len..])
      case None => [s[0]] + ReplaceAll(matcher, s[1..])
  }

  // ----- Scanners the matchers are built from -----

  /** The end of the longest run, from `i`, of characters satisfying `p`
      (a greedy `p*` that must be followed by something outside `p`). */
  function RunEnd(s: string, i: nat, p: char -> bool): (j: nat)
    requires i <= |s|
    ensures i <= j <= |s|
    decreases |s| - i
  {
    if i < |s| && p(s[i]) then RunEnd(s, i + 1, p) else i
  }

  /** The first index at or after `i` that holds `c` (where `[^c]*c` stops). */
  function FindChar(s: string, i: nat, c: char): (r: Option<nat>)
    requires i <= |s|
    ensures r.Some? ==> i <= r.value < |s| && s[r.value] == c
    decreases |s| - i
  {
    if i == |s| then None
    else if s[i] == c then Some(i)
    else FindChar(s, i + 1, c)
  }

  /** Where a lazy `(.*?)` followed by the literal `close` stops when it starts at
      `i`: it tries `close` before taking one more character, and `.` never takes
      a line terminator. */
  function LazyClose(s: string, i: nat, close: string): (r: Option<nat>)
    requires i <= |s|
    ensures r.Some? ==> i <= r.value && r.value + |close| <= |s| && close <= s[r.value..]
    decreases |s| - i
  {
    if close <= s[i..] then Some(i)
    else if i == |s| || IsLineTerminator(s[i]) then None
    else LazyClose(s, i + 1, close)
  }

  predicate IsDigits(d: string) {
    d != [] && forall k :: 0 <= k < |d| ==> IsDigit(d[k])
  }

  /** `[`, one or more digits, `]` at the start of `s`: the number of digits.
      Backtracking cannot help `\d+` here, so the digit run is the longest one. */
  function CitationAt(s: string): (r: Option<nat>)
    ensures r.Some? ==> r.value + 2 <= |s| && s[0] == '[' && IsDigits(s[1..r.value + 1]) && s[r.value + 1] == ']'
  {
    if s != [] && s[0] == '[' then
      var j := RunEnd(s, 1, IsDigit);
      RunEndSpan(s, 1, IsDigit);
      if j > 1 && j < |s| && s[j] == ']' then Some(j - 1) else None
    else None
  }

  /** `name` stands at index `p` of `s` and ends at a word boundary. */
  predicate NameAt(s: string, p: nat, name: string) {
    p + |name| <= |s| && s[p..p + |name|] == name && (p + |name| == |s| || !IsWordChar(s[p + |name|]))
  }

  // ----- Facts about the scanners -----

  /** Every character of the run satisfies `p`, and the run stops only at the
      end or at a character that does not. */
  lemma {:induction false} RunEndSpan(s: string, i: nat, p: char -> bool)
    requires i <= |s|
    ensures forall k :: i <= k < RunEnd(s, i, p) ==> p(s[k])
    ensures RunEnd(s, i, p) < |s| ==> !p(s[RunEnd(s, i, p)])
    decreases |s| - i
  {
    if i < |s| && p(s[i]) {
      RunEndSpan(s, i + 1, p);
    }
  }

  /** `FindChar` finds the first `c`, and finds none only when there is none. */
  lemma {:induction false} FindCharFirst(s: string, i: nat, c: char)
    requires i <= |s|
    ensures FindChar(s, i, c).Some? ==> forall k :: i <= k < FindChar(s, i, c).value ==> s[k] != c
    ensures FindChar(s, i, c).None? ==> forall k :: i <= k < |s| ==> s[k] != c
    decreases |s| - i
  {
    if i < |s| && s[i] != c {
      FindCharFirst(s, i + 1, c);
    }
  }

  /** The lazy span stops at the first `close`, and spans no line terminator. */
  lemma {:induction false} LazyCloseFirst(s: string, i: nat, close: string)
    requires i <= |s|
    ensures LazyClose(s, i, close).Some? ==>
      forall k :: i <= k < LazyClose(s, i, close).value ==> !IsLineTerminator(s[k]) && !(close <= s[k..])
    decreases |s| - i
  {
    if !(close <= s[i..]) && i < |s| && !IsLineTerminator(s[i]) {
      LazyCloseFirst(s, i + 1, close);
    }
  }

  lemma {:induction false} RunEndAt(s: string, i: nat, j: nat, p: char -> bool)
    requires i <= j <= |s|
    requires forall k :: i <= k < j ==> p(s[k])
    requires j < |s| ==> !p(s[j])
    ensures RunEnd(s, i, p) == j
    decreases j - i
  {
    if i < j {
      RunEndAt(s, i + 1, j, p);
    }
  }

  lemma {:induction false} FindCharAt(s: string, i: nat, j: nat, c: char)
    requires i <= j < |s| && s[j] == c
    requires forall k :: i <= k < j ==> s[k] != c
    ensures FindChar(s, i, c) == Some(j)
    decreases j - i
  {
    if i < j {
      FindCharAt(s, i + 1, j, c);
    }
  }

  /** The lazy span stops at the first `close` when no line terminator comes before it. */
  lemma {:induction false} LazyCloseAt(s: string, i: nat, j: nat, close: string)
    requires i <= j <= |s| && close <= s[j..]
    requires forall k :: i <= k < j ==> !IsLineTerminator(s[k]) && !(close <= s[k..])
    ensures LazyClose(s, i, close) == Some(j)
    decreases j - i
  {
    if i < j {
      LazyCloseAt(s, i + 1, j, close);
    }
  }

  /** Where a line terminator comes before any `close`, the lazy span fails. */
  lemma {:induction false} LazyCloseStopsAtLineEnd(s: string, i: nat, j: nat, close: string)
    requires i <= j < |s| && IsLineTerminator(s[j])
    requires forall k :: i <= k <= j ==> !(close <= s[k..])
    requires forall k :: i <= k < j ==> !IsLineTerminator(s[k])
    ensures LazyClose(s, i, close) == None
    decreases j - i
  {
    if i < j {
      LazyCloseStopsAtLineEnd(s, i + 1, j, close);
    }
  }

  /** After `open`, the lazy span runs over text `x` up to the `close` that
      follows it, provided `x` holds neither `close` nor a line terminator and
      `close` does not begin again inside itself. */
  lemma LazyCloseAfterText(open: string, x: string, close: string, rest: string)
    requires close != [] && close[0] !in close[1..] && !Occurs(close, x)
    requires forall k :: 0 <= k < |x| ==> !IsLineTerminator(x[k])
    ensures LazyClose(open + x + close + rest, |open|, close) == Some(|open| + |x|)
  {
    var s := open + x + close + rest;
    var t := x + close + rest;
    assert close <= s[|open| + |x|..] by { assert s[|open| + |x|..] == close + rest; }
    forall k | |open| <= k < |open| + |x|
      ensures !IsLineTerminator(s[k]) && !(close <= s[k..])
    {
      assert s[k] == x[k - |open|];
      assert s[k..] == t[k - |open|..];
      NoOccurrenceStartsInside(close, x, rest, k - |open|);
    }
    LazyCloseAt(s, |open|, |open| + |x|, close);
  }

  /** A citation marker at the start is recognised with all its digits. */
  lemma CitationAtMarker(d: string, rest: string)
    requires IsDigits(d)
    ensures CitationAt("[" + d + "]" + rest) == Some(|d|)
  {
    var s := "[" + d + "]" + rest;
    assert forall k :: 1 <= k < |d| + 1 ==> s[k] == d[k - 1];
    assert s[|d| + 1] == ']';
    RunEndAt(s, 1, |d| + 1, IsDigit);
  }

  // ----- Facts about global replacement, for every matcher -----

  /** A match at the start is replaced and the scan resumes right after it. */
  lemma ReplaceAllMatchStep(matcher: string -> Option<Match>, s: string)
    requires Progresses(matcher)
    requires s != [] && matcher(s).Some?
    ensures ReplaceAll(matcher, s) == matcher(s).value.repl + ReplaceAll(matcher, s[matcher(s).value.len..])
  {
  }

  /** Without a match at the start, the first character is copied. */
  lemma NoMatchCopiesFirst(matcher: string -> Option<Match>, s: string)
    requires Progresses(matcher)
    requires s != [] && matcher(s).None?
    ensures ReplaceAll(matcher, s) == [s[0]] + ReplaceAll(matcher, s[1..])
  {
  }

  /** Where the lead text never occurs, nothing is replaced. */
  lemma {:induction false} ReplaceAllIdentity(matcher: string -> Option<Match>, lead: string, s: string)
    requires Progresses(matcher) && StartsWithLead(matcher, lead)
    ensures !Occurs(lead, s) ==> ReplaceAll(matcher, s) == s
    decreases |s|
  {
    if s != [] && !Occurs(lead, s) {
      assert matcher(s).None?;
      ReplaceAllIdentity(matcher, lead, s[1..]);
      assert [s[0]] + s[1..] == s;
    }
  }

  /** Text before the first character that can start a match is copied unchanged. */
  lemma {:induction false} ReplaceAllKeepsLeadFreePrefix(matcher: string -> Option<Match>, lead: string, a: string, b: string)
    requires Progresses(matcher) && StartsWithLead(matcher, lead)
    requires lead != [] && lead[0] !in a
    ensures ReplaceAll(matcher, a + b) == a + ReplaceAll(matcher, b)
    decreases |a|
  {
    if a == [] {
      assert a + b == b;
    } else {
      var s := a + b;
      assert ReplaceAll(matcher, s) == [a[0]] + ReplaceAll(matcher, a[1..] + b) by {
        assert matcher(s).None? by { assert s[0] == a[0] != lead[0]; }
        NoMatchCopiesFirst(matcher, s);
        assert s[1..] == a[1..] + b;
      }
      assert ReplaceAll(matcher, a[1..] + b) == a[1..] + ReplaceAll(matcher, b) by {
        ReplaceAllKeepsLeadFreePrefix(matcher, lead, a[1..], b);
      }
      FirstThenRest(a, ReplaceAll(matcher, b));
    }
  }

  /** A string whose only possible match start is its first character, where
      nothing matches, is left unchanged. */
  lemma OnlyUnmatchedLead(matcher: string -> Option<Match>, lead: string, s: string)
    requires Progresses(matcher) && StartsWithLead(matcher, lead)
    requires lead != [] && s != [] && matcher(s).None? && lead[0] !in s[1..]
    ensures ReplaceAll(matcher, s) == s
  {
    NoMatchCopiesFirst(matcher, s);
    NoOccurrenceWithoutLead(lead, s[1..]);
    ReplaceAllIdentity(matcher, lead, s[1..]);
    assert [s[0]] + s[1..] == s;
  }

  /** A prefix `p` where nothing matches, and whose only possible match start
      is its first character, is copied; the scan goes on after it. */
  lemma UnmatchedPrefixCopied(matcher: string -> Option<Match>, lead: string, p: string, x: string)
    requires Progresses(matcher) && StartsWithLead(matcher, lead)
    requires lead != [] && p != [] && lead[0] !in p[1..] && matcher(p + x).None?
    ensures ReplaceAll(matcher, p + x) == p + ReplaceAll(matcher, x)
  {
    var s := p + x;
    var r := ReplaceAll(matcher, x);
    calc {
      ReplaceAll(matcher, s);
    == { UnmatchedFirstCopied(matcher, p, x); }
      [p[0]] + ReplaceAll(matcher, p[1..] + x);
    == { ReplaceAllKeepsLeadFreePrefix(matcher, lead, p[1..], x); }
      [p[0]] + (p[1..] + r);
    == { FirstThenRest(p, r); }
      p + r;
    }
  }

  /** The first character of an unmatched prefix is copied. */
  lemma UnmatchedFirstCopied(matcher: string -> Option<Match>, p: string, x: string)
    requires Progresses(matcher) && p != [] && matcher(p + x).None?
    ensures ReplaceAll(matcher, p + x) == [p[0]] + ReplaceAll(matcher, p[1..] + x)
  {
    var s := p + x;
    NoMatchCopiesFirst(matcher, s);
    assert s[0] == p[0] && s[1..] == p[1..] + x;
  }

  /** `p` parts from `lead` before either ends. */
  predicate Diverges(lead: string, p: string) {
    !(lead <= p) && !(p <= lead)
  }

  /** Two strings that differ at an index both reach diverge. */
  lemma DivergesAt(lead: string, p: string, k: nat)
    requires k < |lead| && k < |p| && lead[k] != p[k]
    ensures Diverges(lead, p)
  {
    if |lead| <= |p| {
      assert p[..|lead|][k] == p[k];
    } else {
      assert lead[..|p|][k] == lead[k];
    }
  }

  /** A prefix that parts from `lead` before either ends cannot start a match,
      whatever follows it; when `lead` cannot start later in it either, it is
      copied and the scan goes on after it. */
  lemma DivergentPrefixCopied(matcher: string -> Option<Match>, lead: string, p: string, x: string)
    requires Progresses(matcher) && StartsWithLead(matcher, lead)
    requires lead != [] && p != [] && lead[0] !in p[1..]
    requires Diverges(lead, p)
    ensures ReplaceAll(matcher, p + x) == p + ReplaceAll(matcher, x)
  {
    var s := p + x;
    assert !(lead <= s) by {
      if |lead| <= |p| {
        assert s[..|lead|] == p[..|lead|];
      } else if |lead| <= |s| {
        assert s[..|lead|][..|p|] == p;
      }
    }
    UnmatchedPrefixCopied(matcher, lead, p, x);
  }

  /** A matcher with empty replacements only deletes characters. */
  lemma {:induction false} ReplaceAllOnlyDeletes(matcher: string -> Option<Match>, s: string)
    requires Progresses(matcher) && DeletesMatches(matcher)
    ensures IsSubsequence(ReplaceAll(matcher, s), s)
    decreases |s|
  {
    if s != [] {
      match matcher(s)
      case Some(m) =>
        var r := ReplaceAll(matcher, s[m.len..]);
        ReplaceAllOnlyDeletes(matcher, s[m.len..]);
        SubsequenceWidened(r, s[..m.len], s[m.len..]);
        assert s[..m.len] + s[m.len..] == s;
        assert ReplaceAll(matcher, s) == [] + r == r;
      case None =>
        var r := ReplaceAll(matcher, s[1..]);
        ReplaceAllOnlyDeletes(matcher, s[1..]);
        assert ([s[0]] + r)[0] == s[0] && ([s[0]] + r)[1..] == r;
    }
  }

  /** A matcher whose matched text survives in its replacement only inserts characters. */
  lemma {:induction false} ReplaceAllOnlyInserts(matcher: string -> Option<Match>, s: string)
    requires Progresses(matcher) && KeepsMatchedText(matcher)
    ensures IsSubsequence(s, ReplaceAll(matcher, s))
    decreases |s|
  {
    if s != [] {
      match matcher(s)
      case Some(m) =>
        var r := ReplaceAll(matcher, s[m.len..]);
        ReplaceAllOnlyInserts(matcher, s[m.len..]);
        SubsequenceConcat(s[..m.len], m.repl, s[m.len..], r);
        assert s[..m.len] + s[m.len..] == s;
      case None =>
        var r := ReplaceAll(matcher, s[1..]);
        ReplaceAllOnlyInserts(matcher, s[1..]);
        assert ([s[0]] + r)[0] == s[0] && ([s[0]] + r)[1..] == r;
    }
  }

  /** An occurring string is a subsequence. */
  lemma {:induction false} OccurrenceIsSubsequence(w: string, s: string)
    requires Occurs(w, s)
    ensures IsSubsequence(w, s)
    decreases |s|
  {
    if w <= s {
      SubsequenceOfSelf(w);
      SubsequenceConcat(w, w, [], s[|w|..]);
      assert w + [] == w && w + s[|w|..] == s;
    } else {
      OccurrenceIsSubsequence(w, s[1..]);
      SubsequenceWidened(w, [s[0]], s[1..]);
      assert [s[0]] + s[1..] == s;
    }
  }

  /** Inserting text between a common head and a common tail keeps both. */
  lemma {:induction false} KeptAroundInsertion(p: string, m: string, t: string)
    ensures IsSubsequence(p + t, p + (m + t))
  {
    SubsequenceOfSelf(t);
    SubsequenceWidened(t, m, t);
    SubsequenceOfSelf(p);
    SubsequenceConcat(p, p, t, m + t);
  }
}
