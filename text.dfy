/** Character classes of JavaScript regular expressions (without the `u` flag)
    and two relations on strings that the rewriting lemmas are stated with. */
module Text {

  /** `\d`: an ASCII decimal digit. */
  predicate IsDigit(c: char) { '0' <= c <= '9' }

  /** `\w`: an ASCII letter, digit or underscore. `\b` holds between a `\w`
      character and a non-`\w` character or the end of the input. */
  predicate IsWordChar(c: char) { 'a' <= c <= 'z' || 'A' <= c <= 'Z' || IsDigit(c) || c == '_' }

  /** The line terminators, which `.` does not match. */
  predicate IsLineTerminator(c: char) {
    c == '\n' || c == '\r' || c == '\U{2028}' || c == '\U{2029}'
  }

  /** `\s`: white space and line terminators. */
  predicate IsSpace(c: char) {
    || '\t' <= c <= '\r'
    || c == ' ' || c == '\U{A0}' || c == '\U{1680}'
    || '\U{2000}' <= c <= '\U{200A}'
    || c == '\U{2028}' || c == '\U{2029}' || c == '\U{202F}' || c == '\U{205F}'
    || c == '\U{3000}' || c == '\U{FEFF}'
  }

  /** `w` occurs in `s` at some position. */
  predicate Occurs(w: string, s: string)
    decreases |s|
  {
    w <= s || (s != [] && Occurs(w, s[1..]))
  }

  /** `a` is obtained from `b` by deleting characters. The definition matches
      each character of `a` against the earliest possible character of `b`,
      which loses no solutions and keeps the definition deterministic. */
  predicate IsSubsequence(a: string, b: string)
    decreases |b|
  {
    a == [] || (b != [] && IsSubsequence(if a[0] == b[0] then a[1..] else a, b[1..]))
  }

  /** A non-empty string whose first character is absent from `s` does not occur in it. */
  lemma {:induction false} NoOccurrenceWithoutLead(w: string, s: string)
    ensures w != [] && w[0] !in s ==> !Occurs(w, s)
    decreases |s|
  {
    if w != [] && w[0] !in s && s != [] {
      assert s[0] != w[0];
      NoOccurrenceWithoutLead(w, s[1..]);
    }
  }

  /** `w` found at any position of `s` occurs in `s`. */
  lemma {:induction false} OccursAt(w: string, s: string, k: nat)
    requires k <= |s| && w <= s[k..]
    ensures Occurs(w, s)
    decreases k
  {
    if k > 0 {
      assert s[1..][k - 1..] == s[k..];
      OccursAt(w, s[1..], k - 1);
    }
  }

  /** When the first character of `w` does not recur inside `w`, no occurrence
      of `w` in `x + w + y` starts within `x` unless `w` occurs in `x`: one that
      ran past the end of `x` would need that first character again. */
  lemma NoOccurrenceStartsInside(w: string, x: string, y: string, k: nat)
    requires w != [] && w[0] !in w[1..]
    requires !Occurs(w, x) && k < |x|
    ensures !(w <= (x + w + y)[k..])
  {
    var s := x + w + y;
    if k + |w| <= |x| {
      if w <= s[k..] {
        assert w == s[k..k + |w|] == x[k..k + |w|];
        OccursAt(w, x, k);
      }
    } else {
      var m := |x| - k;
      assert s[k..][m] == w[0];
      assert w[m] != w[0] by { assert w[m] == w[1..][m - 1]; }
    }
  }

  /** Placing `t` after `y` creates no occurrence of `w` when `t` starts with
      the first character of `w` and that character does not recur inside `w`:
      an occurrence reaching into `t` would need it a second time. */
  lemma {:induction false} NoOccurrenceBeforeLead(w: string, y: string, t: string)
    requires w != [] && w[0] !in w[1..] && t != [] && t[0] == w[0]
    requires !Occurs(w, y) && !Occurs(w, t)
    ensures !Occurs(w, y + t)
    decreases |y|
  {
    var s := y + t;
    if y == [] {
      assert s == t;
    } else {
      if |w| <= |y| {
        assert s[..|w|] == y[..|w|];
      } else if |w| <= |s| {
        assert s[..|w|][|y|] == t[0];
        assert w[|y|] == w[1..][|y| - 1];
      }
      assert s[1..] == y[1..] + t;
      NoOccurrenceBeforeLead(w, y[1..], t);
    }
  }

  /** An occurrence cannot start inside a prefix that lacks its first character. */
  lemma {:induction false} OccursPastLeadFree(w: string, x: string, y: string)
    requires w != [] && w[0] !in x
    ensures Occurs(w, x + y) == Occurs(w, y)
    decreases |x|
  {
    if x == [] {
      assert x + y == y;
    } else {
      assert (x + y)[0] == x[0] != w[0];
      assert (x + y)[1..] == x[1..] + y;
      OccursPastLeadFree(w, x[1..], y);
    }
  }

  /** A string occurs wherever it is written out. */
  lemma {:induction false} OccursAfter(w: string, x: string, y: string)
    ensures Occurs(w, x + (w + y))
    decreases |x|
  {
    if x != [] {
      assert (x + (w + y))[1..] == x[1..] + (w + y);
      OccursAfter(w, x[1..], y);
    }
  }

  /** An occurrence stays an occurrence when text is added behind. */
  lemma {:induction false} OccursWidened(w: string, s: string, y: string)
    requires Occurs(w, s)
    ensures Occurs(w, s + y)
    decreases |s|
  {
    if w <= s {
      assert w <= s + y;
    } else {
      assert (s + y)[1..] == s[1..] + y;
      OccursWidened(w, s[1..], y);
    }
  }

  /** An occurrence stays an occurrence when text is added in front. */
  lemma {:induction false} OccursAfterPrefix(w: string, x: string, s: string)
    requires Occurs(w, s)
    ensures Occurs(w, x + s)
    decreases |x|
  {
    if x == [] {
      assert x + s == s;
    } else {
      assert (x + s)[1..] == x[1..] + s;
      OccursAfterPrefix(w, x[1..], s);
    }
  }

  lemma {:induction false} SubsequenceOfSelf(a: string)
    ensures IsSubsequence(a, a)
    decreases |a|
  {
    if a != [] {
      SubsequenceOfSelf(a[1..]);
    }
  }

  /** Dropping the first character of a subsequence keeps a subsequence. */
  lemma {:induction false} SubsequenceTail(a: string, b: string)
    requires a != [] && IsSubsequence(a, b)
    ensures IsSubsequence(a[1..], b)
    decreases |a|, 0, |b|
  {
    if a[0] == b[0] {
      SubsequenceWidened(a[1..], [b[0]], b[1..]);
      assert [b[0]] + b[1..] == b;
    } else {
      SubsequenceTail(a, b[1..]);
      SubsequenceWidened(a[1..], [b[0]], b[1..]);
      assert [b[0]] + b[1..] == b;
    }
  }

  /** Adding characters in front of the larger string keeps a subsequence. */
  lemma {:induction false} SubsequenceWidened(a: string, x: string, b: string)
    requires IsSubsequence(a, b)
    ensures IsSubsequence(a, x + b)
    decreases |a|, 1, |x|
  {
    if x == [] {
      assert x + b == b;
    } else if a != [] {
      assert (x + b)[0] == x[0] && (x + b)[1..] == x[1..] + b;
      if a[0] == x[0] {
        SubsequenceTail(a, b);
        SubsequenceWidened(a[1..], x[1..], b);
      } else {
        SubsequenceWidened(a, x[1..], b);
      }
    }
  }

  /** Subsequences of the two halves give a subsequence of the whole. */
  lemma {:induction false} SubsequenceConcat(a1: string, b1: string, a2: string, b2: string)
    requires IsSubsequence(a1, b1) && IsSubsequence(a2, b2)
    ensures IsSubsequence(a1 + a2, b1 + b2)
    decreases |b1|
  {
    if a1 == [] {
      assert a1 + a2 == a2;
      SubsequenceWidened(a2, b1, b2);
    } else {
      assert (b1 + b2)[0] == b1[0] && (b1 + b2)[1..] == b1[1..] + b2;
      assert (a1 + a2)[0] == a1[0] && (a1 + a2)[1..] == a1[1..] + a2;
      if a1[0] == b1[0] {
        SubsequenceConcat(a1[1..], b1[1..], a2, b2);
      } else {
        SubsequenceConcat(a1, b1[1..], a2, b2);
      }
    }
  }

  lemma {:induction false} SubsequenceTransitive(a: string, b: string, c: string)
    requires IsSubsequence(a, b) && IsSubsequence(b, c)
    ensures IsSubsequence(a, c)
    decreases |c|
  {
    if a != [] {
      if b[0] == c[0] {
        if a[0] == b[0] {
          SubsequenceTransitive(a[1..], b[1..], c[1..]);
        } else {
          SubsequenceTransitive(a, b[1..], c[1..]);
        }
      } else {
        SubsequenceTransitive(a, b, c[1..]);
        if a[0] == c[0] {
          SubsequenceTail(a, c[1..]);
        }
      }
    }
  }

  /** A string is its first character followed by the rest, also in front of more text. */
  lemma FirstThenRest(a: string, r: string)
    requires a != []
    ensures [a[0]] + (a[1..] + r) == a + r
  {
    assert ([a[0]] + (a[1..] + r))[1..] == a[1..] + r;
  }

  /** Concatenation regrouped: a leading part followed by the rest as one string. */
  lemma Regroup(a: string, b: string, c: string, d: string, e: string)
    ensures a + b + c + d + e == a + (b + c + d + e)
  {
  }
}
