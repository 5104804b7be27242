/** The search box: a debounced query against Wikipedia's prefix search, the
    cleaning of each result's HTML extract into a short snippet, and the state
    of the drop-down result list. */
module WikipediaSearch {
  import opened Text
  import opened Rewrite

  /** Queries shorter than this clear the list instead of searching. */
  const MinQueryLength: nat := 2
  /** At most this many results are kept from a response. */
  const MaxResults: nat := 5
  /** Cleaned extracts longer than this are cut to this length... */
  const SnippetLimit: nat := 150
  /** ...and this is appended to them. */
  const Ellipsis: string := "..."

  // ----- The patterns of processExtractForDisplay -----

  /** `/\[\d+\]/g` replaced by the empty string. */
  function DropCitationAt(s: string): (r: Option<Match>)
    ensures r.Some? ==> 0 < r.value.len <= |s| && "[" <= s && r.value.repl == []
  {
    match CitationAt(s)
    case Some(n) => Some(Match(n + 2, []))
    case None => None
  }

  /** `/<x>(.*?)<\/x>/g` replaced by `<into>$1</into>`, for the tag letter `x`. */
  function EmphasisAt(letter: char, into: string, s: string): (r: Option<Match>)
    ensures r.Some? ==> 0 < r.value.len <= |s| && ['<', letter, '>'] <= s
  {
    if ['<', letter, '>'] <= s then
      match LazyClose(s, 3, ['<', '/', letter, '>'])
      case Some(j) => Some(Match(j + 4, "<" + into + ">" + s[3..j] + "</" + into + ">"))
      case None => None
    else None
  }

  /** `<b>…</b>` becomes `<strong>…</strong>`. */
  function BoldAt(s: string): (r: Option<Match>)
    ensures r.Some? ==> 0 < r.value.len <= |s| && "<b>" <= s
  {
    EmphasisAt('b', "strong", s)
  }

  /** `<i>…</i>` becomes `<em>…</em>`. */
  function ItalicAt(s: string): (r: Option<Match>)
    ensures r.Some? ==> 0 < r.value.len <= |s| && "<i>" <= s
  {
    EmphasisAt('i', "em", s)
  }

  /** The negative lookahead `(?!\/?(?:strong|em|b|i)\b)`, read just after the
      `<` that starts `s`. */
  predicate OpensListedTag(s: string)
    requires s != []
  {
    var p := if |s| > 1 && s[1] == '/' then 2 else 1;
    NameAt(s, p, "strong") || NameAt(s, p, "em") || NameAt(s, p, "b") || NameAt(s, p, "i")
  }

  /** `/<(?!\/?(?:strong|em|b|i)\b)[^>]*>/g` replaced by the empty string. */
  function StripTagAt(s: string): (r: Option<Match>)
    ensures r.Some? ==> 0 < r.value.len <= |s| && "<" <= s && r.value.repl == []
  {
    if s != [] && s[0] == '<' && !OpensListedTag(s) then
      match FindChar(s, 1, '>')
      case Some(j) => Some(Match(j + 1, []))
      case None => None
    else None
  }

  // ----- The passes, in the order the source applies them -----

  function DropCitations(s: string): (r: string)
    ensures !Occurs("[", s) ==> r == s
  {
    ReplaceAllIdentity(DropCitationAt, "[", s);
    ReplaceAll(DropCitationAt, s)
  }

  function BoldToStrong(s: string): (r: string)
    ensures !Occurs("<b>", s) ==> r == s
  {
    ReplaceAllIdentity(BoldAt, "<b>", s);
    ReplaceAll(BoldAt, s)
  }

  function ItalicToEm(s: string): (r: string)
    ensures !Occurs("<i>", s) ==> r == s
  {
    ReplaceAllIdentity(ItalicAt, "<i>", s);
    ReplaceAll(ItalicAt, s)
  }

  function StripUnlistedTags(s: string): (r: string)
    ensures !Occurs("<", s) ==> r == s
  {
    ReplaceAllIdentity(StripTagAt, "<", s);
    ReplaceAll(StripTagAt, s)
  }

  /** The extract after all four substitutions, before truncation. Plain text
      passes all four unchanged. */
  function Cleaned(extract: string): (r: string)
    ensures '[' !in extract && '<' !in extract ==> r == extract
  {
    NoOccurrenceWithoutLead("[", extract);
    NoOccurrenceWithoutLead("<b>", extract);
    NoOccurrenceWithoutLead("<i>", extract);
    NoOccurrenceWithoutLead("<", extract);
    StripUnlistedTags(ItalicToEm(BoldToStrong(DropCitations(extract))))
  }

  /** The snippet shown under a result's title: the cleaned extract, cut to
      `SnippetLimit` characters followed by an ellipsis when it is longer. */
  function ProcessExtractForDisplay(extract: string): (r: string)
    ensures extract == [] ==> r == []
    ensures |r| <= SnippetLimit + |Ellipsis|
    ensures |Cleaned(extract)| <= SnippetLimit ==> r == Cleaned(extract)
    ensures |Cleaned(extract)| > SnippetLimit ==>
      r == Cleaned(extract)[..SnippetLimit] + Ellipsis
  {
    if extract == [] then []
    else
      var processed := Cleaned(extract);
      if |processed| > SnippetLimit then processed[..SnippetLimit] + Ellipsis else processed
  }

  // ----- What the passes do -----

  /** A character a citation marker is made of. */
  predicate IsMarkerChar(c: char) { c == '[' || c == ']' || IsDigit(c) }

  /** `s` with every bracket and digit removed. */
  function WithoutMarkerChars(s: string): (r: string)
    ensures |r| <= |s|
    decreases |s|
  {
    if s == [] then [] else (if IsMarkerChar(s[0]) then [] else [s[0]]) + WithoutMarkerChars(s[1..])
  }

  lemma {:induction false} WithoutMarkerCharsConcat(a: string, b: string)
    ensures WithoutMarkerChars(a + b) == WithoutMarkerChars(a) + WithoutMarkerChars(b)
    decreases |a|
  {
    if a == [] {
      assert a + b == b;
    } else {
      assert (a + b)[0] == a[0] && (a + b)[1..] == a[1..] + b;
      WithoutMarkerCharsConcat(a[1..], b);
    }
  }

  lemma {:induction false} WithoutMarkerCharsOfMarker(s: string)
    requires forall k :: 0 <= k < |s| ==> IsMarkerChar(s[k])
    ensures WithoutMarkerChars(s) == []
    decreases |s|
  {
    if s != [] {
      WithoutMarkerCharsOfMarker(s[1..]);
    }
  }

  /** Removing citations deletes characters and nothing else. */
  lemma DropCitationsOnlyDeletes(s: string)
    ensures IsSubsequence(DropCitations(s), s)
  {
    ReplaceAllOnlyDeletes(DropCitationAt, s);
  }

  /** Removing citations deletes only brackets and digits: every other character
      survives, in order. */
  lemma {:induction false} DropCitationsKeepsText(s: string)
    ensures WithoutMarkerChars(DropCitations(s)) == WithoutMarkerChars(s)
    decreases |s|
  {
    if s != [] {
      match DropCitationAt(s)
      case Some(m) =>
        DropCitationsKeepsText(s[m.len..]);
        CitationStepKeepsText(s);
      case None =>
        DropCitationsKeepsText(s[1..]);
        CopyStepKeepsText(s);
    }
  }

  lemma CitationStepKeepsText(s: string)
    requires s != [] && DropCitationAt(s).Some?
    ensures DropCitations(s) == DropCitations(s[DropCitationAt(s).value.len..])
    ensures WithoutMarkerChars(s) == WithoutMarkerChars(s[DropCitationAt(s).value.len..])
  {
    var n := CitationAt(s).value;
    assert DropCitationAt(s).value.len == n + 2;
    assert DropCitations(s) == DropCitations(s[n + 2..]) by {
      ReplaceAllMatchStep(DropCitationAt, s);
    }
    var marker := s[..n + 2];
    var tail := s[n + 2..];
    assert WithoutMarkerChars(marker) == [] by {
      CitationIsMarkerChars(s);
      WithoutMarkerCharsOfMarker(marker);
    }
    assert WithoutMarkerChars(s) == WithoutMarkerChars(tail) by {
      assert marker + tail == s;
      WithoutMarkerCharsConcat(marker, tail);
    }
  }

  lemma CopyStepKeepsText(s: string)
    requires s != [] && DropCitationAt(s).None?
    ensures WithoutMarkerChars(DropCitations(s)) == WithoutMarkerChars([s[0]]) + WithoutMarkerChars(DropCitations(s[1..]))
    ensures WithoutMarkerChars(s) == WithoutMarkerChars([s[0]]) + WithoutMarkerChars(s[1..])
  {
    NoMatchCopiesFirst(DropCitationAt, s);
    WithoutMarkerCharsConcat([s[0]], DropCitations(s[1..]));
    WithoutMarkerCharsConcat([s[0]], s[1..]);
    assert [s[0]] + s[1..] == s;
  }

  lemma CitationIsMarkerChars(s: string)
    requires CitationAt(s).Some?
    ensures forall k :: 0 <= k < CitationAt(s).value + 2 ==> IsMarkerChar(s[k])
  {
    var n := CitationAt(s).value;
    forall k | 0 <= k < n + 2 ensures IsMarkerChar(s[k]) {
      if 1 <= k <= n {
        assert s[k] == s[1..n + 1][k - 1];
      }
    }
  }

  /** A citation marker is deleted, whatever follows it. */
  lemma CitationDeleted(d: string, rest: string)
    requires IsDigits(d)
    ensures DropCitations("[" + d + "]" + rest) == DropCitations(rest)
  {
    var s := "[" + d + "]" + rest;
    CitationAtMarker(d, rest);
    ReplaceAllMatchStep(DropCitationAt, s);
    assert s[|d| + 2..] == rest;
  }

  /** Deleting one marker can join the text around it into a new marker, which
      the single pass leaves in place. */
  lemma NestedCitationLeavesMarker()
    ensures DropCitations("[1[2]]") == "[1]"
  {
    InnerCitationDropped();
    assert DropCitations("[1[2]]") == "[" + DropCitations("1[2]]") by {
      assert CitationAt("[1[2]]") == None;
      assert "[1[2]]"[1..] == "1[2]]";
    }
  }

  lemma InnerCitationDropped()
    ensures DropCitations("1[2]]") == "1]"
  {
    assert DropCitations("[2]]") == "]" by {
      CitationDeleted("2", "]");
      assert "[" + "2" + "]" + "]" == "[2]]";
    }
    assert DropCitationAt("1[2]]") == None;
    assert "1[2]]"[1..] == "[2]]";
  }

  /** `<x>` text `</x>` is matched when the text holds no `</x>` and no line
      terminator; other tags inside it are carried over. */
  lemma EmphasisMatched(letter: char, into: string, x: string, rest: string)
    requires letter != '<' && !Occurs(['<', '/', letter, '>'], x)
    requires forall k :: 0 <= k < |x| ==> !IsLineTerminator(x[k])
    ensures EmphasisAt(letter, into, ['<', letter, '>'] + x + ['<', '/', letter, '>'] + rest)
         == Some(Match(|x| + 7, "<" + into + ">" + x + "</" + into + ">"))
  {
    var close := ['<', '/', letter, '>'];
    assert '<' !in close[1..] by { assert close[1..] == ['/', letter, '>']; }
    LazyCloseAfterText(['<', letter, '>'], x, close, rest);
    EmphasisSpan(letter, into, x, rest);
  }

  /** Once the lazy span is known to stop right after `x`, the match covers
      `<x>`, `x` and `</x>`. */
  lemma EmphasisSpan(letter: char, into: string, x: string, rest: string)
    requires LazyClose(['<', letter, '>'] + x + ['<', '/', letter, '>'] + rest, 3, ['<', '/', letter, '>'])
          == Some(3 + |x|)
    ensures EmphasisAt(letter, into, ['<', letter, '>'] + x + ['<', '/', letter, '>'] + rest)
         == Some(Match(|x| + 7, "<" + into + ">" + x + "</" + into + ">"))
  {
    var s := ['<', letter, '>'] + x + ['<', '/', letter, '>'] + rest;
    assert s[3..3 + |x|] == x;
  }

  /** Bold text without `</b>` or line breaks becomes strong text, and
      scanning resumes after `</b>`. */
  lemma BoldRenamed(x: string, rest: string)
    requires !Occurs("</b>", x)
    requires forall k :: 0 <= k < |x| ==> !IsLineTerminator(x[k])
    ensures BoldToStrong("<b>" + x + "</b>" + rest) == "<strong>" + x + "</strong>" + BoldToStrong(rest)
  {
    var s := "<b>" + x + "</b>" + rest;
    BoldMatched(x, rest);
    ReplaceAllMatchStep(BoldAt, s);
    assert s[|x| + 7..] == rest;
  }

  lemma BoldMatched(x: string, rest: string)
    requires !Occurs("</b>", x)
    requires forall k :: 0 <= k < |x| ==> !IsLineTerminator(x[k])
    ensures BoldAt("<b>" + x + "</b>" + rest) == Some(Match(|x| + 7, "<strong>" + x + "</strong>"))
  {
    EmphasisMatched('b', "strong", x, rest);
    BoldLiterals(x, rest);
  }

  lemma BoldLiterals(x: string, rest: string)
    ensures ['<', 'b', '>'] + x + ['<', '/', 'b', '>'] + rest == "<b>" + x + "</b>" + rest
    ensures "<" + "strong" + ">" + x + "</" + "strong" + ">" == "<strong>" + x + "</strong>"
  {
  }

  /** Italic text without `</i>` or line breaks becomes emphasised text, and
      scanning resumes after `</i>`. */
  lemma ItalicRenamed(x: string, rest: string)
    requires !Occurs("</i>", x)
    requires forall k :: 0 <= k < |x| ==> !IsLineTerminator(x[k])
    ensures ItalicToEm("<i>" + x + "</i>" + rest) == "<em>" + x + "</em>" + ItalicToEm(rest)
  {
    var s := "<i>" + x + "</i>" + rest;
    ItalicMatched(x, rest);
    ReplaceAllMatchStep(ItalicAt, s);
    assert s[|x| + 7..] == rest;
  }

  lemma ItalicMatched(x: string, rest: string)
    requires !Occurs("</i>", x)
    requires forall k :: 0 <= k < |x| ==> !IsLineTerminator(x[k])
    ensures ItalicAt("<i>" + x + "</i>" + rest) == Some(Match(|x| + 7, "<em>" + x + "</em>"))
  {
    EmphasisMatched('i', "em", x, rest);
    ItalicLiterals(x, rest);
  }

  lemma ItalicLiterals(x: string, rest: string)
    ensures ['<', 'i', '>'] + x + ['<', '/', 'i', '>'] + rest == "<i>" + x + "</i>" + rest
    ensures "<" + "em" + ">" + x + "</" + "em" + ">" == "<em>" + x + "</em>"
  {
  }

  /** Tags other than `</b>` inside bold text do not stop the match: bold
      around italic becomes strong around the same italic. */
  lemma BoldAroundItalicRenamed(y: string)
    requires !Occurs("</b>", y)
    requires forall k :: 0 <= k < |y| ==> !IsLineTerminator(y[k])
    ensures BoldToStrong("<b>" + ("<i>" + y + "</i>") + "</b>") == "<strong>" + ("<i>" + y + "</i>") + "</strong>"
  {
    var x := "<i>" + y + "</i>";
    assert BoldToStrong("<b>" + x + "</b>" + "") == "<strong>" + x + "</strong>" + BoldToStrong("") by {
      ItalicAroundHasNoCloseBold(y);
      ItalicAroundOneLine(y);
      BoldRenamed(x, "");
    }
    assert "<b>" + x + "</b>" + "" == "<b>" + x + "</b>";
  }

  /** Wrapping text in `<i>` and `</i>` brings in no line terminator. */
  lemma ItalicAroundOneLine(y: string)
    requires forall k :: 0 <= k < |y| ==> !IsLineTerminator(y[k])
    ensures forall k :: 0 <= k < |"<i>" + y + "</i>"| ==> !IsLineTerminator(("<i>" + y + "</i>")[k])
  {
    var x := "<i>" + y + "</i>";
    forall k | 0 <= k < |x| ensures !IsLineTerminator(x[k]) {
      if 3 <= k < 3 + |y| {
        assert x[k] == y[k - 3];
      }
    }
  }

  /** Wrapping text free of `</b>` in `<i>` and `</i>` brings in no `</b>`:
      none can start in `<i>`, and none can reach into `</i>`. */
  lemma ItalicAroundHasNoCloseBold(y: string)
    requires !Occurs("</b>", y)
    ensures !Occurs("</b>", "<i>" + y + "</i>")
  {
    var w := "</b>";
    var x := "<i>" + y + "</i>";
    assert !Occurs(w, y + "</i>") by {
      assert !Occurs(w, "</i>") by {
        assert "</i>"[1..] == "/i>" && w[2] != "</i>"[2];
        NoOccurrenceWithoutLead(w, "/i>");
      }
      assert w[1..] == "/b>";
      NoOccurrenceBeforeLead(w, y, "</i>");
    }
    assert x[1..] == "i>" + (y + "</i>") && x[1] != w[1];
    OccursPastLeadFree(w, "i>", y + "</i>");
  }

  /** `.` stops at a line terminator, so no bold match starts at a `<b>` whose
      closing tag lies on a later line. */
  lemma BoldStopsAtLineBreak(x: string, c: char, y: string)
    requires !Occurs("</b>", x) && IsLineTerminator(c)
    requires forall k :: 0 <= k < |x| ==> !IsLineTerminator(x[k])
    ensures BoldAt("<b>" + x + [c] + y + "</b>") == None
  {
    var s := "<b>" + x + [c] + y + "</b>";
    var j := 3 + |x|;
    assert s[3..j] == x && s[j] == c;
    forall k | 3 <= k <= j ensures !("</b>" <= s[k..]) {
      NoCloseBeforeBreak(s, x, j, k);
    }
    forall k | 3 <= k < j ensures !IsLineTerminator(s[k]) {
      assert s[k] == s[3..j][k - 3];
    }
    LazyCloseStopsAtLineEnd(s, 3, j, "</b>");
  }

  /** No `</b>` starts at `k` when `x` fills `s` from 3 up to a line terminator
      at `j`: one ending before `j` would lie in `x`, one reaching `j` would hold
      the terminator. */
  lemma NoCloseBeforeBreak(s: string, x: string, j: nat, k: nat)
    requires j == 3 + |x| < |s| && s[3..j] == x && IsLineTerminator(s[j])
    requires !Occurs("</b>", x) && 3 <= k <= j
    ensures !("</b>" <= s[k..])
  {
    if k + 4 <= j {
      if "</b>" <= s[k..] {
        assert x[k - 3..][..4] == s[k..k + 4];
        OccursAt("</b>", x, k - 3);
      }
    } else {
      assert s[k..][j - k] == s[j];
    }
  }

  /** Bold text spanning lines is therefore not renamed: its `<b>` is copied
      and the scan goes on after it. When neither line holds `<`, the whole text
      comes back unchanged. */
  lemma BoldAcrossLineKept(x: string, c: char, y: string)
    requires !Occurs("</b>", x) && IsLineTerminator(c)
    requires forall k :: 0 <= k < |x| ==> !IsLineTerminator(x[k])
    ensures BoldToStrong("<b>" + x + [c] + y + "</b>") == "<b>" + BoldToStrong(x + [c] + y + "</b>")
    ensures '<' !in x && '<' !in y ==>
      BoldToStrong("<b>" + x + [c] + y + "</b>") == "<b>" + x + [c] + y + "</b>"
  {
    Regroup("<b>", x, [c], y, "</b>");
    BoldStopsAtLineBreak(x, c, y);
    OpeningBoldCopied(x + [c] + y + "</b>");
    if '<' !in x && '<' !in y {
      PlainLinesKept(x + [c] + y);
    }
  }

  /** A `<b>` where no bold match starts is copied, and the scan goes on after it. */
  lemma OpeningBoldCopied(rest: string)
    requires BoldAt("<b>" + rest) == None
    ensures BoldToStrong("<b>" + rest) == "<b>" + BoldToStrong(rest)
  {
    assert "<b>"[1..] == "b>";
    UnmatchedPrefixCopied(BoldAt, "<b>", "<b>", rest);
  }

  /** Text without `<` before a `</b>` is left alone by the renaming. */
  lemma PlainLinesKept(lines: string)
    requires '<' !in lines
    ensures BoldToStrong(lines + "</b>") == lines + "</b>"
  {
    assert BoldToStrong("</b>") == "</b>" by {
      assert "</b>"[1] != "<b>"[1];
      NoOccurrenceWithoutLead("<b>", "</b>"[1..]);
    }
    ReplaceAllKeepsLeadFreePrefix(BoldAt, "<b>", lines, "</b>");
  }

  /** A closing `</b>` is a listed tag, so the tag-stripping pass keeps it and
      goes on after it. */
  lemma ClosingBoldKept(x: string)
    ensures StripUnlistedTags("</b>" + x) == "</b>" + StripUnlistedTags(x)
    ensures StripUnlistedTags("</b>") == "</b>"
  {
    ListedBoldCopied("</b>", 2, x);
    ListedBoldCopied("</b>", 2, []);
    assert "</b>" + [] == "</b>";
  }

  /** The `<b>` that the renaming pass left in place is a listed tag, so the
      tag-stripping pass keeps it; with text free of `<` before the `</b>`, the
      whole bold text survives. */
  lemma UnrenamedBoldKept(x: string)
    ensures StripUnlistedTags("<b>" + x + "</b>") == "<b>" + StripUnlistedTags(x + "</b>")
    ensures '<' !in x ==> StripUnlistedTags("<b>" + x + "</b>") == "<b>" + x + "</b>"
  {
    assert "<b>" + x + "</b>" == "<b>" + (x + "</b>");
    ListedBoldCopied("<b>", 1, x + "</b>");
    if '<' !in x {
      ClosingBoldKept([]);
      ReplaceAllKeepsLeadFreePrefix(StripTagAt, "<", x, "</b>");
    }
  }

  /** A tag `t` naming b at `p`, and ending in `>`, is copied whole. */
  lemma ListedBoldCopied(t: string, p: nat, x: string)
    requires |t| == p + 2 && t[0] == '<' && t[p..] == "b>" && (p == 1 || (p == 2 && t[1] == '/'))
    ensures StripUnlistedTags(t + x) == t + StripUnlistedTags(x)
  {
    var s := t + x;
    assert StripTagAt(s).None? by {
      assert t[p] == t[p..][0] == 'b' && t[p + 1] == t[p..][1] == '>';
      assert s[1] == t[1] && s[p] == t[p] && s[p + 1] == t[p + 1];
      BoldNameAt(s, p);
    }
    assert '<' !in t[1..] by {
      assert t[1..] == t[1..p] + t[p..];
      assert t[1..p] == if p == 2 then "/" else [];
    }
    UnmatchedPrefixCopied(StripTagAt, "<", t, x);
  }

  /** `b`, or `/b`, after the `<` and followed by a non-word character opens a
      listed tag. */
  lemma BoldNameAt(s: string, p: nat)
    requires p + 1 < |s| && s[p] == 'b' && !IsWordChar(s[p + 1])
    requires p == 1 || (p == 2 && s[1] == '/')
    ensures NameAt(s, p, "b") && OpensListedTag(s)
  {
    assert s[p..p + 1] == [s[p]];
  }

  /** Text without `<` passes the tag-stripping pass unchanged. */
  lemma TagFreeKept(s: string)
    requires '<' !in s
    ensures StripUnlistedTags(s) == s
  {
    NoOccurrenceWithoutLead("<", s);
  }

  /** Stripping tags deletes characters and nothing else. */
  lemma StripUnlistedTagsOnlyDeletes(s: string)
    ensures IsSubsequence(StripUnlistedTags(s), s)
  {
    ReplaceAllOnlyDeletes(StripTagAt, s);
  }

  /** A complete tag other than strong, em, b and i is deleted. */
  lemma UnlistedTagRemoved(t: string, rest: string)
    requires '>' !in t
    requires !OpensListedTag("<" + t + ">" + rest)
    ensures StripUnlistedTags("<" + t + ">" + rest) == StripUnlistedTags(rest)
  {
    var s := "<" + t + ">" + rest;
    assert s[|t| + 1] == '>';
    assert forall k :: 1 <= k < |t| + 1 ==> s[k] == t[k - 1];
    FindCharAt(s, 1, |t| + 1, '>');
    ReplaceAllMatchStep(StripTagAt, s);
    assert s[|t| + 2..] == rest;
  }

  /** A tag that opens or closes strong, em, b or i is kept. */
  lemma ListedTagKept(s: string)
    requires s != [] && s[0] == '<' && OpensListedTag(s)
    ensures StripUnlistedTags(s) == "<" + StripUnlistedTags(s[1..])
  {
    NoMatchCopiesFirst(StripTagAt, s);
  }

  /** The word boundary lets `<br>` through the lookahead, so it is removed. */
  lemma BreakTagRemoved()
    ensures StripUnlistedTags("<br>") == []
  {
    assert !OpensListedTag("<br>");
    assert StripTagAt("<br>") == Some(Match(4, []));
  }

  /** A `<b` followed by a space and attributes is a listed tag, so it is kept. */
  lemma BoldTagWithAttributeKept(a: string)
    requires '<' !in a
    ensures StripUnlistedTags("<b " + a) == "<b " + a
  {
    var s := "<b " + a;
    assert StripTagAt(s).None? by {
      assert s[1] == 'b' && s[2] == ' ';
      BoldNameAt(s, 1);
    }
    assert "<b "[1..] == "b ";
    UnmatchedPrefixCopied(StripTagAt, "<", "<b ", a);
    TagFreeKept(a);
  }

  /** A tag whose second character neither is `/` nor starts a listed name
      opens no listed tag. */
  lemma NoListedNameAt(s: string)
    requires |s| > 1 && s[1] !in "/sebi"
    ensures !OpensListedTag(s)
  {
    forall name | |name| > 0 && name[0] in "sebi" ensures !NameAt(s, 1, name) {
      if 1 + |name| <= |s| {
        assert s[1..1 + |name|][0] == s[1];
      }
    }
    assert "strong"[0] == 's' && "em"[0] == 'e' && "b"[0] == 'b' && "i"[0] == 'i';
  }

  /** One pass does not always leave only listed tags: deleting `<x>` joins
      `<b` and `c>` into the unlisted tag `<bc>`. */
  lemma StrippingCanJoinTag()
    ensures StripUnlistedTags("<b<x>c>") == "<bc>"
  {
    JoinedTagTail();
    JoinedTagHead();
  }

  /** `<x>` is deleted and `c>` copied. */
  lemma JoinedTagTail()
    ensures StripUnlistedTags("<x>c>") == "c>"
  {
    assert StripUnlistedTags("c>") == "c>" by {
      NoOccurrenceWithoutLead("<", "c>");
      ReplaceAllIdentity(StripTagAt, "<", "c>");
    }
    var s := "<x>c>";
    assert s[1] == 'x';
    NoListedNameAt(s);
    FindCharAt(s, 1, 2, '>');
    assert StripTagAt(s) == Some(Match(3, []));
    assert s[3..] == "c>";
  }

  /** `<b` opens a listed tag and `b` has no tag at it, so both are copied. */
  lemma JoinedTagHead()
    ensures StripUnlistedTags("<b<x>c>") == "<b" + StripUnlistedTags("<x>c>")
  {
    var s := "<b<x>c>";
    assert s[1..] == "b" + s[2..] && s[2..] == "<x>c>";
    assert StripUnlistedTags(s[1..]) == "b" + StripUnlistedTags(s[2..]) by {
      assert StripTagAt(s[1..]) == None;
      NoMatchCopiesFirst(StripTagAt, s[1..]);
    }
    assert StripUnlistedTags(s) == "<" + StripUnlistedTags(s[1..]) by {
      assert s[1] == 'b' && s[2] == '<';
      BoldNameAt(s, 1);
      ListedTagKept(s);
    }
  }

  /** An extract without `[` and `<` passes the substitutions unchanged, so the
      snippet is the extract itself, truncated when it is too long. */
  lemma PlainExtractOnlyTruncated(extract: string)
    requires '[' !in extract && '<' !in extract
    ensures Cleaned(extract) == extract
    ensures |extract| <= SnippetLimit ==> ProcessExtractForDisplay(extract) == extract
    ensures |extract| > SnippetLimit ==>
      ProcessExtractForDisplay(extract) == extract[..SnippetLimit] + Ellipsis
  {
  }

  // ----- Search results -----

  /** A page of the prefix-search response, as `data.query.pages` holds it. */
  datatype Page = Page(pageid: int, title: string, extract: Option<string>, thumbnail: Option<string>)

  /** A page as the list shows it, its extract replaced by the snippet. */
  datatype SearchResult = SearchResult(pageid: int, title: string, extract: string, thumbnail: Option<string>)

  /** What the debounced request produced: the values of `data.query.pages`, in
      the order `Object.values` lists them; a response without `query.pages`; or
      a failure of the request or of the JSON decoding. */
  datatype SearchOutcome = Pages(pages: seq<Page>) | NoPages | Failed

  /** `{...page, extract: processExtractForDisplay(page.extract || '')}`. */
  function ToResult(page: Page): (r: SearchResult)
    ensures r.pageid == page.pageid && r.title == page.title && r.thumbnail == page.thumbnail
    ensures |r.extract| <= SnippetLimit + |Ellipsis|
    ensures page.extract.None? ==> r.extract == []
    ensures page.extract.Some? ==> r.extract == ProcessExtractForDisplay(page.extract.value)
  {
    var extract := match page.extract case Some(e) => e case None => [];
    SearchResult(page.pageid, page.title, ProcessExtractForDisplay(extract), page.thumbnail)
  }

  /** The pages turned into results, of which the first `MaxResults` are kept. */
  function ShownResults(pages: seq<Page>): (r: seq<SearchResult>)
    ensures |r| <= MaxResults && |r| <= |pages|
    ensures |pages| >= MaxResults ==> |r| == MaxResults
    ensures forall i :: 0 <= i < |r| ==> r[i] == ToResult(pages[i])
  {
    var processed := seq(|pages|, i requires 0 <= i < |pages| => ToResult(pages[i]));
    if |processed| > MaxResults then processed[..MaxResults] else processed
  }

  /** Every page is kept when there are few enough of them. */
  lemma FewPagesAllShown(pages: seq<Page>)
    requires |pages| <= MaxResults
    ensures |ShownResults(pages)| == |pages|
    ensures forall i :: 0 <= i < |pages| ==> ShownResults(pages)[i].pageid == pages[i].pageid
  {
  }

  // ----- The search box -----

  /** The state of the search box. Timers and the network are not modelled:
      the debounce timer firing and a response arriving are methods the
      environment calls. */
  class SearchBox {
    var query: string
    var results: seq<SearchResult>
    var isLoading: bool
    var showResults: bool
    /** A debounced search is waiting on its timer; when it fires it searches
        for `pendingQuery`, the query its closure captured. */
    var timerPending: bool
    var pendingQuery: string
    /** Searches whose timer fired and whose response has not arrived yet. */
    var inFlight: nat

    /** The list holds at most `MaxResults` snippets, each of bounded length. */
    ghost predicate Valid()
      reads this
    {
      |results| <= MaxResults &&
      forall i :: 0 <= i < |results| ==> |results[i].extract| <= SnippetLimit + |Ellipsis|
    }

    /** The drop-down is drawn only when it is open and has something to show. */
    predicate ListVisible()
      reads this
    {
      showResults && |results| > 0
    }

    constructor ()
      ensures Valid()
      ensures query == [] && results == [] && !isLoading && !showResults
      ensures !timerPending && pendingQuery == [] && inFlight == 0
    {
      query := [];
      results := [];
      isLoading := false;
      showResults := false;
      timerPending := false;
      pendingQuery := [];
      inFlight := 0;
    }

    /** The effect that runs after `query` changed: a short query empties and
        closes the list (leaving an earlier timer running); a longer one
        replaces any waiting timer by a new one for the current query. */
    method QueryEffect()
      requires Valid()
      modifies this
      ensures Valid()
      ensures query == old(query) && isLoading == old(isLoading) && inFlight == old(inFlight)
      ensures |query| < MinQueryLength ==>
        results == [] && !showResults && timerPending == old(timerPending) && pendingQuery == old(pendingQuery)
      ensures |query| >= MinQueryLength ==>
        results == old(results) && showResults == old(showResults) && timerPending && pendingQuery == query
    {
      if |query| < MinQueryLength {
        results := [];
        showResults := false;
        return;
      }
      timerPending := true;
      pendingQuery := query;
    }

    /** The input's change handler. The effect runs only when the value differs. */
    method SetQuery(q: string)
      requires Valid()
      modifies this
      ensures Valid()
      ensures query == q && isLoading == old(isLoading) && inFlight == old(inFlight)
      ensures q == old(query) ==>
        results == old(results) && showResults == old(showResults) &&
        timerPending == old(timerPending) && pendingQuery == old(pendingQuery)
      ensures q != old(query) && |q| < MinQueryLength ==>
        results == [] && !showResults && timerPending == old(timerPending) && pendingQuery == old(pendingQuery)
      ensures q != old(query) && |q| >= MinQueryLength ==>
        results == old(results) && showResults == old(showResults) && timerPending && pendingQuery == q
    {
      if q != query {
        query := q;
        QueryEffect();
      }
    }

    /** The debounce timer fires: loading starts and the request for the
        captured query is sent. */
    method TimerFires() returns (searched: string)
      requires Valid() && timerPending
      modifies this
      ensures Valid()
      ensures searched == old(pendingQuery)
      ensures isLoading && !timerPending && inFlight == old(inFlight) + 1
      ensures query == old(query) && results == old(results) && showResults == old(showResults)
      ensures pendingQuery == old(pendingQuery)
    {
      isLoading := true;
      timerPending := false;
      inFlight := inFlight + 1;
      searched := pendingQuery;
    }

    /** A response arrives: pages fill and open the list, anything else empties
        and closes it, and loading stops in every case. */
    method ResponseArrives(outcome: SearchOutcome)
      requires Valid() && inFlight > 0
      modifies this
      ensures Valid()
      ensures outcome.Pages? ==> results == ShownResults(outcome.pages) && showResults
      ensures !outcome.Pages? ==> results == [] && !showResults
      ensures !isLoading && inFlight == old(inFlight) - 1
      ensures query == old(query) && timerPending == old(timerPending) && pendingQuery == old(pendingQuery)
    {
      if outcome.Pages? {
        results := ShownResults(outcome.pages);
        showResults := true;
      } else {
        results := [];
        showResults := false;
      }
      isLoading := false;
      inFlight := inFlight - 1;
    }

    /** Focusing the input reopens the list when the query is long enough. */
    method Focus()
      requires Valid()
      modifies this
      ensures Valid()
      ensures showResults == (old(showResults) || |query| >= MinQueryLength)
      ensures query == old(query) && results == old(results) && isLoading == old(isLoading)
      ensures timerPending == old(timerPending) && pendingQuery == old(pendingQuery) && inFlight == old(inFlight)
    {
      if |query| >= MinQueryLength {
        showResults := true;
      }
    }

    /** Choosing a result reports its title and page id to the caller, puts the
        title in the input and closes the list. The new query runs the effect
        again, so a title of two characters or more schedules a new search. */
    method ArticleClicked(result: SearchResult) returns (title: string, pageid: int)
      requires Valid()
      modifies this
      ensures Valid()
      ensures title == result.title && pageid == result.pageid
      ensures query == result.title && !showResults
      ensures isLoading == old(isLoading) && inFlight == old(inFlight)
      ensures result.title == old(query) || |result.title| < MinQueryLength ==>
        timerPending == old(timerPending) && pendingQuery == old(pendingQuery)
      ensures result.title != old(query) && |result.title| >= MinQueryLength ==>
        timerPending && pendingQuery == result.title
      ensures result.title != old(query) && |result.title| < MinQueryLength ==> results == []
      ensures result.title == old(query) || |result.title| >= MinQueryLength ==> results == old(results)
    {
      title := result.title;
      pageid := result.pageid;
      SetQuery(result.title);
      showResults := false;
    }
  }

  // ----- Consequences of the event handling -----

  /** Shortening the query does not cancel a waiting timer, so a search for the
      longer query still runs and opens the list under a one-character query. */
  method StaleSearchAfterShortening(page: Page) returns (box: SearchBox)
    ensures |box.query| < MinQueryLength && box.ListVisible()
    ensures box.results == [ToResult(page)]
  {
    box := new SearchBox();
    box.SetQuery("ab");
    box.SetQuery("a");
    var searched := box.TimerFires();
    assert searched == "ab";
    box.ResponseArrives(Pages([page]));
  }

  /** Choosing a result closes the list, but the search for its title that the
      new query schedules opens it again. */
  method SelectionReopensList(q: string, page: Page) returns (box: SearchBox)
    requires |q| >= MinQueryLength && |page.title| >= MinQueryLength && page.title != q
    ensures box.query == page.title && box.ListVisible()
  {
    box := new SearchBox();
    box.SetQuery(q);
    var _ := box.TimerFires();
    box.ResponseArrives(Pages([page]));
    var title, pageid := box.ArticleClicked(box.results[0]);
    assert !box.ListVisible();
    var searched := box.TimerFires();
    assert searched == page.title;
    box.ResponseArrives(Pages([page]));
  }

  /** Loading stops at the first response, even while a later search is still
      waiting for its own. */
  method LoadingClearedEarly() returns (box: SearchBox)
    ensures box.inFlight == 1 && !box.isLoading
  {
    box := new SearchBox();
    box.SetQuery("ab");
    var _ := box.TimerFires();
    box.SetQuery("abc");
    var _ := box.TimerFires();
    box.ResponseArrives(Failed);
  }
}
