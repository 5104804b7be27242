/** The article view: fetching an article's HTML extract, rewriting it into
    styled markup, and the loading, error and content state around it. */
module WikipediaContent {
  import opened Text
  import opened Rewrite

  const HrefOpen: string := "href=\""
  const WikiPath: string := "/wiki/"
  const HttpsScheme: string := "https://"
  const WikiHost: string := "en.wikipedia.org"
  const WikiOrigin: string := HttpsScheme + WikiHost
  /** `href="/wiki/`, the start of a relative link to another article. */
  const WikiHref: string := HrefOpen + WikiPath
  /** `href="https://en.wikipedia.org/wiki/`, what the address pass puts in its place. */
  const AbsoluteWikiHref: string := HrefOpen + WikiOrigin + WikiPath
  const NotFoundMessage: string := "Article content not found"
  const FetchFailedMessage: string := "Failed to fetch article content"

  // ----- The patterns of processWikipediaContent -----

  /** The replacement of an anchor with address `h` and text `t`. */
  function CanonicalAnchor(h: string, t: string): string {
    "<a href=\"" + h + "\" class=\"wikipedia-link\">" + t + "</a>"
  }

  /** `/<a\s+href="([^"]*)"[^>]*>([^<]*)<\/a>/g` replaced by
      `<a href="$1" class="wikipedia-link">$2</a>`. Each part of the pattern is
      a greedy run that must stop at one particular character, so backtracking
      never finds a second way to match. */
  function AnchorAt(s: string): (r: Option<Match>)
    ensures r.Some? ==> 0 < r.value.len <= |s| && "<a" <= s
  {
    if "<a" <= s then AnchorAfterSpaces(s, RunEnd(s, 2, IsSpace)) else None
  }

  /** The rest of the anchor pattern once the run of spaces ends at `w`:
      `href="`, then the address up to the next `"`. */
  function AnchorAfterSpaces(s: string, w: nat): (r: Option<Match>)
    requires 2 <= w <= |s|
    ensures r.Some? ==> 0 < r.value.len <= |s|
  {
    if w > 2 && "href=\"" <= s[w..] then
      match FindChar(s, w + 6, '"')
      case None => None
      case Some(q) => AnchorAfterAddress(s, w + 6, q)
    else None
  }

  /** The rest once the address `s[p..q]` is read: attributes up to `>`, the
      text up to `<`, and `</a>`. */
  function AnchorAfterAddress(s: string, p: nat, q: nat): (r: Option<Match>)
    requires p <= q < |s|
    ensures r.Some? ==> 0 < r.value.len <= |s|
  {
    match FindChar(s, q + 1, '>')
    case None => None
    case Some(g) =>
      match FindChar(s, g + 1, '<')
      case None => None
      case Some(l) =>
        if "</a>" <= s[l..] then Some(Match(l + 4, CanonicalAnchor(s[p..q], s[g + 1..l]))) else None
  }

  /** The text before and after the marker in a citation's superscript anchor. */
  function CitationOpen(d: string): string {
    "<sup><a href=\"#citation-" + d + "\" class=\"wikipedia-citation\">"
  }

  const CitationClose: string := "</a></sup>"

  /** The replacement of the marker `[d]`. */
  function CitationAnchor(d: string): string {
    CitationOpen(d) + ("[" + d + "]") + CitationClose
  }

  /** `/\[(\d+)\]/g` replaced by the superscript citation anchor. */
  function CitationWrapAt(s: string): (r: Option<Match>)
    ensures r.Some? ==> 0 < r.value.len <= |s| && "[" <= s
  {
    match CitationAt(s)
    case Some(n) => Some(Match(n + 2, CitationAnchor(s[1..n + 1])))
    case None => None
  }

  /** `/href="\/wiki\//g` replaced by the absolute address. */
  function WikiHrefAt(s: string): (r: Option<Match>)
    ensures r.Some? ==> 0 < r.value.len <= |s| && WikiHref <= s
  {
    if WikiHref <= s then Some(Match(|WikiHref|, AbsoluteWikiHref)) else None
  }

  /** The start of a classed opening tag. */
  function ClassHead(into: string, cls: string): string {
    "<" + into + " class=\"" + cls + "\""
  }

  /** `/<name([^>]*)>/g` replaced by `<into class="cls"$1>`. There is no word
      boundary after the name, so `<p` also matches `<pre>` and `<b` matches `<br>`. */
  function ClassTagAt(name: string, into: string, cls: string, s: string): (r: Option<Match>)
    ensures r.Some? ==> 0 < r.value.len <= |s| && "<" + name <= s
  {
    if "<" + name <= s then
      match FindChar(s, |name| + 1, '>')
      case Some(j) => Some(Match(j + 1, ClassHead(into, cls) + s[|name| + 1..j] + ">"))
      case None => None
    else None
  }

  function Heading2At(s: string): (r: Option<Match>)
    ensures r.Some? ==> 0 < r.value.len <= |s| && "<h2" <= s
  {
    ClassTagAt("h2", "h2", "wikipedia-heading-2", s)
  }

  function Heading3At(s: string): (r: Option<Match>)
    ensures r.Some? ==> 0 < r.value.len <= |s| && "<h3" <= s
  {
    ClassTagAt("h3", "h3", "wikipedia-heading-3", s)
  }

  function Heading4At(s: string): (r: Option<Match>)
    ensures r.Some? ==> 0 < r.value.len <= |s| && "<h4" <= s
  {
    ClassTagAt("h4", "h4", "wikipedia-heading-4", s)
  }

  function ParagraphAt(s: string): (r: Option<Match>)
    ensures r.Some? ==> 0 < r.value.len <= |s| && "<p" <= s
  {
    ClassTagAt("p", "p", "wikipedia-paragraph", s)
  }

  function BoldTagAt(s: string): (r: Option<Match>)
    ensures r.Some? ==> 0 < r.value.len <= |s| && "<b" <= s
  {
    ClassTagAt("b", "strong", "wikipedia-bold", s)
  }

  function ItalicTagAt(s: string): (r: Option<Match>)
    ensures r.Some? ==> 0 < r.value.len <= |s| && "<i" <= s
  {
    ClassTagAt("i", "em", "wikipedia-italic", s)
  }

  // ----- The passes, in the order the source applies them -----

  function CanonicalLinks(s: string): (r: string)
    ensures !Occurs("<a", s) ==> r == s
  {
    ReplaceAllIdentity(AnchorAt, "<a", s);
    ReplaceAll(AnchorAt, s)
  }

  function CiteMarkers(s: string): (r: string)
    ensures !Occurs("[", s) ==> r == s
  {
    ReplaceAllIdentity(CitationWrapAt, "[", s);
    ReplaceAll(CitationWrapAt, s)
  }

  function AbsoluteLinks(s: string): (r: string)
    ensures !Occurs(WikiHref, s) ==> r == s
  {
    ReplaceAllIdentity(WikiHrefAt, WikiHref, s);
    ReplaceAll(WikiHrefAt, s)
  }

  /** The six opening-tag passes: headings 2 to 4, paragraphs, bold, italic.
      Text in which none of the six tag openings occurs passes unchanged. */
  function StyleTags(s: string): (r: string)
    ensures (!Occurs("<h2", s) && !Occurs("<h3", s) && !Occurs("<h4", s)
             && !Occurs("<p", s) && !Occurs("<b", s) && !Occurs("<i", s)) ==> r == s
  {
    ReplaceAllIdentity(Heading2At, "<h2", s);
    ReplaceAllIdentity(Heading3At, "<h3", s);
    ReplaceAllIdentity(Heading4At, "<h4", s);
    ReplaceAllIdentity(ParagraphAt, "<p", s);
    ReplaceAllIdentity(BoldTagAt, "<b", s);
    ReplaceAllIdentity(ItalicTagAt, "<i", s);
    var h := ReplaceAll(Heading4At, ReplaceAll(Heading3At, ReplaceAll(Heading2At, s)));
    ReplaceAll(ItalicTagAt, ReplaceAll(BoldTagAt, ReplaceAll(ParagraphAt, h)))
  }

  /** `processWikipediaContent`. */
  function ProcessWikipediaContent(html: string): (r: string)
    ensures html == [] ==> r == []
  {
    StyleTags(AbsoluteLinks(CiteMarkers(CanonicalLinks(html))))
  }

  // ----- Anchors -----

  /** `[^c]*c` run over `piece` stops right after it. */
  lemma FindCharAfter(s: string, i: nat, piece: string, c: char)
    requires i + |piece| < |s| && s[i..i + |piece|] == piece && c !in piece && s[i + |piece|] == c
    ensures FindChar(s, i, c) == Some(i + |piece|)
  {
    forall k | i <= k < i + |piece| ensures s[k] != c {
      assert s[k] == piece[k - i];
    }
    FindCharAt(s, i, i + |piece|, c);
  }

  /** The same, for a string written as the text before, the piece, `c` and the text after. */
  lemma FindCharPast(x: string, piece: string, c: char, y: string)
    requires c !in piece
    ensures FindChar(x + piece + [c] + y, |x|, c) == Some(|x| + |piece|)
  {
    var s := x + piece + [c] + y;
    assert s[|x|..|x| + |piece|] == piece;
    FindCharAfter(s, |x|, piece, c);
  }

  /** The run of spaces after `<a` ends where the address starts. */
  lemma SpaceRunEnds(sp: string, y: string)
    requires forall k :: 0 <= k < |sp| ==> IsSpace(sp[k])
    requires y != [] && y[0] == 'h'
    ensures RunEnd("<a" + sp + y, 2, IsSpace) == 2 + |sp|
  {
    var s := "<a" + sp + y;
    assert forall k :: 2 <= k < 2 + |sp| ==> s[k] == sp[k - 2];
    assert s[2 + |sp|] == y[0];
    RunEndAt(s, 2, 2 + |sp|, IsSpace);
  }

  /** The anchor written out, without what follows it. */
  function AnchorHtml(sp: string, h: string, a: string, t: string): string {
    "<a" + sp + "href=\"" + h + "\"" + a + ">" + t + "</a>"
  }

  /** The address of a written-out anchor ends at the first `"` after `href="`. */
  lemma AnchorAddressEnds(sp: string, h: string, a: string, t: string, rest: string)
    requires '"' !in h
    ensures var w := |sp| + 2;
      FindChar(AnchorHtml(sp, h, a, t) + rest, w + 6, '"') == Some(w + 6 + |h|)
  {
    var x := "<a" + sp + "href=\"";
    var y := a + ">" + t + "</a>" + rest;
    assert AnchorHtml(sp, h, a, t) + rest == x + h + ['"'] + y;
    FindCharPast(x, h, '"', y);
  }

  /** The attributes after the address end at the first `>`. */
  lemma AnchorAttributesEnd(sp: string, h: string, a: string, t: string, rest: string)
    requires '>' !in a
    ensures var q := |sp| + 2 + 6 + |h|;
      FindChar(AnchorHtml(sp, h, a, t) + rest, q + 1, '>') == Some(q + 1 + |a|)
  {
    var x := "<a" + sp + "href=\"" + h + "\"";
    var y := t + "</a>" + rest;
    assert AnchorHtml(sp, h, a, t) + rest == x + a + ['>'] + y;
    FindCharPast(x, a, '>', y);
  }

  /** The text of the anchor ends at the first `<`. */
  lemma AnchorTextEnds(sp: string, h: string, a: string, t: string, rest: string)
    requires '<' !in t
    ensures var g := |sp| + 2 + 6 + |h| + 1 + |a|;
      FindChar(AnchorHtml(sp, h, a, t) + rest, g + 1, '<') == Some(g + 1 + |t|)
  {
    var x := "<a" + sp + "href=\"" + h + "\"" + a + ">";
    var y := "/a>" + rest;
    assert AnchorHtml(sp, h, a, t) + rest == x + t + ['<'] + y;
    FindCharPast(x, t, '<', y);
  }

  /** A written-out anchor opens with `<a` and has `href="` after its spaces. */
  lemma AnchorOpening(sp: string, h: string, a: string, t: string, rest: string)
    ensures var s := AnchorHtml(sp, h, a, t) + rest;
      var w := |sp| + 2;
      "<a" <= s && w <= |s| && "href=\"" <= s[w..]
  {
    var s := AnchorHtml(sp, h, a, t) + rest;
    assert s == "<a" + sp + ("href=\"" + (h + "\"" + a + ">" + t + "</a>" + rest));
  }

  /** The address of a written-out anchor stands right after `href="`. */
  lemma AnchorAddress(sp: string, h: string, a: string, t: string, rest: string)
    ensures var s := AnchorHtml(sp, h, a, t) + rest;
      var w := |sp| + 2;
      var q := w + 6 + |h|;
      q <= |s| && s[w + 6..q] == h
  {
    var s := AnchorHtml(sp, h, a, t) + rest;
    assert s == "<a" + sp + "href=\"" + h + ("\"" + a + ">" + t + "</a>" + rest);
  }

  /** The text of a written-out anchor is followed by `</a>`. */
  lemma AnchorText(sp: string, h: string, a: string, t: string, rest: string)
    ensures var s := AnchorHtml(sp, h, a, t) + rest;
      var g := |sp| + 2 + 6 + |h| + 1 + |a|;
      var l := g + 1 + |t|;
      l + 4 <= |s| && s[g + 1..l] == t && "</a>" <= s[l..]
  {
    var s := AnchorHtml(sp, h, a, t) + rest;
    assert s == "<a" + sp + "href=\"" + h + "\"" + a + ">" + t + ("</a>" + rest);
  }

  lemma AnchorTagStage(s: string)
    requires "<a" <= s
    ensures AnchorAt(s) == AnchorAfterSpaces(s, RunEnd(s, 2, IsSpace))
  {
  }

  lemma AnchorAddressStage(s: string, w: nat, q: nat)
    requires 2 < w <= |s| && "href=\"" <= s[w..]
    requires FindChar(s, w + 6, '"') == Some(q)
    ensures AnchorAfterSpaces(s, w) == AnchorAfterAddress(s, w + 6, q)
  {
  }

  lemma AnchorCloseStage(s: string, p: nat, q: nat, g: nat, l: nat)
    requires p <= q < |s|
    requires FindChar(s, q + 1, '>') == Some(g)
    requires FindChar(s, g + 1, '<') == Some(l)
    requires "</a>" <= s[l..]
    ensures AnchorAfterAddress(s, p, q) == Some(Match(l + 4, CanonicalAnchor(s[p..q], s[g + 1..l])))
  {
  }

  /** The anchor pattern matches wherever its parts stand at the positions given. */
  lemma AnchorAtPositions(s: string, w: nat, q: nat, g: nat, l: nat)
    requires "<a" <= s && 2 < w <= |s| && RunEnd(s, 2, IsSpace) == w && "href=\"" <= s[w..]
    requires FindChar(s, w + 6, '"') == Some(q)
    requires FindChar(s, q + 1, '>') == Some(g)
    requires FindChar(s, g + 1, '<') == Some(l)
    requires "</a>" <= s[l..]
    ensures AnchorAt(s) == Some(Match(l + 4, CanonicalAnchor(s[w + 6..q], s[g + 1..l])))
  {
    AnchorTagStage(s);
    AnchorAddressStage(s, w, q);
    AnchorCloseStage(s, w + 6, q, g, l);
  }

  /** The run of spaces of a written-out anchor ends at `href`. */
  lemma AnchorSpacesEnd(sp: string, h: string, a: string, t: string, rest: string)
    requires forall k :: 0 <= k < |sp| ==> IsSpace(sp[k])
    ensures RunEnd(AnchorHtml(sp, h, a, t) + rest, 2, IsSpace) == |sp| + 2
  {
    var y := "href=\"" + h + "\"" + a + ">" + t + "</a>" + rest;
    assert AnchorHtml(sp, h, a, t) + rest == "<a" + sp + y;
    SpaceRunEnds(sp, y);
  }

  /** The pattern matches a written-out anchor, taking the address and text
      from where they stand. */
  lemma AnchorAtWrittenOut(sp: string, h: string, a: string, t: string, rest: string)
    requires sp != [] && RunEnd(AnchorHtml(sp, h, a, t) + rest, 2, IsSpace) == |sp| + 2
    requires '"' !in h && '>' !in a && '<' !in t
    ensures var s := AnchorHtml(sp, h, a, t) + rest;
      var w := |sp| + 2;
      var q := w + 6 + |h|;
      var g := q + 1 + |a|;
      var l := g + 1 + |t|;
      AnchorAt(s) == Some(Match(l + 4, CanonicalAnchor(s[w + 6..q], s[g + 1..l])))
  {
    var s := AnchorHtml(sp, h, a, t) + rest;
    var w := |sp| + 2;
    var q := w + 6 + |h|;
    var g := q + 1 + |a|;
    var l := g + 1 + |t|;
    assert "<a" <= s && w <= |s| && "href=\"" <= s[w..] by {
      AnchorOpening(sp, h, a, t, rest);
    }
    assert l + 4 <= |s| && "</a>" <= s[l..] by {
      AnchorText(sp, h, a, t, rest);
    }
    assert FindChar(s, w + 6, '"') == Some(q) by {
      AnchorAddressEnds(sp, h, a, t, rest);
    }
    assert FindChar(s, q + 1, '>') == Some(g) by {
      AnchorAttributesEnd(sp, h, a, t, rest);
    }
    assert FindChar(s, g + 1, '<') == Some(l) by {
      AnchorTextEnds(sp, h, a, t, rest);
    }
    AnchorAtPositions(s, w, q, g, l);
  }

  /** An anchor whose address holds no `"` and whose text holds no tag is
      matched in full, and rewritten with only its address and its text. */
  lemma AnchorMatched(sp: string, h: string, a: string, t: string, rest: string)
    requires sp != [] && forall k :: 0 <= k < |sp| ==> IsSpace(sp[k])
    requires '"' !in h && '>' !in a && '<' !in t
    ensures AnchorAt(AnchorHtml(sp, h, a, t) + rest)
         == Some(Match(|sp| + |h| + |a| + |t| + 14, CanonicalAnchor(h, t)))
  {
    AnchorSpacesEnd(sp, h, a, t, rest);
    AnchorAtWrittenOut(sp, h, a, t, rest);
    AnchorAddress(sp, h, a, t, rest);
    AnchorText(sp, h, a, t, rest);
  }

  /** Such an anchor is rewritten, and the scan resumes after its `</a>`. */
  lemma AnchorCanonicalised(sp: string, h: string, a: string, t: string, rest: string)
    requires sp != [] && forall k :: 0 <= k < |sp| ==> IsSpace(sp[k])
    requires '"' !in h && '>' !in a && '<' !in t
    ensures CanonicalLinks(AnchorHtml(sp, h, a, t) + rest)
         == CanonicalAnchor(h, t) + CanonicalLinks(rest)
  {
    var s := AnchorHtml(sp, h, a, t) + rest;
    AnchorMatched(sp, h, a, t, rest);
    ReplaceAllMatchStep(AnchorAt, s);
    assert s[|sp| + |h| + |a| + |t| + 14..] == rest;
  }

  // ----- Citations -----

  /** A citation marker becomes one superscript anchor with the same digits. */
  lemma CitationWrapped(d: string, rest: string)
    requires IsDigits(d)
    ensures CiteMarkers("[" + d + "]" + rest) == CitationAnchor(d) + CiteMarkers(rest)
  {
    var s := "[" + d + "]" + rest;
    assert CitationWrapAt(s) == Some(Match(|d| + 2, CitationAnchor(d))) by {
      CitationAtMarker(d, rest);
      assert s[1..|d| + 1] == d;
    }
    assert s[|d| + 2..] == rest;
    ReplaceAllMatchStep(CitationWrapAt, s);
  }

  lemma NoBracketInCitationOpen(d: string)
    requires IsDigits(d)
    ensures '[' !in CitationOpen(d)
  {
    assert '[' !in d by {
      forall k | 0 <= k < |d| ensures d[k] != '[' {
        assert IsDigit(d[k]);
      }
    }
  }

  /** Wrapping a wrapper wraps the marker it holds again. */
  lemma CitationAnchorRewrapped(d: string)
    requires IsDigits(d)
    ensures CiteMarkers(CitationAnchor(d)) == CitationOpen(d) + CitationAnchor(d) + CitationClose
  {
    var marker := "[" + d + "]";
    calc {
      CiteMarkers(CitationAnchor(d));
    == { assert CitationAnchor(d) == CitationOpen(d) + (marker + CitationClose); }
      CiteMarkers(CitationOpen(d) + (marker + CitationClose));
    == { NoBracketInCitationOpen(d);
         ReplaceAllKeepsLeadFreePrefix(CitationWrapAt, "[", CitationOpen(d), marker + CitationClose); }
      CitationOpen(d) + CiteMarkers(marker + CitationClose);
    == { CitationWrapped(d, CitationClose); }
      CitationOpen(d) + (CitationAnchor(d) + CiteMarkers(CitationClose));
    == { assert !Occurs("[", CitationClose) by { NoOccurrenceWithoutLead("[", CitationClose); }
         ReplaceAllIdentity(CitationWrapAt, "[", CitationClose); }
      CitationOpen(d) + (CitationAnchor(d) + CitationClose);
    }
  }

  /** The wrapper keeps the marker as its text, so a second run wraps it again:
      the rewriting is not idempotent. */
  lemma CitationRewrapped(d: string)
    requires IsDigits(d)
    ensures CiteMarkers("[" + d + "]") == CitationAnchor(d)
    ensures CiteMarkers(CiteMarkers("[" + d + "]")) == CitationOpen(d) + CitationAnchor(d) + CitationClose
    ensures CiteMarkers(CiteMarkers("[" + d + "]")) != CiteMarkers("[" + d + "]")
  {
    CitationWrapped(d, []);
    assert "[" + d + "]" + [] == "[" + d + "]";
    assert CiteMarkers([]) == [];
    assert CitationAnchor(d) + [] == CitationAnchor(d);
    CitationAnchorRewrapped(d);
  }

  // ----- Wiki links -----

  /** A relative wiki address becomes absolute, and the scan resumes after it. */
  lemma WikiHrefAbsolutized(rest: string)
    ensures AbsoluteLinks(WikiHref + rest) == AbsoluteWikiHref + AbsoluteLinks(rest)
  {
    var s := WikiHref + rest;
    assert WikiHref <= s;
    ReplaceAllMatchStep(WikiHrefAt, s);
    assert s[|WikiHref|..] == rest;
  }

  /** Where the address pass matches, its output starts with `h`. */
  lemma MatchOutputStartsWithH(t: string)
    requires t != []
    ensures WikiHrefAt(t).Some? ==> AbsoluteLinks(t) != [] && AbsoluteLinks(t)[0] == 'h'
  {
    if WikiHrefAt(t).Some? {
      ReplaceAllMatchStep(WikiHrefAt, t);
      assert AbsoluteWikiHref[0] == HrefOpen[0] == 'h';
    }
  }

  /** The first character of an output that does not start with `h` was copied. */
  lemma HFreeStep(u: string, t: string)
    requires u != [] && 'h' !in u && u <= AbsoluteLinks(t)
    ensures t != [] && u[0] == t[0] && u[1..] <= AbsoluteLinks(t[1..])
  {
    assert t != [];
    assert WikiHrefAt(t).None? by {
      MatchOutputStartsWithH(t);
      assert u[0] != 'h';
    }
    NoMatchCopiesFirst(WikiHrefAt, t);
  }

  /** A prefix of the output that has no `h` was already a prefix of the input,
      since every replacement starts with `h`. */
  lemma {:induction false} HFreePrefixOfOutput(u: string, t: string)
    requires 'h' !in u && u <= AbsoluteLinks(t)
    ensures u <= t
    decreases |u|
  {
    if u != [] {
      HFreeStep(u, t);
      HFreePrefixOfOutput(u[1..], t[1..]);
    }
  }

  /** Only the first character of the absolute address is an `h`. */
  lemma OneHInAbsoluteHref()
    ensures 'h' !in HrefOpen[1..] && 'h' !in WikiOrigin[1..] && 'h' !in WikiPath
    ensures HrefOpen[0] == 'h' && WikiOrigin[0] == 'h'
  {
    assert 'h' !in HrefOpen[1..] by {
      assert HrefOpen[1..] == "ref=\"";
    }
    OneHInOrigin();
  }

  lemma OneHInOrigin()
    ensures WikiOrigin[0] == 'h' && 'h' !in WikiOrigin[1..]
  {
    assert 'h' !in WikiHost;
    assert HttpsScheme[1..] == "ttps://";
    assert WikiOrigin[1..] == HttpsScheme[1..] + WikiHost;
  }

  /** The origin and path of the absolute address hold no relative address,
      even where they run into text that holds none. */
  lemma OriginHasNoRelative(r: string)
    requires !Occurs(WikiHref, r)
    ensures !Occurs(WikiHref, WikiOrigin + WikiPath + r)
  {
    OneHInAbsoluteHref();
    var tail := WikiOrigin[1..] + WikiPath;
    OccursPastLeadFree(WikiHref, tail, r);
    var o := WikiOrigin + WikiPath + r;
    assert o[1..] == tail + r;
    assert !(WikiHref <= o) by {
      assert o[1] == 't' && WikiHref[1] == 'r';
    }
  }

  /** The absolute address contains no relative one, even where it runs into
      text that contains none. */
  lemma AbsoluteHrefHasNoRelative(r: string)
    requires !Occurs(WikiHref, r)
    ensures !Occurs(WikiHref, AbsoluteWikiHref + r)
  {
    var o := WikiOrigin + WikiPath + r;
    var s := HrefOpen + o;
    assert !Occurs(WikiHref, s[1..]) by {
      OriginHasNoRelative(r);
      OneHInAbsoluteHref();
      OccursPastLeadFree(WikiHref, HrefOpen[1..], o);
      assert s[1..] == HrefOpen[1..] + o;
    }
    assert !(WikiHref <= s) by {
      assert s[6] == 'h' && WikiHref[6] == '/';
    }
    AbsoluteHrefSplit(r);
  }

  lemma AbsoluteHrefSplit(r: string)
    ensures AbsoluteWikiHref + r == HrefOpen + (WikiOrigin + WikiPath + r)
  {
  }

  /** A relative address at the start of a copied character and the output
      after it would have been matched at that character. */
  lemma RelativeAfterCopy(s: string)
    requires s != [] && WikiHref <= [s[0]] + AbsoluteLinks(s[1..])
    ensures WikiHref <= s
  {
    var r := AbsoluteLinks(s[1..]);
    var x := [s[0]] + r;
    var u := WikiHref[1..];
    assert 'h' !in u;
    assert u <= r by {
      forall i | 0 <= i < |u| ensures u[i] == r[i] {
        assert u[i] == WikiHref[i + 1] == x[i + 1];
      }
    }
    HFreePrefixOfOutput(u, s[1..]);
    assert WikiHref == [WikiHref[0]] + u;
    assert s == [s[0]] + s[1..];
  }

  /** A copied first character cannot start a relative address either. */
  lemma CopiedCharStartsNoRelative(s: string)
    requires s != [] && WikiHrefAt(s).None?
    requires !Occurs(WikiHref, AbsoluteLinks(s[1..]))
    ensures !Occurs(WikiHref, AbsoluteLinks(s))
  {
    var r := AbsoluteLinks(s[1..]);
    NoMatchCopiesFirst(WikiHrefAt, s);
    var x := [s[0]] + r;
    assert x[1..] == r;
    assert !(WikiHref <= x) by {
      if WikiHref <= x {
        RelativeAfterCopy(s);
      }
    }
  }

  /** After the address pass, `href="/wiki/` occurs nowhere. */
  lemma {:induction false} NoRelativeWikiHrefAfterAbsolutize(s: string)
    ensures !Occurs(WikiHref, AbsoluteLinks(s))
    decreases |s|
  {
    if s == [] {
      assert AbsoluteLinks(s) == [];
    } else if WikiHrefAt(s).Some? {
      ReplaceAllMatchStep(WikiHrefAt, s);
      NoRelativeWikiHrefAfterAbsolutize(s[|WikiHref|..]);
      AbsoluteHrefHasNoRelative(AbsoluteLinks(s[|WikiHref|..]));
    } else {
      NoRelativeWikiHrefAfterAbsolutize(s[1..]);
      CopiedCharStartsNoRelative(s);
    }
  }

  // ----- Opening tags -----

  /** `matcher` is the pass for `<name…>` tags classed as `<into class="cls"…>`. */
  ghost predicate IsClassTagPass(matcher: string -> Option<Match>, name: string, into: string, cls: string) {
    forall t :: matcher(t) == ClassTagAt(name, into, cls, t)
  }

  lemma ClassTagMatched(name: string, into: string, cls: string, a: string, rest: string)
    requires '>' !in a
    ensures ClassTagAt(name, into, cls, "<" + name + a + ">" + rest)
         == Some(Match(|name| + |a| + 2, ClassHead(into, cls) + a + ">"))
  {
    var s := "<" + name + a + ">" + rest;
    assert "<" + name <= s;
    assert s[|name| + 1..|name| + 1 + |a|] == a;
    FindCharAfter(s, |name| + 1, a, '>');
  }

  /** An opening tag gets the class right after its new name, and keeps the
      rest of its text. */
  lemma ClassTagStep(matcher: string -> Option<Match>, name: string, into: string, cls: string, a: string, rest: string)
    requires Progresses(matcher) && IsClassTagPass(matcher, name, into, cls)
    requires '>' !in a
    ensures ReplaceAll(matcher, "<" + name + a + ">" + rest)
         == ClassHead(into, cls) + a + ">" + ReplaceAll(matcher, rest)
  {
    var s := "<" + name + a + ">" + rest;
    ClassTagMatched(name, into, cls, a, rest);
    ReplaceAllMatchStep(matcher, s);
    assert s[|name| + |a| + 2..] == rest;
  }

  /** A level-2 heading gets the level-2 class. */
  lemma Heading2Classed(a: string, rest: string)
    requires '>' !in a
    ensures ReplaceAll(Heading2At, "<h2" + a + ">" + rest)
         == ClassHead("h2", "wikipedia-heading-2") + a + ">" + ReplaceAll(Heading2At, rest)
  {
    assert "<h2" + a + ">" + rest == "<" + "h2" + a + ">" + rest;
    ClassTagStep(Heading2At, "h2", "h2", "wikipedia-heading-2", a, rest);
  }

  /** A level-3 heading gets the level-3 class. */
  lemma Heading3Classed(a: string, rest: string)
    requires '>' !in a
    ensures ReplaceAll(Heading3At, "<h3" + a + ">" + rest)
         == ClassHead("h3", "wikipedia-heading-3") + a + ">" + ReplaceAll(Heading3At, rest)
  {
    assert "<h3" + a + ">" + rest == "<" + "h3" + a + ">" + rest;
    ClassTagStep(Heading3At, "h3", "h3", "wikipedia-heading-3", a, rest);
  }

  /** A level-4 heading gets the level-4 class. */
  lemma Heading4Classed(a: string, rest: string)
    requires '>' !in a
    ensures ReplaceAll(Heading4At, "<h4" + a + ">" + rest)
         == ClassHead("h4", "wikipedia-heading-4") + a + ">" + ReplaceAll(Heading4At, rest)
  {
    assert "<h4" + a + ">" + rest == "<" + "h4" + a + ">" + rest;
    ClassTagStep(Heading4At, "h4", "h4", "wikipedia-heading-4", a, rest);
  }

  /** Any tag whose name starts with `p` is classed as a paragraph: there is no
      word boundary after the name, so `a` may go on with letters (`<pre>`). */
  lemma ParagraphClassed(a: string, rest: string)
    requires '>' !in a
    ensures ReplaceAll(ParagraphAt, "<p" + a + ">" + rest)
         == ClassHead("p", "wikipedia-paragraph") + a + ">" + ReplaceAll(ParagraphAt, rest)
  {
    assert "<p" + a + ">" + rest == "<" + "p" + a + ">" + rest;
    ClassTagStep(ParagraphAt, "p", "p", "wikipedia-paragraph", a, rest);
  }

  /** Any tag whose name starts with `b` becomes a classed `strong`, `<br>` included. */
  lemma BoldClassed(a: string, rest: string)
    requires '>' !in a
    ensures ReplaceAll(BoldTagAt, "<b" + a + ">" + rest)
         == ClassHead("strong", "wikipedia-bold") + a + ">" + ReplaceAll(BoldTagAt, rest)
  {
    assert "<b" + a + ">" + rest == "<" + "b" + a + ">" + rest;
    ClassTagStep(BoldTagAt, "b", "strong", "wikipedia-bold", a, rest);
  }

  /** Any tag whose name starts with `i` becomes a classed `em`, `<img …>` included. */
  lemma ItalicClassed(a: string, rest: string)
    requires '>' !in a
    ensures ReplaceAll(ItalicTagAt, "<i" + a + ">" + rest)
         == ClassHead("em", "wikipedia-italic") + a + ">" + ReplaceAll(ItalicTagAt, rest)
  {
    assert "<i" + a + ">" + rest == "<" + "i" + a + ">" + rest;
    ClassTagStep(ItalicTagAt, "i", "em", "wikipedia-italic", a, rest);
  }

  /** A tag start `p` that parts from each of `<h2`, `<h3`, `<h4`, `<p`, `<b`
      and `<i` is left alone by all six passes, whatever follows it. */
  lemma StyleTagsCopyPrefix(p: string, x: string)
    requires p != [] && '<' !in p[1..]
    requires Diverges("<h2", p) && Diverges("<h3", p) && Diverges("<h4", p)
    requires Diverges("<p", p) && Diverges("<b", p) && Diverges("<i", p)
    ensures StyleTags(p + x) == p + StyleTags(x)
  {
    var x1 := ReplaceAll(Heading2At, x);
    var x2 := ReplaceAll(Heading3At, x1);
    var x3 := ReplaceAll(Heading4At, x2);
    var x4 := ReplaceAll(ParagraphAt, x3);
    var x5 := ReplaceAll(BoldTagAt, x4);
    assert ReplaceAll(Heading2At, p + x) == p + x1 by { DivergentPrefixCopied(Heading2At, "<h2", p, x); }
    assert ReplaceAll(Heading3At, p + x1) == p + x2 by { DivergentPrefixCopied(Heading3At, "<h3", p, x1); }
    assert ReplaceAll(Heading4At, p + x2) == p + x3 by { DivergentPrefixCopied(Heading4At, "<h4", p, x2); }
    assert ReplaceAll(ParagraphAt, p + x3) == p + x4 by { DivergentPrefixCopied(ParagraphAt, "<p", p, x3); }
    assert ReplaceAll(BoldTagAt, p + x4) == p + x5 by { DivergentPrefixCopied(BoldTagAt, "<b", p, x4); }
    DivergentPrefixCopied(ItalicTagAt, "<i", p, x5);
  }

  /** Text in which `<` does not occur is left alone by all six passes. */
  lemma StyleTagsKeepTagFree(x: string)
    requires '<' !in x
    ensures StyleTags(x) == x
  {
    NoOccurrenceWithoutLead("<h2", x);
    NoOccurrenceWithoutLead("<h3", x);
    NoOccurrenceWithoutLead("<h4", x);
    NoOccurrenceWithoutLead("<p", x);
    NoOccurrenceWithoutLead("<b", x);
    NoOccurrenceWithoutLead("<i", x);
  }

  /** Closing tags are never classed, so `</b>` and `</i>` stay as they are,
      whatever follows them. */
  lemma ClosingTagUntouched(x: string)
    ensures StyleTags("</" + x) == "</" + StyleTags(x)
    ensures '<' !in x ==> StyleTags("</" + x) == "</" + x
  {
    var p := "</";
    assert p[1..] == "/";
    DivergesAt("<h2", p, 1);
    DivergesAt("<h3", p, 1);
    DivergesAt("<h4", p, 1);
    DivergesAt("<p", p, 1);
    DivergesAt("<b", p, 1);
    DivergesAt("<i", p, 1);
    StyleTagsCopyPrefix(p, x);
    if '<' !in x {
      StyleTagsKeepTagFree(x);
    }
  }

  /** Headings of levels 1, 5 and 6 get no class. */
  lemma OtherHeadingUntouched(level: char, x: string)
    requires level == '1' || level == '5' || level == '6'
    ensures StyleTags("<h" + [level] + x) == "<h" + [level] + StyleTags(x)
    ensures '<' !in x ==> StyleTags("<h" + [level] + x) == "<h" + [level] + x
  {
    var p := "<h" + [level];
    assert p[1..] == "h" + [level] && p[1] == 'h' && p[2] == level;
    DivergesAt("<h2", p, 2);
    DivergesAt("<h3", p, 2);
    DivergesAt("<h4", p, 2);
    DivergesAt("<p", p, 1);
    DivergesAt("<b", p, 1);
    DivergesAt("<i", p, 1);
    StyleTagsCopyPrefix(p, x);
    if '<' !in x {
      StyleTagsKeepTagFree(x);
    }
  }

  // ----- The whole rewriting -----

  /** None of the texts a pass's match starts with occurs in `html`. */
  predicate FreeOfTriggers(html: string) {
    !Occurs("<a", html) && '[' !in html && !Occurs(WikiHref, html)
    && !Occurs("<h2", html) && !Occurs("<h3", html) && !Occurs("<h4", html)
    && !Occurs("<p", html) && !Occurs("<b", html) && !Occurs("<i", html)
  }

  /** Text free of them is returned as it is, including any other tag such as
      `<div>` or `<ul>`. */
  lemma ContentUnchangedWithoutTriggers(html: string)
    requires FreeOfTriggers(html)
    ensures ProcessWikipediaContent(html) == html
  {
    NoOccurrenceWithoutLead("[", html);
  }

  lemma CitationWrapKeepsText()
    ensures KeepsMatchedText(CitationWrapAt)
  {
    forall t | CitationWrapAt(t).Some? && CitationWrapAt(t).value.len <= |t|
      ensures IsSubsequence(t[..CitationWrapAt(t).value.len], CitationWrapAt(t).value.repl)
    {
      var n := CitationAt(t).value;
      var d := t[1..n + 1];
      var marker := "[" + d + "]";
      assert t[..n + 2] == marker;
      SubsequenceOfSelf(marker);
      SubsequenceConcat(marker, marker, [], CitationClose);
      assert marker + [] == marker;
      SubsequenceWidened(marker, CitationOpen(d), marker + CitationClose);
      assert CitationAnchor(d) == CitationOpen(d) + (marker + CitationClose);
    }
  }

  lemma WikiHrefKeepsText()
    ensures KeepsMatchedText(WikiHrefAt)
  {
    KeptAroundInsertion(HrefOpen, WikiOrigin, WikiPath);
    assert AbsoluteWikiHref == HrefOpen + (WikiOrigin + WikiPath);
    forall t | WikiHrefAt(t).Some? && WikiHrefAt(t).value.len <= |t|
      ensures IsSubsequence(t[..WikiHrefAt(t).value.len], WikiHrefAt(t).value.repl)
    {
      assert t[..|WikiHref|] == WikiHref;
    }
  }

  /** The opening `<name` of a classed tag survives in its replacement head
      when the name occurs in the new name or in the class. */
  lemma NameKeptInClassHead(name: string, into: string, cls: string)
    requires Occurs(name, into) || Occurs(name, cls)
    ensures IsSubsequence("<" + name, ClassHead(into, cls))
  {
    var x := into + " class=\"" + cls;
    assert IsSubsequence(name, x + "\"") by {
      NameInClassedText(name, into, cls);
      OccurrenceIsSubsequence(name, x);
      SubsequenceConcat(name, x, [], "\"");
      assert name + [] == name;
    }
    assert IsSubsequence("<" + name, "<" + (x + "\"")) by {
      SubsequenceOfSelf("<");
      SubsequenceConcat("<", "<", name, x + "\"");
    }
    assert ClassHead(into, cls) == "<" + (x + "\"");
  }

  /** The name occurs in the text between `<` and the closing quote of the head. */
  lemma NameInClassedText(name: string, into: string, cls: string)
    requires Occurs(name, into) || Occurs(name, cls)
    ensures Occurs(name, into + " class=\"" + cls)
  {
    if Occurs(name, into) {
      OccursWidened(name, into, " class=\"" + cls);
      assert into + (" class=\"" + cls) == into + " class=\"" + cls;
    } else {
      OccursAfterPrefix(name, into + " class=\"", cls);
    }
  }

  /** A classed tag's text survives in its replacement when the tag's name does. */
  lemma ClassTagMatchKept(name: string, into: string, cls: string, t: string)
    requires ClassTagAt(name, into, cls, t).Some?
    requires IsSubsequence("<" + name, ClassHead(into, cls))
    ensures var m := ClassTagAt(name, into, cls, t).value;
      IsSubsequence(t[..m.len], m.repl)
  {
    var j := FindChar(t, |name| + 1, '>').value;
    var rest := t[|name| + 1..j] + ">";
    assert t[..j + 1] == ("<" + name) + rest;
    SubsequenceOfSelf(rest);
    SubsequenceConcat("<" + name, ClassHead(into, cls), rest, rest);
    assert ClassHead(into, cls) + t[|name| + 1..j] + ">" == ClassHead(into, cls) + rest;
  }

  lemma ClassTagKeepsText(matcher: string -> Option<Match>, name: string, into: string, cls: string)
    requires IsClassTagPass(matcher, name, into, cls)
    requires Occurs(name, into) || Occurs(name, cls)
    ensures KeepsMatchedText(matcher)
  {
    NameKeptInClassHead(name, into, cls);
    forall t | matcher(t).Some? && matcher(t).value.len <= |t|
      ensures IsSubsequence(t[..matcher(t).value.len], matcher(t).value.repl)
    {
      assert matcher(t) == ClassTagAt(name, into, cls, t);
      ClassTagMatchKept(name, into, cls, t);
    }
  }

  lemma HeadingPassesKeepText()
    ensures KeepsMatchedText(Heading2At) && KeepsMatchedText(Heading3At) && KeepsMatchedText(Heading4At)
  {
    assert Occurs("h2", "h2") && Occurs("h3", "h3") && Occurs("h4", "h4");
    ClassTagKeepsText(Heading2At, "h2", "h2", "wikipedia-heading-2");
    ClassTagKeepsText(Heading3At, "h3", "h3", "wikipedia-heading-3");
    ClassTagKeepsText(Heading4At, "h4", "h4", "wikipedia-heading-4");
  }

  lemma ParagraphPassKeepsText()
    ensures KeepsMatchedText(ParagraphAt)
  {
    assert Occurs("p", "p");
    ClassTagKeepsText(ParagraphAt, "p", "p", "wikipedia-paragraph");
  }

  lemma BoldPassKeepsText()
    ensures KeepsMatchedText(BoldTagAt)
  {
    BoldInClass();
    ClassTagKeepsText(BoldTagAt, "b", "strong", "wikipedia-bold");
  }

  lemma BoldInClass()
    ensures Occurs("b", "wikipedia-bold")
  {
    OccursAfter("b", "wikipedia-", "old");
    assert "wikipedia-" + ("b" + "old") == "wikipedia-bold";
  }

  lemma ItalicPassKeepsText()
    ensures KeepsMatchedText(ItalicTagAt)
  {
    ItalicInClass();
    ClassTagKeepsText(ItalicTagAt, "i", "em", "wikipedia-italic");
  }

  lemma ItalicInClass()
    ensures Occurs("i", "wikipedia-italic")
  {
    OccursAfter("i", "w", "kipedia-italic");
    assert "w" + ("i" + "kipedia-italic") == "wikipedia-italic";
  }

  /** The six opening-tag passes only insert text. */
  lemma StyleTagsOnlyInserts(s: string)
    ensures IsSubsequence(s, StyleTags(s))
  {
    HeadingPassesKeepText();
    ParagraphPassKeepsText();
    BoldPassKeepsText();
    ItalicPassKeepsText();
    var h2 := ReplaceAll(Heading2At, s);
    var h3 := ReplaceAll(Heading3At, h2);
    var h4 := ReplaceAll(Heading4At, h3);
    var p := ReplaceAll(ParagraphAt, h4);
    var b := ReplaceAll(BoldTagAt, p);
    ReplaceAllOnlyInserts(Heading2At, s);
    ReplaceAllOnlyInserts(Heading3At, h2);
    SubsequenceTransitive(s, h2, h3);
    ReplaceAllOnlyInserts(Heading4At, h3);
    SubsequenceTransitive(s, h3, h4);
    ReplaceAllOnlyInserts(ParagraphAt, h4);
    SubsequenceTransitive(s, h4, p);
    ReplaceAllOnlyInserts(BoldTagAt, p);
    SubsequenceTransitive(s, p, b);
    ReplaceAllOnlyInserts(ItalicTagAt, b);
    SubsequenceTransitive(s, b, StyleTags(s));
  }

  /** Every pass after the anchor pass only inserts text, so all the text the
      anchor pass leaves survives, in order, in the final markup. */
  lemma LaterPassesOnlyInsert(html: string)
    ensures IsSubsequence(CanonicalLinks(html), ProcessWikipediaContent(html))
  {
    var l := CanonicalLinks(html);
    var c := CiteMarkers(l);
    var w := AbsoluteLinks(c);
    CitationWrapKeepsText();
    ReplaceAllOnlyInserts(CitationWrapAt, l);
    WikiHrefKeepsText();
    ReplaceAllOnlyInserts(WikiHrefAt, c);
    SubsequenceTransitive(l, c, w);
    StyleTagsOnlyInserts(w);
    SubsequenceTransitive(l, w, StyleTags(w));
  }

  // ----- The article view -----

  /** The page the content request returned for the article's id. */
  datatype ArticlePage = ArticlePage(title: string, extract: Option<string>)

  /** What the content request produced: the `data.query.pages` map (empty when
      the response has none), or a failure of the request or of the JSON decoding. */
  datatype FetchOutcome = Response(pages: map<int, ArticlePage>) | Threw

  /** `page.extract || ''`. */
  function ExtractOrEmpty(page: ArticlePage): (r: string)
    ensures page.extract.Some? ==> r == page.extract.value
    ensures page.extract.None? ==> r == []
  {
    match page.extract
    case Some(e) => e
    case None => []
  }

  class ArticleView {
    var title: string
    var pageid: int
    var content: Option<string>
    var isLoading: bool
    var error: Option<string>

    /** While loading, no error is shown. */
    ghost predicate Valid()
      reads this
    {
      isLoading ==> error.None?
    }

    /** The content block is drawn when the content is a non-empty string. */
    predicate ShowsContent()
      reads this
    {
      content.Some? && content.value != []
    }

    /** The prompt to import is drawn when there is nothing else to show. */
    predicate ShowsPrompt()
      reads this
    {
      !ShowsContent() && !isLoading && error.None?
    }

    constructor (title: string, pageid: int)
      ensures this.title == title && this.pageid == pageid
      ensures content.None? && !isLoading && error.None? && Valid()
    {
      this.title := title;
      this.pageid := pageid;
      content := None;
      isLoading := false;
      error := None;
    }

    /** The parent passes another article to the same component instance (it
        is rendered without a key): the props change and the content, the
        loading flag and the error stay as they were. */
    method PropsChanged(title: string, pageid: int)
      requires Valid()
      modifies this
      ensures Valid()
      ensures this.title == title && this.pageid == pageid
      ensures content == old(content) && isLoading == old(isLoading) && error == old(error)
    {
      this.title := title;
      this.pageid := pageid;
    }

    /** The import button (disabled while loading) starts a fetch: loading
        begins and the error is cleared. The request is for the article id of
        the props at this moment, which the pending fetch keeps. */
    method FetchStarted() returns (requested: int)
      requires !isLoading
      modifies this
      ensures Valid() && requested == pageid
      ensures isLoading && error.None? && content == old(content)
      ensures title == old(title) && pageid == old(pageid)
    {
      isLoading := true;
      error := None;
      requested := pageid;
    }

    /** The fetch for the article id `requested` completes: a page for that id
        replaces the content with its rewritten extract; a response without it,
        or a failure, sets the error and leaves the earlier content in place.
        Loading ends. */
    method FetchFinished(requested: int, outcome: FetchOutcome)
      requires Valid() && isLoading
      modifies this
      ensures Valid() && !isLoading
      ensures title == old(title) && pageid == old(pageid)
      ensures outcome.Response? && requested in outcome.pages ==>
        content == Some(ProcessWikipediaContent(ExtractOrEmpty(outcome.pages[requested]))) && error.None?
      ensures outcome.Response? && requested !in outcome.pages ==>
        content == old(content) && error == Some(NotFoundMessage)
      ensures outcome.Threw? ==> content == old(content) && error == Some(FetchFailedMessage)
    {
      if outcome.Response? && requested in outcome.pages {
        var html := ExtractOrEmpty(outcome.pages[requested]);
        content := Some(ProcessWikipediaContent(html));
      } else if outcome.Response? {
        error := Some(NotFoundMessage);
      } else {
        error := Some(FetchFailedMessage);
      }
      isLoading := false;
    }

    /** The HTML copy button copies the content when it is a non-empty string. */
    method CopyFormattedHtml() returns (copied: Option<string>)
      ensures copied.Some? <==> ShowsContent()
      ensures copied.Some? ==> copied == content
    {
      if content.Some? && content.value != [] {
        copied := content;
      } else {
        copied := None;
      }
    }
  }

  /** A failed second fetch shows its error next to the content of the first. */
  method ErrorKeepsEarlierContent(page: ArticlePage) returns (view: ArticleView)
    requires ProcessWikipediaContent(ExtractOrEmpty(page)) != []
    ensures view.ShowsContent() && view.error == Some(FetchFailedMessage)
  {
    view := new ArticleView("Example", 1);
    var requested := view.FetchStarted();
    view.FetchFinished(requested, Response(map[1 := page]));
    requested := view.FetchStarted();
    view.FetchFinished(requested, Threw);
  }

  /** Choosing another article keeps the content of the previous one on screen
      under the new title, and a fetch still pending when the choice changes
      fills in the page it asked for, not the new one. */
  method OldArticleShownUnderNewTitle(page: ArticlePage) returns (view: ArticleView)
    ensures view.title == "Second" && view.pageid == 2
    ensures view.content == Some(ProcessWikipediaContent(ExtractOrEmpty(page)))
    ensures view.error.None? && !view.isLoading
  {
    view := new ArticleView("First", 1);
    var requested := view.FetchStarted();
    view.PropsChanged("Second", 2);
    view.FetchFinished(requested, Response(map[1 := page, 2 := ArticlePage("Second", None)]));
  }
}
