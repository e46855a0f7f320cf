/**
 * The result view (frontend/src/components/ComparisonResult.jsx): the
 * agent's markdown verdict is cut into a summary and titled sections, and
 * each becomes a card; a response that reports failure becomes one error
 * card instead.
 */
module ComparisonResult {
  import opened Wrappers
  import opened Text
  import opened Models

  /** The section boundary: a newline followed by a second-level header marker. */
  const Header: string := "\n## "

  datatype Section = Section(title: string, content: string, isRecommendation: bool)

  datatype Parsed = Parsed(summary: string, sections: seq<Section>)

  /** The boundary has no border, so its occurrences never overlap. */
  lemma HeaderUnbordered()
    ensures Unbordered(Header)
  {
    forall m | 0 < m < |Header| ensures !StartsWith(Header, Header[m..]) {
      assert Header[m..][0] != '\n';
    }
  }

  // ---------------------------------------------------------------------
  // The title line: the regular expression ^#\s+.*\n\n? of line 26.
  // `\s` is JsSpace; `.` is any character but a JavaScript line terminator.
  // ---------------------------------------------------------------------

  /** The characters JavaScript's `.` does not match. */
  predicate LineTerminator(c: char) {
    c == '\n' || c == '\r' || c == '\U{2028}' || c == '\U{2029}'
  }

  /** Length of the run of JsSpace characters that starts at `i`. */
  function SpaceRun(s: string, i: nat): (n: nat)
    requires i <= |s|
    ensures i + n <= |s|
    ensures forall j :: i <= j < i + n ==> JsSpace(s[j])
    ensures i + n < |s| ==> !JsSpace(s[i + n])
    decreases |s| - i
  {
    if i < |s| && JsSpace(s[i]) then 1 + SpaceRun(s, i + 1) else 0
  }

  /** The first line terminator at or after `p`, or the end of `s`. */
  function LineEnd(s: string, p: nat): (q: nat)
    requires p <= |s|
    ensures p <= q <= |s|
    ensures forall j :: p <= j < q ==> !LineTerminator(s[j])
    ensures q < |s| ==> LineTerminator(s[q])
    decreases |s| - p
  {
    if p < |s| && !LineTerminator(s[p]) then LineEnd(s, p + 1) else p
  }

  /**
   * The regular expression matches the prefix `s[..e]` with `\s+` taking
   * `s[1..1 + k]`, `.*` taking `s[1 + k..q]`, `\n` taking `s[q]`, and `\n?`
   * taking `s[q + 1]` exactly when `e == q + 2`.
   */
  predicate TitleMatch(s: string, k: int, q: int, e: int) {
    && 0 < |s| && s[0] == '#' && 1 <= k && 1 + k <= q < |s|
    && (forall j :: 1 <= j < 1 + k ==> JsSpace(s[j]))
    && (forall j :: 1 + k <= j < q ==> !LineTerminator(s[j]))
    && s[q] == '\n'
    && (e == q + 1 || (e == q + 2 && q + 1 < |s| && s[q + 1] == '\n'))
  }

  /** The end of the match when `\s+` takes exactly `k` characters, if there is one. */
  function MatchWithRun(s: string, k: nat): (e: Option<nat>)
    requires 1 + k <= |s|
    ensures e.Some? ==> 2 + k <= e.value <= |s| && s[e.value - 1] == '\n'
  {
    var q := LineEnd(s, 1 + k);
    if q < |s| && s[q] == '\n' then
      Some(if q + 1 < |s| && s[q + 1] == '\n' then q + 2 else q + 1)
    else None
  }

  /** Backtracking over `\s+`: try `k`, then `k - 1`, down to one character. */
  function MatchFromRun(s: string, k: nat): (e: Option<nat>)
    requires 1 + k <= |s|
    ensures e.Some? ==> 1 <= k && 3 <= e.value <= |s| && s[e.value - 1] == '\n'
    decreases k
  {
    if k == 0 then None
    else match MatchWithRun(s, k)
      case Some(e) => Some(e)
      case None => MatchFromRun(s, k - 1)
  }

  /** The end of the title-line match at the start of `s`, if the expression matches. */
  function TitleMatchEnd(s: string): (e: Option<nat>)
    ensures e.Some? ==> 3 <= e.value <= |s| && s[0] == '#' && JsSpace(s[1]) && s[e.value - 1] == '\n'
  {
    if 0 < |s| && s[0] == '#' then MatchFromRun(s, SpaceRun(s, 1)) else None
  }

  /** `replace(/^#\s+.*\n\n?/, '')`: drops a leading title line, if any. */
  function StripTitle(s: string): (r: string)
    ensures |r| <= |s| && r == s[|s| - |r|..]
    ensures (|s| < 2 || s[0] != '#' || !JsSpace(s[1])) ==> r == s
  {
    match TitleMatchEnd(s)
    case Some(e) => s[e..]
    case None => s
  }

  /** A run of spaces starting at `i` is never longer than SpaceRun(s, i). */
  lemma {:induction false} SpaceRunMaximal(s: string, i: nat, m: nat)
    requires i + m <= |s|
    requires forall j :: i <= j < i + m ==> JsSpace(s[j])
    ensures m <= SpaceRun(s, i)
    decreases m
  {
    if m > 0 {
      SpaceRunMaximal(s, i + 1, m - 1);
    }
  }

  /** LineEnd(s, p) stops at or before any line terminator at or after `p`. */
  lemma {:induction false} LineEndFirst(s: string, p: nat, q: nat)
    requires p <= q < |s| && LineTerminator(s[q])
    ensures LineEnd(s, p) <= q
    decreases q - p
  {
    if p < q && !LineTerminator(s[p]) {
      LineEndFirst(s, p + 1, q);
    }
  }

  /** No match uses more whitespace than the run that starts after `#`. */
  lemma RunBound(s: string, k: int, q: int, e: int)
    requires TitleMatch(s, k, q, e)
    ensures k <= SpaceRun(s, 1)
  {
    SpaceRunMaximal(s, 1, k);
  }

  /** For a fixed `k`, `.*` must stop at the first line terminator and greedy `\n?` takes what it can. */
  lemma MatchWithRunExact(s: string, k: nat)
    requires 0 < |s| && s[0] == '#' && 1 <= k && 1 + k <= |s|
    requires forall j :: 1 <= j < 1 + k ==> JsSpace(s[j])
    ensures MatchWithRun(s, k).Some? ==> TitleMatch(s, k, LineEnd(s, 1 + k), MatchWithRun(s, k).value)
    ensures forall q, e :: TitleMatch(s, k, q, e) ==>
              MatchWithRun(s, k).Some? && q == LineEnd(s, 1 + k) && e <= MatchWithRun(s, k).value
  {
    forall q, e | TitleMatch(s, k, q, e)
      ensures MatchWithRun(s, k).Some? && q == LineEnd(s, 1 + k) && e <= MatchWithRun(s, k).value
    {
      LineEndFirst(s, 1 + k, q);
    }
  }

  /**
   * Backtracking from a run of `n` characters finds the match with the
   * longest `\s+` among those with at most `n`, and for it the longest `\n?`.
   */
  lemma {:induction false} MatchFromRunSpec(s: string, n: nat) returns (k: nat, q: nat)
    requires 0 < |s| && s[0] == '#' && 1 + n <= |s|
    requires forall j :: 1 <= j < 1 + n ==> JsSpace(s[j])
    ensures MatchFromRun(s, n).Some? ==> k <= n && TitleMatch(s, k, q, MatchFromRun(s, n).value)
    ensures forall k', q', e' :: TitleMatch(s, k', q', e') && k' <= n ==>
              MatchFromRun(s, n).Some? && (k' < k || (k' == k && q' == q && e' <= MatchFromRun(s, n).value))
    decreases n
  {
    if n == 0 {
      k, q := 0, 0;
    } else {
      MatchWithRunExact(s, n);
      if MatchWithRun(s, n).Some? {
        k, q := n, LineEnd(s, 1 + n);
      } else {
        k, q := MatchFromRunSpec(s, n - 1);
        forall k', q', e' | TitleMatch(s, k', q', e') && k' <= n
          ensures k' <= n - 1
        {
        }
      }
    }
  }

  /**
   * Soundness and priority of the title match: the match found is one of
   * the expression, with the longest `\s+` of all matches and, for that, the
   * longest `\n?` — the match a backtracking engine reports.
   */
  lemma TitleMatchEndSound(s: string) returns (k: nat, q: nat)
    requires TitleMatchEnd(s).Some?
    ensures TitleMatch(s, k, q, TitleMatchEnd(s).value)
    ensures forall k', q', e' :: TitleMatch(s, k', q', e') ==>
              k' < k || (k' == k && q' == q && e' <= TitleMatchEnd(s).value)
  {
    var n := SpaceRun(s, 1);
    k, q := MatchFromRunSpec(s, n);
    forall k', q', e' | TitleMatch(s, k', q', e')
      ensures k' < k || (k' == k && q' == q && e' <= TitleMatchEnd(s).value)
    {
      RunBound(s, k', q', e');
    }
  }

  /** Completeness of the title match: when none is found, the expression matches no prefix. */
  lemma TitleMatchEndComplete(s: string)
    requires TitleMatchEnd(s).None?
    ensures forall k, q, e :: !TitleMatch(s, k, q, e)
  {
    if 0 < |s| && s[0] == '#' {
      var n := SpaceRun(s, 1);
      var _, _ := MatchFromRunSpec(s, n);
      forall k, q, e | TitleMatch(s, k, q, e) ensures false {
        RunBound(s, k, q, e);
      }
    }
  }

  // ---------------------------------------------------------------------
  // Sections
  // ---------------------------------------------------------------------

  /** A title marks a recommendation when, lower-cased, it mentions one of three phrases. */
  predicate IsRecommendation(title: string)
    ensures IsRecommendation(title) ==> |title| >= |"verdict"|
  {
    var t := AsciiLower(title);
    Contains(t, "when to choose") || Contains(t, "recommendation") || Contains(t, "verdict")
  }

  /** One chunk after a boundary: its first line is the title, the remaining lines the content, both trimmed. */
  function SectionOf(chunk: string): (section: Section)
    ensures section.title != "" ==> !JsSpace(section.title[0]) && !JsSpace(section.title[|section.title| - 1])
    ensures section.content != "" ==> !JsSpace(section.content[0]) && !JsSpace(section.content[|section.content| - 1])
  {
    var lines := Split(chunk, "\n");
    Section(Trim(lines[0], JsSpace), Trim(Join(lines[1..], "\n"), JsSpace), IsRecommendation(lines[0]))
  }

  /** The summary: the first chunk without its title line, trimmed; empty for an empty chunk. */
  function SummaryOf(chunk: string): (summary: string)
    ensures summary != "" ==> !JsSpace(summary[0]) && !JsSpace(summary[|summary| - 1])
    ensures (|chunk| < 2 || chunk[0] != '#' || !JsSpace(chunk[1])) ==> summary == Trim(chunk, JsSpace)
  {
    if chunk != "" then Trim(StripTitle(chunk), JsSpace) else ""
  }

  /** The sections of consecutive chunks, one per chunk, in order. */
  function SectionsOf(chunks: seq<string>): (sections: seq<Section>)
    ensures |sections| == |chunks|
    ensures forall j :: 0 <= j < |chunks| ==> sections[j] == SectionOf(chunks[j])
  {
    seq(|chunks|, j requires 0 <= j < |chunks| => SectionOf(chunks[j]))
  }

  /** The whole parse: a trimmed summary, and one section per chunk after a boundary. */
  function Parse(markdown: string): (parsed: Parsed)
    ensures |parsed.sections| == |Split(markdown, Header)| - 1
    ensures parsed.summary != "" ==> !JsSpace(parsed.summary[0]) && !JsSpace(parsed.summary[|parsed.summary| - 1])
  {
    var parts := Split(markdown, Header);
    Parsed(SummaryOf(parts[0]), SectionsOf(parts[1..]))
  }

  /** The loop of `parseComparison`: one section per chunk, in order. */
  method ParseSections(chunks: seq<string>) returns (sections: seq<Section>)
    ensures sections == SectionsOf(chunks)
  {
    sections := [];
    for i := 0 to |chunks|
      invariant |sections| == i
      invariant forall j :: 0 <= j < i ==> sections[j] == SectionOf(chunks[j])
    {
      var lines := Split(chunks[i], "\n");
      var content := Trim(Join(lines[1..], "\n"), JsSpace);
      sections := sections + [Section(Trim(lines[0], JsSpace), content, IsRecommendation(lines[0]))];
    }
  }

  /** `parseComparison`: the summary from the text before the first boundary, then the sections after it. */
  method ParseComparison(markdown: string) returns (result: Parsed)
    ensures result == Parse(markdown)
  {
    var summary := "";
    var parts := Split(markdown, Header);
    if parts[0] != "" {
      summary := Trim(StripTitle(parts[0]), JsSpace);
    }
    var sections := ParseSections(parts[1..]);
    result := Parsed(summary, sections);
  }

  // ---------------------------------------------------------------------
  // Properties of the parse
  // ---------------------------------------------------------------------

  /** There is one section per boundary in the text. */
  lemma ParseCount(markdown: string)
    ensures |Parse(markdown).sections| == Occurrences(markdown, Header)
  {
    HeaderUnbordered();
    SplitCount(markdown, Header);
  }

  /** Empty text gives an empty summary and no sections. */
  lemma ParseEmpty()
    ensures Parse("") == Parsed("", [])
  {
    assert Split("", Header) == [""];
  }

  /** Text without a boundary has no sections; all of it, title line removed and trimmed, is the summary. */
  lemma ParseWithoutHeader(markdown: string)
    requires !Contains(markdown, Header)
    ensures Parse(markdown).sections == []
    ensures Parse(markdown).summary == Trim(StripTitle(markdown), JsSpace)
  {
    SplitWithout(markdown, Header);
  }

  /**
   * The parse inverts assembling a document: chunks free of the boundary,
   * joined by it, come back as the summary chunk and one section per
   * later chunk, in order.
   */
  lemma ParseOfChunks(chunks: seq<string>)
    requires chunks != []
    requires forall k :: 0 <= k < |chunks| ==> !Contains(chunks[k], Header)
    ensures Parse(Join(chunks, Header)).summary == SummaryOf(chunks[0])
    ensures |Parse(Join(chunks, Header)).sections| == |chunks| - 1
    ensures forall k :: 1 <= k < |chunks| ==> Parse(Join(chunks, Header)).sections[k - 1] == SectionOf(chunks[k])
  {
    HeaderUnbordered();
    SplitJoin(chunks, Header);
  }

  /** Appending a boundary and a chunk free of it appends exactly one section and keeps the rest. */
  lemma ParseAppendSection(doc: string, chunk: string)
    requires !Contains(chunk, Header)
    ensures Parse(doc + Header + chunk).summary == Parse(doc).summary
    ensures Parse(doc + Header + chunk).sections == Parse(doc).sections + [SectionOf(chunk)]
  {
    HeaderUnbordered();
    SplitAround(doc, Header, chunk);
    SplitWithout(chunk, Header);
    var parts := Split(doc, Header);
    var all := Split(doc + Header + chunk, Header);
    assert all == parts + [chunk];
    assert all[0] == parts[0];
    assert all[1..] == parts[1..] + [chunk];
    var before := SectionsOf(parts[1..]);
    var after := SectionsOf(all[1..]);
    assert after == before + [SectionOf(chunk)];
  }

  /** A character other than a newline in front of the text joins the first chunk and changes no boundary. */
  lemma SplitNoHeaderChar(c: char, t: string)
    requires c != '\n'
    ensures Split([c] + t, Header)[0] == [c] + Split(t, Header)[0]
    ensures Split([c] + t, Header)[1..] == Split(t, Header)[1..]
  {
    var s := [c] + t;
    assert s[0] != Header[0];
    assert s[1..] == t;
  }

  /** A leading `"## "` only lengthens the first chunk. */
  lemma SplitLeadingHeader(rest: string)
    ensures Split("## " + rest, Header)[0] == "## " + Split(rest, Header)[0]
    ensures Split("## " + rest, Header)[1..] == Split(rest, Header)[1..]
  {
    SplitNoHeaderChar(' ', rest);
    SplitNoHeaderChar('#', " " + rest);
    SplitNoHeaderChar('#', "# " + rest);
    assert "## " + rest == ['#'] + ("# " + rest);
    assert "# " + rest == ['#'] + (" " + rest);
    assert " " + rest == [' '] + rest;
  }

  /**
   * A header at the very start of the text has no newline before it, so
   * it is not a boundary: it stays, as written, at the head of the summary.
   */
  lemma LeadingHeaderInSummary(rest: string)
    ensures Parse("## " + rest).sections == Parse(rest).sections
    ensures Parse("## " + rest).summary == Trim("## " + Split(rest, Header)[0], JsSpace)
  {
    LeadingHeaderSections(rest);
    SplitLeadingHeader(rest);
    ParseParts("## " + rest);
    HeaderLineKept("## " + Split(rest, Header)[0]);
  }

  /** The sections after a leading header are those of the text without it. */
  lemma LeadingHeaderSections(rest: string)
    ensures Parse("## " + rest).sections == Parse(rest).sections
  {
    SplitLeadingHeader(rest);
    ParseParts("## " + rest);
    ParseParts(rest);
  }

  /** A chunk opening with "##" keeps its first line: the summary is the chunk trimmed. */
  lemma HeaderLineKept(head: string)
    requires |head| >= 2 && head[0] == '#' && head[1] == '#'
    ensures SummaryOf(head) == Trim(head, JsSpace)
  {
    assert !JsSpace('#');
  }

  /** The parse is the summary of the first part and the sections of the others. */
  lemma ParseParts(markdown: string)
    ensures Parse(markdown).summary == SummaryOf(Split(markdown, Header)[0])
    ensures Parse(markdown).sections == SectionsOf(Split(markdown, Header)[1..])
  {
  }

  /** A chunk whose first line is `first` has that line, trimmed, as its title and the rest, trimmed, as its content. */
  lemma SectionOfLines(first: string, rest: string)
    requires forall i :: 0 <= i < |first| ==> first[i] != '\n'
    ensures SectionOf(first + "\n" + rest) == Section(Trim(first, JsSpace), Trim(rest, JsSpace), IsRecommendation(first))
  {
    SplitAfterPlain(first, "\n", rest);
    JoinSplit(rest, "\n");
    var lines := Split(first + "\n" + rest, "\n");
    assert lines[1..] == Split(rest, "\n");
  }

  /** A chunk of one line is all title: its content is empty. */
  lemma SectionOfOneLine(chunk: string)
    requires forall i :: 0 <= i < |chunk| ==> chunk[i] != '\n'
    ensures SectionOf(chunk) == Section(Trim(chunk, JsSpace), "", IsRecommendation(chunk))
  {
    SplitPlain(chunk, "\n");
  }

  /** The position of the first newline at or after `i`, if there is one. */
  function FirstNewline(s: string, i: nat): (p: Option<nat>)
    requires i <= |s|
    ensures p.Some? ==> i <= p.value < |s| && s[p.value] == '\n' && forall k :: i <= k < p.value ==> s[k] != '\n'
    ensures p.None? ==> forall k :: i <= k < |s| ==> s[k] != '\n'
    decreases |s| - i
  {
    if i == |s| then None
    else if s[i] == '\n' then Some(i)
    else FirstNewline(s, i + 1)
  }

  /**
   * A section's title is the trimmed text before the chunk's first newline
   * and its content the trimmed text after it, empty when there is no
   * newline; the recommendation flag is the phrase test on the title.
   */
  lemma SectionAtFirstNewline(chunk: string)
    ensures FirstNewline(chunk, 0).Some? ==>
              var p := FirstNewline(chunk, 0).value;
              SectionOf(chunk).title == Trim(chunk[..p], JsSpace) && SectionOf(chunk).content == Trim(chunk[p + 1..], JsSpace)
    ensures FirstNewline(chunk, 0).None? ==> SectionOf(chunk).title == Trim(chunk, JsSpace) && SectionOf(chunk).content == ""
    ensures SectionOf(chunk).isRecommendation == IsRecommendation(SectionOf(chunk).title)
  {
    match FirstNewline(chunk, 0) {
      case Some(p) => SectionOfFirstLine(chunk, p);
      case None => SectionOfOneLine(chunk);
    }
    RecommendationMatchesTitle(chunk);
  }

  /** Cut at its first newline, a chunk gives the trimmed line before it as title and the trimmed rest as content. */
  lemma SectionOfFirstLine(chunk: string, p: nat)
    requires p < |chunk| && chunk[p] == '\n' && forall i :: 0 <= i < p ==> chunk[i] != '\n'
    ensures SectionOf(chunk) == Section(Trim(chunk[..p], JsSpace), Trim(chunk[p + 1..], JsSpace), IsRecommendation(chunk[..p]))
  {
    assert chunk == chunk[..p] + "\n" + chunk[p + 1..];
    SectionOfLines(chunk[..p], chunk[p + 1..]);
  }

  /** A section title is one line: it holds no newline. */
  lemma TitleIsOneLine(chunk: string)
    ensures forall i :: 0 <= i < |SectionOf(chunk).title| ==> SectionOf(chunk).title[i] != '\n'
  {
    var line := Split(chunk, "\n")[0];
    assert SectionOf(chunk).title == Trim(line, JsSpace);
    SplitPiecesFree(chunk, "\n");
    assert !Contains(line, ['\n']);
    ContainsChar(line, '\n');
    TrimKeepsOut(line, JsSpace, '\n');
  }

  /** A character that lower-cases to a letter is not white space. */
  lemma LetterNotSpace(c: char)
    requires 'a' <= LowerChar(c) <= 'z'
    ensures !JsSpace(c)
  {
  }

  /** An occurrence of a phrase that begins and ends with a letter lies within the trimmed part. */
  lemma OccurrenceWithinTrim(raw: string, p: string, a: nat, b: nat, j: int)
    requires p != [] && 'a' <= p[0] <= 'z' && 'a' <= p[|p| - 1] <= 'z'
    requires a <= b <= |raw|
    requires forall i :: 0 <= i < a ==> JsSpace(raw[i])
    requires forall i :: b <= i < |raw| ==> JsSpace(raw[i])
    requires OccursAt(AsciiLower(raw), p, j)
    ensures a <= j && j + |p| <= b
  {
    var low := AsciiLower(raw);
    assert low[j..j + |p|][0] == low[j];
    assert low[j..j + |p|][|p| - 1] == low[j + |p| - 1];
    LetterNotSpace(raw[j]);
    LetterNotSpace(raw[j + |p| - 1]);
  }

  /**
   * A phrase that begins and ends with a lower-case letter occurs in the
   * lower-cased text exactly when it occurs in the lower-cased trimmed text.
   */
  lemma PhraseIgnoresPadding(raw: string, p: string)
    requires p != [] && 'a' <= p[0] <= 'z' && 'a' <= p[|p| - 1] <= 'z'
    ensures Contains(AsciiLower(raw), p) <==> Contains(AsciiLower(Trim(raw, JsSpace)), p)
  {
    var a, b := TrimBounds(raw, JsSpace);
    AsciiLowerSlice(raw, a, b);
    PhraseInSlice(AsciiLower(raw), p, a, b);
    PhraseInsideTrim(raw, p, a, b);
  }

  /** A phrase in a slice is a phrase in the whole. */
  lemma PhraseInSlice(low: string, p: string, a: nat, b: nat)
    requires a <= b <= |low|
    ensures Contains(low[a..b], p) ==> Contains(low, p)
  {
    ContainsIffOccurs(low, p);
    ContainsIffOccurs(low[a..b], p);
    forall i | OccursAt(low[a..b], p, i) ensures OccursAt(low, p, a + i) {
      OccursInSlice(low, p, a, b, i);
    }
  }

  /** A phrase found in the lower-cased text lies within its trimmed part. */
  lemma PhraseInsideTrim(raw: string, p: string, a: nat, b: nat)
    requires p != [] && 'a' <= p[0] <= 'z' && 'a' <= p[|p| - 1] <= 'z'
    requires a <= b <= |raw|
    requires forall i :: 0 <= i < a ==> JsSpace(raw[i])
    requires forall i :: b <= i < |raw| ==> JsSpace(raw[i])
    ensures Contains(AsciiLower(raw), p) ==> Contains(AsciiLower(raw)[a..b], p)
  {
    var low := AsciiLower(raw);
    ContainsIffOccurs(low, p);
    ContainsIffOccurs(low[a..b], p);
    forall j | OccursAt(low, p, j) ensures OccursAt(low[a..b], p, j - a) {
      OccurrenceWithinTrim(raw, p, a, b, j);
      OccursWithinSlice(low, p, a, b, j);
    }
  }

  /**
   * The recommendation flag is computed from the untrimmed first line, but
   * it agrees with the flag of the trimmed title shown on the card.
   */
  lemma RecommendationMatchesTitle(chunk: string)
    ensures SectionOf(chunk).isRecommendation == IsRecommendation(SectionOf(chunk).title)
  {
    var line := Split(chunk, "\n")[0];
    PhraseIgnoresPadding(line, "when to choose");
    PhraseIgnoresPadding(line, "recommendation");
    PhraseIgnoresPadding(line, "verdict");
  }

  // ---------------------------------------------------------------------
  // What the result view shows
  // ---------------------------------------------------------------------

  /** A card of the result view. */
  datatype Card =
    | SummaryCard(text: string)
    | RecommendationCard(title: string, content: string)
    | DimensionCard(title: string, content: string)

  /** The result view: an error card, or the query, whether the time badge shows, and the cards. */
  datatype View =
    | ErrorView(message: string)
    | ResultView(query: string, showsTime: bool, cards: seq<Card>)

  /** A section is shown as a recommendation card when flagged, otherwise as a dimension card. */
  function CardOf(section: Section): (card: Card)
    ensures card.RecommendationCard? <==> section.isRecommendation
    ensures !card.SummaryCard? && card.title == section.title && card.content == section.content
  {
    if section.isRecommendation then RecommendationCard(section.title, section.content)
    else DimensionCard(section.title, section.content)
  }

  /** The summary card, shown only for a nonempty summary, followed by one card per section. */
  function Cards(parsed: Parsed): (cards: seq<Card>)
    ensures |cards| == |parsed.sections| + (if parsed.summary != "" then 1 else 0)
    ensures parsed.summary != "" ==> cards[0] == SummaryCard(parsed.summary)
    ensures forall j :: 0 <= j < |parsed.sections| ==>
              cards[(if parsed.summary != "" then 1 else 0) + j] == CardOf(parsed.sections[j])
  {
    var off := if parsed.summary != "" then 1 else 0;
    seq(off + |parsed.sections|, i requires 0 <= i < off + |parsed.sections| =>
      if i < off then SummaryCard(parsed.summary) else CardOf(parsed.sections[i - off]))
  }

  /**
   * The component: a failed response becomes an error card with the
   * reported error, or a fixed message when none was given; a successful
   * one has its text parsed into cards.
   */
  function Render(response: ComparisonResponse): (view: View)
    ensures view.ErrorView? <==> !response.success
    ensures view.ErrorView? ==> view.message != ""
    ensures view.ErrorView? && Truthy(response.error) ==> view.message == response.error.value
    ensures view.ErrorView? && !Truthy(response.error) ==> view.message == "An unknown error occurred"
    ensures view.ResultView? ==> view.query == response.query
    ensures view.ResultView? ==> (view.showsTime <==> response.executionTime.Some? && response.executionTime.value != 0.0)
  {
    if !response.success then
      ErrorView(if Truthy(response.error) then response.error.value else "An unknown error occurred")
    else
      ResultView(response.query,
                 response.executionTime.Some? && response.executionTime.value != 0.0,
                 Cards(Parse(response.comparison)))
  }

  /**
   * For a successful response, the view shows the cards of the parsed text:
   * the optional summary card, then one card per boundary in the text. What
   * each card holds is stated by `Cards` and `CardOf`.
   */
  lemma RenderSuccess(response: ComparisonResponse)
    requires response.success
    ensures Render(response).ResultView?
    ensures Render(response).cards == Cards(Parse(response.comparison))
    ensures |Render(response).cards|
              == (if Parse(response.comparison).summary != "" then 1 else 0) + Occurrences(response.comparison, Header)
  {
    ParseCount(response.comparison);
  }
}
