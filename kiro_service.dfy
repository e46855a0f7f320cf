/**
 * The pure parts of the backend's agent service
 * (backend/app/services/kiro_service.py): building the query sent to the
 * agent, cleaning the agent's terminal output, and classifying the outcome
 * of one agent run.
 */
module KiroService {
  import opened Wrappers
  import opened Text
  import opened Models

  /** Seconds the agent process may run before it is abandoned. */
  const Timeout: nat := 45

  // ---------------------------------------------------------------------
  // build_query
  // ---------------------------------------------------------------------

  /** The use-case clause, added only when the lower-cased query does not already contain "for". */
  function UseCaseClause(query: string, context: ComparisonContext): (clause: string)
    ensures clause == "" || (Truthy(context.useCase) && clause == " for " + context.useCase.value)
    ensures clause != "" ==> !Contains(AsciiLower(query), "for")
  {
    if Truthy(context.useCase) && !Contains(AsciiLower(query), "for") then " for " + context.useCase.value else ""
  }

  /** One labelled fragment when the value is truthy, none otherwise. */
  function Fragment(tag: string, value: Option<string>): (parts: seq<string>)
    ensures |parts| <= 1
  {
    if Truthy(value) then [tag + value.value] else []
  }

  /** The team size as the fragment shows it, when it is truthy. */
  function TeamText(teamSize: Option<int>): (text: Option<string>)
    ensures Truthy(text) <==> TruthyInt(teamSize)
  {
    if TruthyInt(teamSize) then Some(IntToDecimal(teamSize.value)) else None
  }

  /** The context fragments, in the order team, timeline, expertise, budget, one per truthy field. */
  function ContextParts(context: ComparisonContext): (parts: seq<string>)
    ensures forall k :: 0 <= k < |parts| ==> parts[k] != ""
  {
    Fragment("team of ", TeamText(context.teamSize)) + Fragment("timeline: ", context.timeline)
      + Fragment("expertise: ", context.expertise) + Fragment("budget: ", context.budget)
  }

  /** The context suffix: a comma, then the fragments separated by commas; nothing when there are none. */
  function ContextSuffix(parts: seq<string>): (suffix: string)
    ensures suffix == "" <==> parts == []
    ensures parts != [] ==> StartsWith(suffix, ", " + parts[0])
  {
    if parts == [] then ""
    else
      var joined := Join(parts, ", ");
      assert StartsWith(joined, parts[0]) by {
        if |parts| > 1 {
          assert joined == parts[0] + (", " + Join(parts[1..], ", "));
        }
      }
      ", " + joined
  }

  /** The query with its use-case clause and context suffix; a missing context leaves it unchanged. */
  function FullQuery(query: string, context: Option<ComparisonContext>): (full: string)
    ensures StartsWith(full, query)
    ensures context.None? ==> full == query
  {
    match context
    case None => query
    case Some(c) => query + UseCaseClause(query, c) + ContextSuffix(ContextParts(c))
  }

  /** `build_query`: grows the query with `+=` and collects the fragments in a list. */
  method BuildQuery(query: string, context: Option<ComparisonContext>) returns (full: string)
    ensures full == FullQuery(query, context)
  {
    if context.None? {
      return query;
    }
    var c := context.value;
    full := query;
    if Truthy(c.useCase) {
      if !Contains(AsciiLower(query), "for") {
        full := full + " for " + c.useCase.value;
      }
    }
    assert full == query + UseCaseClause(query, c);
    var parts := CollectParts(c);
    if parts != [] {
      full := full + ", " + Join(parts, ", ");
    }
  }

  /** The `context_parts` list of `build_query`, filled by `append` one truthy field at a time. */
  method CollectParts(c: ComparisonContext) returns (parts: seq<string>)
    ensures parts == ContextParts(c)
  {
    parts := [];
    if TruthyInt(c.teamSize) {
      parts := parts + ["team of " + IntToDecimal(c.teamSize.value)];
    }
    ghost var team := parts;
    assert team == Fragment("team of ", TeamText(c.teamSize));
    if Truthy(c.timeline) {
      parts := parts + ["timeline: " + c.timeline.value];
    }
    assert parts == team + Fragment("timeline: ", c.timeline);
    ghost var upToTimeline := parts;
    if Truthy(c.expertise) {
      parts := parts + ["expertise: " + c.expertise.value];
    }
    assert parts == upToTimeline + Fragment("expertise: ", c.expertise);
    ghost var upToExpertise := parts;
    if Truthy(c.budget) {
      parts := parts + ["budget: " + c.budget.value];
    }
    assert parts == upToExpertise + Fragment("budget: ", c.budget);
  }

  /**
   * Right after the query comes " for " exactly when the use case is
   * truthy and the lower-cased query has no "for" in it.
   */
  lemma UseCaseClauseIff(query: string, c: ComparisonContext)
    ensures StartsWith(FullQuery(query, Some(c))[|query|..], " for ")
            <==> Truthy(c.useCase) && !Contains(AsciiLower(query), "for")
  {
    var rest := FullQuery(query, Some(c))[|query|..];
    assert rest == UseCaseClause(query, c) + ContextSuffix(ContextParts(c));
    if !(Truthy(c.useCase) && !Contains(AsciiLower(query), "for")) {
      assert rest == ContextSuffix(ContextParts(c));
      if rest != "" {
        assert rest[1] == ' ' && " for "[1] == 'f';
      }
    } else {
      assert rest[..5] == " for ";
    }
  }

  /** The query gains nothing after the use-case clause exactly when no context field is truthy. */
  lemma NoDanglingComma(query: string, c: ComparisonContext)
    ensures FullQuery(query, Some(c)) == query + UseCaseClause(query, c)
            <==> !TruthyInt(c.teamSize) && !Truthy(c.timeline) && !Truthy(c.expertise) && !Truthy(c.budget)
  {
    var head := query + UseCaseClause(query, c);
    var suffix := ContextSuffix(ContextParts(c));
    assert FullQuery(query, Some(c)) == head + suffix;
    if suffix != "" {
      assert |head + suffix| > |head|;
    }
  }

  /** A team size of zero is falsy in Python and leaves no trace in the query. */
  lemma ZeroTeamOmitted(query: string, c: ComparisonContext)
    requires c.teamSize == Some(0)
    ensures FullQuery(query, Some(c)) == FullQuery(query, Some(c.(teamSize := None)))
  {
  }

  /** Reads one context fragment back by its label. */
  function ReadFragment(part: string, c: ComparisonContext): ComparisonContext
  {
    if StartsWith(part, "team of ") then c.(teamSize := ReadInt(part[8..]))
    else if StartsWith(part, "timeline: ") then c.(timeline := Some(part[10..]))
    else if StartsWith(part, "expertise: ") then c.(expertise := Some(part[11..]))
    else if StartsWith(part, "budget: ") then c.(budget := Some(part[8..]))
    else c
  }

  /** Reads a list of context fragments back, first fragment last. */
  function ReadFragments(parts: seq<string>): ComparisonContext
  {
    if parts == [] then ComparisonContext(None, None, None, None, None)
    else ReadFragment(parts[0], ReadFragments(parts[1..]))
  }

  /** A field as the fragments carry it: present when truthy, absent otherwise. */
  function Kept(o: Option<string>): Option<string> {
    if Truthy(o) then o else None
  }

  /** Reading at most one fragment in front of others. */
  lemma ReadFragmentsCons(a: seq<string>, b: seq<string>)
    requires |a| <= 1
    ensures ReadFragments(a + b) == if a == [] then ReadFragments(b) else ReadFragment(a[0], ReadFragments(b))
  {
    if a == [] {
      assert a + b == b;
    } else {
      assert (a + b)[0] == a[0] && (a + b)[1..] == b;
    }
  }

  /** Each label reads back into its own field only. */
  lemma ReadLabels(v: string, x: ComparisonContext)
    ensures ReadFragment("budget: " + v, x) == x.(budget := Some(v))
    ensures ReadFragment("expertise: " + v, x) == x.(expertise := Some(v))
    ensures ReadFragment("timeline: " + v, x) == x.(timeline := Some(v))
    ensures ReadFragment("team of " + v, x) == x.(teamSize := ReadInt(v))
  {
    assert ("budget: " + v)[0] == 'b' && ("budget: " + v)[8..] == v;
    assert ("budget: " + v)[..8] == "budget: ";
    assert ("expertise: " + v)[0] == 'e' && ("expertise: " + v)[11..] == v;
    assert ("expertise: " + v)[..11] == "expertise: ";
    assert ("timeline: " + v)[1] == 'i' && ("timeline: " + v)[10..] == v;
    assert ("timeline: " + v)[..10] == "timeline: ";
    assert ("team of " + v)[..8] == "team of " && ("team of " + v)[8..] == v;
  }

  /**
   * The fragments lose nothing but the falsy fields and the use case, which
   * travels in its own clause: reading them back by label gives every
   * truthy field of the context with its value.
   */
  lemma ContextPartsRoundTrip(c: ComparisonContext)
    ensures ReadFragments(ContextParts(c)) ==
      ComparisonContext(if TruthyInt(c.teamSize) then c.teamSize else None,
                        Kept(c.timeline), Kept(c.expertise), None, Kept(c.budget))
  {
    var t := Fragment("team of ", TeamText(c.teamSize));
    var l := Fragment("timeline: ", c.timeline);
    var e := Fragment("expertise: ", c.expertise);
    var b := Fragment("budget: ", c.budget);
    assert ContextParts(c) == t + (l + (e + (b + [])));
    var empty := ComparisonContext(None, None, None, None, None);
    assert ReadFragments([]) == empty;
    ReadFragmentsCons(b, []);
    ReadFragmentsCons(e, b + []);
    ReadFragmentsCons(l, e + (b + []));
    ReadFragmentsCons(t, l + (e + (b + [])));
    if Truthy(c.budget) { ReadLabels(c.budget.value, empty); }
    var cb := ReadFragments(b + []);
    if Truthy(c.expertise) { ReadLabels(c.expertise.value, cb); }
    var ce := ReadFragments(e + (b + []));
    if Truthy(c.timeline) { ReadLabels(c.timeline.value, ce); }
    var cl := ReadFragments(l + (e + (b + [])));
    if TruthyInt(c.teamSize) {
      ReadLabels(IntToDecimal(c.teamSize.value), cl);
      IntRoundTrip(c.teamSize.value);
    }
  }

  // ---------------------------------------------------------------------
  // clean_output: deletions
  // ---------------------------------------------------------------------

  /** The patterns `clean_output` deletes, each with an empty replacement. */
  datatype Pattern =
    | Csi                              // \x1b\[[0-9;]*[a-zA-Z]
    | CharsetSelect                    // \x1b\([AB]
    | Span(tag: string, stop: char)    // the literal tag, then .*? up to and including `stop`
    | Literal(text: string)            // the literal text

  const Esc: char := '\U{1b}'

  predicate AsciiLetter(c: char) {
    'a' <= c <= 'z' || 'A' <= c <= 'Z'
  }

  predicate CsiParameter(c: char) {
    '0' <= c <= '9' || c == ';'
  }

  /** Length of the run of parameter characters starting at `i`. */
  function ParameterRun(s: string, i: nat): (n: nat)
    requires i <= |s|
    ensures i + n <= |s|
    ensures forall j :: i <= j < i + n ==> CsiParameter(s[j])
    ensures i + n < |s| ==> !CsiParameter(s[i + n])
    decreases |s| - i
  {
    if i < |s| && CsiParameter(s[i]) then 1 + ParameterRun(s, i + 1) else 0
  }

  /**
   * Where the lazy `.*?` followed by `stop` ends when it starts at `i`:
   * the first `stop`, provided no newline (which `.` does not match)
   * comes before it.
   */
  function SpanEnd(s: string, i: nat, stop: char): (j: Option<nat>)
    requires i <= |s|
    ensures j.Some? ==> i <= j.value < |s| && s[j.value] == stop
    ensures j.Some? ==> forall k :: i <= k < j.value ==> s[k] != stop && s[k] != '\n'
    decreases |s| - i
  {
    if i == |s| then None
    else if s[i] == stop then Some(i)
    else if s[i] == '\n' then None
    else SpanEnd(s, i + 1, stop)
  }

  /** The length of the match of `p` at the start of `s`, or 0 when it does not match there. */
  function MatchLength(p: Pattern, s: string): (n: nat)
    ensures n <= |s|
    ensures p.Csi? && n > 0 ==>
              3 <= n && s[0] == Esc && s[1] == '[' && AsciiLetter(s[n - 1])
              && forall j :: 2 <= j < n - 1 ==> CsiParameter(s[j])
    ensures p.CharsetSelect? && n > 0 ==> n == 3 && s[0] == Esc && s[1] == '(' && (s[2] == 'A' || s[2] == 'B')
    ensures p.Span? && n > 0 ==>
              StartsWith(s, p.tag) && |p.tag| < n && s[n - 1] == p.stop
              && forall k :: |p.tag| <= k < n - 1 ==> s[k] != p.stop && s[k] != '\n'
    ensures p.Literal? && n > 0 ==> s[..n] == p.text
  {
    match p
    case Csi =>
      if 2 <= |s| && s[0] == Esc && s[1] == '[' then
        var k := ParameterRun(s, 2);
        if 2 + k < |s| && AsciiLetter(s[2 + k]) then 3 + k else 0
      else 0
    case CharsetSelect =>
      if 3 <= |s| && s[0] == Esc && s[1] == '(' && (s[2] == 'A' || s[2] == 'B') then 3 else 0
    case Span(tag, stop) =>
      if StartsWith(s, tag) then
        match SpanEnd(s, |tag|, stop)
        case Some(j) => j + 1
        case None => 0
      else 0
    case Literal(text) =>
      if StartsWith(s, text) then |text| else 0
  }

  /** `re.sub(p, '', s)`: scanning left to right, every match is deleted and every other character kept. */
  function Delete(s: string, p: Pattern): (r: string)
    ensures |r| <= |s|
    decreases |s|
  {
    if s == [] then []
    else
      var n := MatchLength(p, s);
      if n > 0 then Delete(s[n..], p) else [s[0]] + Delete(s[1..], p)
  }

  /** The first character every match of `p` begins with, when it has one. */
  function Trigger(p: Pattern): Option<char>
  {
    match p
    case Csi => Some(Esc)
    case CharsetSelect => Some(Esc)
    case Span(tag, _) => if tag != [] then Some(tag[0]) else None
    case Literal(text) => if text != [] then Some(text[0]) else None
  }

  /** Text in which no match can begin is kept whole. */
  lemma {:induction false} DeleteKeepsPlainText(s: string, p: Pattern)
    requires Trigger(p).Some? && forall i :: 0 <= i < |s| ==> s[i] != Trigger(p).value
    ensures Delete(s, p) == s
    decreases |s|
  {
    if s != [] {
      NoMatchWithoutTrigger(s, p);
      DeleteKeepsPlainText(s[1..], p);
      assert [s[0]] + s[1..] == s;
    }
  }

  /** Text before which no match can begin passes through, and deletion goes on after it. */
  lemma {:induction false} DeleteAfterPlain(x: string, y: string, p: Pattern, c: char)
    requires Trigger(p) == Some(c) && forall i :: 0 <= i < |x| ==> x[i] != c
    ensures Delete(x + y, p) == x + Delete(y, p)
    decreases |x|
  {
    if x != [] {
      var s := x + y;
      assert s[0] == x[0] && s[1..] == x[1..] + y;
      NoMatchWithoutTrigger(s, p);
      DeleteKeeps(s, p);
      DeleteAfterPlain(x[1..], y, p, c);
      assert [x[0]] + (x[1..] + Delete(y, p)) == x + Delete(y, p);
    } else {
      assert x + y == y;
    }
  }

  /** Where no match begins, the first character is kept and deletion goes on after it. */
  lemma DeleteKeeps(s: string, p: Pattern)
    requires s != [] && MatchLength(p, s) == 0
    ensures Delete(s, p) == [s[0]] + Delete(s[1..], p)
  {
  }

  /** No match begins at a character other than the pattern's first. */
  lemma NoMatchWithoutTrigger(s: string, p: Pattern)
    requires s != [] && Trigger(p).Some? && s[0] != Trigger(p).value
    ensures MatchLength(p, s) == 0
  {
    if p.Span? && |p.tag| <= |s| {
      assert s[..|p.tag|][0] != p.tag[0];
    }
    if p.Literal? && |p.text| <= |s| {
      assert s[..|p.text|][0] != p.text[0];
    }
  }

  /**
   * Deleting a literal is splitting on it and joining the pieces back
   * without it, as Python's `str.replace(text, '')` does.
   */
  lemma {:induction false} DeleteLiteral(s: string, text: string)
    requires text != []
    ensures Delete(s, Literal(text)) == Join(Split(s, text), "")
    decreases |s|
  {
    if StartsWith(s, text) {
      DeleteLiteral(s[|text|..], text);
      var rest := Split(s[|text|..], text);
      assert ([""] + rest)[1..] == rest;
      assert Join([""] + rest, "") == Join(rest, "");
    } else if s != [] {
      DeleteLiteral(s[1..], text);
      JoinConsHead(s[0], Split(s[1..], text), "");
    }
  }

  /**
   * A banner line or prompt is deleted through its stop character: the tag,
   * then text with neither the stop nor a newline, then the stop, leaves
   * only what follows.
   */
  lemma DeleteSpanLine(tag: string, stop: char, line: string, rest: string)
    requires forall i :: 0 <= i < |line| ==> line[i] != '\n' && line[i] != stop
    ensures Delete(tag + line + [stop] + rest, Span(tag, stop)) == Delete(rest, Span(tag, stop))
  {
    var s := tag + line + [stop] + rest;
    assert StartsWith(s, tag) by { assert s[..|tag|] == tag; }
    SpanEndAfter(s, |tag|, |tag| + |line|, stop);
    assert s[|tag| + |line| + 1..] == rest;
  }

  /**
   * A colour or cursor code is deleted whole: escape, `[`, any run of
   * digits and semicolons, then a letter, leaves only what follows.
   */
  lemma DeleteCsi(params: string, final: char, rest: string)
    requires forall j :: 0 <= j < |params| ==> CsiParameter(params[j])
    requires AsciiLetter(final)
    ensures Delete([Esc, '['] + params + [final] + rest, Csi) == Delete(rest, Csi)
  {
    var s := [Esc, '['] + params + [final] + rest;
    var k := ParameterRun(s, 2);
    assert s[2 + |params|] == final;
    assert MatchLength(Csi, s) == 3 + |params|;
    assert s[3 + |params|..] == rest;
  }

  /** A character-set selection, escape then `(A` or `(B`, is deleted whole. */
  lemma DeleteCharsetSelect(charset: char, rest: string)
    requires charset == 'A' || charset == 'B'
    ensures Delete([Esc, '(', charset] + rest, CharsetSelect) == Delete(rest, CharsetSelect)
  {
    assert ([Esc, '(', charset] + rest)[3..] == rest;
  }

  /** The span scan stops at `j` when `s[j]` is the stop and nothing between is a stop or a newline. */
  lemma {:induction false} SpanEndAfter(s: string, i: nat, j: nat, stop: char)
    requires i <= j < |s| && s[j] == stop
    requires forall k :: i <= k < j ==> s[k] != stop && s[k] != '\n'
    ensures SpanEnd(s, i, stop) == Some(j)
    decreases j - i
  {
    if i < j {
      SpanEndAfter(s, i + 1, j, stop);
    }
  }

  // ---------------------------------------------------------------------
  // clean_output: whitespace normalisation
  // ---------------------------------------------------------------------

  /** Each line stripped, the blank ones dropped, the rest in order. */
  function Cleaned(lines: seq<string>): (r: seq<string>)
    ensures |r| <= |lines|
    ensures forall k :: 0 <= k < |r| ==> r[k] != "" && !PySpace(r[k][0]) && !PySpace(r[k][|r[k]| - 1])
  {
    if lines == [] then []
    else
      var line := Trim(lines[0], PySpace);
      (if line != "" then [line] else []) + Cleaned(lines[1..])
  }

  /**
   * The stripped, nonblank lines of `s`, separated by one empty line; empty
   * exactly when every line is blank, and never with white space at either end.
   */
  function Normalise(s: string): (r: string)
    ensures r == "" <==> Cleaned(Split(s, "\n")) == []
    ensures r != "" ==> !PySpace(r[0]) && !PySpace(r[|r| - 1])
  {
    var lines := Cleaned(Split(s, "\n"));
    if lines != [] then
      JoinStartsWithFirst(lines, "\n\n");
      var joined := Join(lines, "\n\n");
      var last := lines[|lines| - 1];
      assert joined[..|lines[0]|][0] == joined[0];
      assert joined[|joined| - |last|..][|last| - 1] == joined[|joined| - 1];
      joined
    else
      ""
  }

  /**
   * The whole cleaning chain; the box-drawing deletion is the parameter
   * `stripBoxes`. The result has no white space at either end and is left
   * as it is by a second normalisation.
   */
  function CleanOutput(output: string, stripBoxes: string -> string): (r: string)
    ensures r != "" ==> !PySpace(r[0]) && !PySpace(r[|r| - 1])
    ensures Normalise(r) == r
  {
    var noCsi := Delete(output, Csi);
    var noCharset := Delete(noCsi, CharsetSelect);
    var noBoxes := stripBoxes(noCharset);
    var noModel := Delete(noBoxes, Span("Model:", '\n'));
    var noPlan := Delete(noModel, Span("Plan:", '\n'));
    var noCredits := Delete(noPlan, Span("\U{25B8} Credits:", '\n'));
    var noPrompt := Delete(noCredits, Span("[tech-stack-referee]", '>'));
    var noQuote := Delete(noPrompt, Literal("> "));
    NormaliseIdempotent(noQuote);
    Normalise(noQuote)
  }

  /** No character of `s` is a newline. */
  predicate OneLine(s: string) {
    forall i :: 0 <= i < |s| ==> s[i] != '\n'
  }

  /** Stripping a line cannot bring in a newline. */
  lemma TrimOneLine(s: string)
    requires OneLine(s)
    ensures OneLine(Trim(s, PySpace))
  {
    var a, b := TrimBounds(s, PySpace);
    forall i | 0 <= i < b - a ensures Trim(s, PySpace)[i] != '\n' {
      assert Trim(s, PySpace)[i] == s[a + i];
    }
  }

  /** Cleaning lines that hold no newline gives lines that hold none. */
  lemma {:induction false} CleanedOneLine(lines: seq<string>)
    requires forall k :: 0 <= k < |lines| ==> OneLine(lines[k])
    ensures forall k :: 0 <= k < |Cleaned(lines)| ==> OneLine(Cleaned(lines)[k])
  {
    if lines != [] {
      TrimOneLine(lines[0]);
      CleanedOneLine(lines[1..]);
    }
  }

  /** The lines Split produces on newlines hold no newline. */
  lemma SplitLinesOneLine(s: string)
    ensures forall k :: 0 <= k < |Split(s, "\n")| ==> OneLine(Split(s, "\n")[k])
  {
    SplitPiecesFree(s, "\n");
    forall k | 0 <= k < |Split(s, "\n")| ensures OneLine(Split(s, "\n")[k]) {
      ContainsChar(Split(s, "\n")[k], '\n');
    }
  }

  /** The normalised lines of any text hold no newline. */
  lemma NormalisedOneLine(s: string)
    ensures forall k :: 0 <= k < |Cleaned(Split(s, "\n"))| ==> OneLine(Cleaned(Split(s, "\n"))[k])
  {
    SplitLinesOneLine(s);
    CleanedOneLine(Split(s, "\n"));
  }

  /** Lines separated by empty lines, as splitting their "\n\n"-join on "\n" sees them. */
  function Spaced(lines: seq<string>): seq<string>
  {
    if |lines| <= 1 then lines else [lines[0], ""] + Spaced(lines[1..])
  }

  /** Splitting paragraphs joined by "\n\n" on single newlines gives the paragraphs and the empty lines between them. */
  lemma {:induction false} SplitParagraphs(lines: seq<string>)
    requires lines != []
    requires forall k :: 0 <= k < |lines| ==> OneLine(lines[k])
    ensures Split(Join(lines, "\n\n"), "\n") == Spaced(lines)
    decreases |lines|
  {
    if |lines| == 1 {
      SplitPlain(lines[0], "\n");
    } else {
      var rest := Join(lines[1..], "\n\n");
      assert forall k :: 0 <= k < |lines[1..]| ==> OneLine(lines[1..][k]) by {
        forall k | 0 <= k < |lines[1..]| ensures OneLine(lines[1..][k]) {
          assert lines[1..][k] == lines[k + 1];
        }
      }
      SplitParagraphs(lines[1..]);
      assert Join(lines, "\n\n") == lines[0] + "\n\n" + rest;
      SplitParagraph(lines[0], rest);
    }
  }

  /** A paragraph and the blank line after it split off as two pieces. */
  lemma SplitParagraph(line: string, rest: string)
    requires OneLine(line)
    ensures Split(line + "\n\n" + rest, "\n") == [line, ""] + Split(rest, "\n")
  {
    assert line + "\n\n" + rest == line + "\n" + ("\n" + rest);
    SplitLine(line, "\n" + rest);
    SplitLine("", rest);
  }

  /** A line and a newline split off as one piece. */
  lemma SplitLine(line: string, rest: string)
    requires OneLine(line)
    ensures Split(line + "\n" + rest, "\n") == [line] + Split(rest, "\n")
  {
    SplitAfterPlain(line, "\n", rest);
  }

  /** Cleaning leaves nothing exactly when every line strips to nothing. */
  lemma {:induction false} CleanedEmpty(lines: seq<string>)
    ensures Cleaned(lines) == [] <==> forall k :: 0 <= k < |lines| ==> Trim(lines[k], PySpace) == ""
    decreases |lines|
  {
    if lines != [] {
      CleanedEmpty(lines[1..]);
      assert forall k :: 1 <= k < |lines| ==> lines[k] == lines[1..][k - 1];
    }
  }

  /** Cleaning is compatible with concatenation. */
  lemma {:induction false} CleanedAppend(a: seq<string>, b: seq<string>)
    ensures Cleaned(a + b) == Cleaned(a) + Cleaned(b)
    decreases |a|
  {
    if a != [] {
      CleanedAppend(a[1..], b);
      assert (a + b)[0] == a[0];
      assert (a + b)[1..] == a[1..] + b;
    } else {
      assert a + b == b;
    }
  }

  /** A clean line followed by an empty one cleans to the line alone. */
  lemma CleanedPair(line: string)
    requires line != "" && !PySpace(line[0]) && !PySpace(line[|line| - 1])
    ensures Cleaned([line, ""]) == [line]
  {
    TrimTrimmed(line, PySpace);
    assert [line, ""][1..] == [""];
    assert Cleaned([""]) == [];
  }

  /** Cleaning leaves already clean lines alone and drops the empty separators between them. */
  lemma {:induction false} CleanedSpaced(lines: seq<string>)
    requires forall k :: 0 <= k < |lines| ==> lines[k] != "" && !PySpace(lines[k][0]) && !PySpace(lines[k][|lines[k]| - 1])
    ensures Cleaned(Spaced(lines)) == lines
    decreases |lines|
  {
    if |lines| == 1 {
      TrimTrimmed(lines[0], PySpace);
      assert Cleaned(lines[1..]) == [];
    } else if |lines| > 1 {
      var rest := Spaced(lines[1..]);
      CleanedSpaced(lines[1..]);
      CleanedPair(lines[0]);
      CleanedAppend([lines[0], ""], rest);
      assert Spaced(lines) == [lines[0], ""] + rest;
      assert lines == [lines[0]] + lines[1..];
    }
  }

  /**
   * The normalised text falls apart on "\n\n" into exactly the stripped,
   * nonblank lines of the input: no blank paragraph and no stray newline.
   */
  lemma NormaliseParagraphs(s: string)
    requires Normalise(s) != ""
    ensures Split(Normalise(s), "\n\n") == Cleaned(Split(s, "\n"))
  {
    var lines := Cleaned(Split(s, "\n"));
    NormalisedOneLine(s);
    assert lines != [];
    SplitJoinPlain(lines, "\n\n");
  }

  /** Pieces in which the delimiter's first character never appears come back from splitting their join. */
  lemma {:induction false} SplitJoinPlain(parts: seq<string>, d: string)
    requires d != [] && parts != []
    requires forall k, i :: 0 <= k < |parts| && 0 <= i < |parts[k]| ==> parts[k][i] != d[0]
    ensures Split(Join(parts, d), d) == parts
    decreases |parts|
  {
    if |parts| == 1 {
      SplitPlain(parts[0], d);
    } else {
      SplitJoinPlain(parts[1..], d);
      SplitAfterPlain(parts[0], d, Join(parts[1..], d));
      assert [parts[0]] + parts[1..] == parts;
    }
  }

  /** A join starts with its first piece and ends with its last. */
  lemma {:induction false} JoinStartsWithFirst(parts: seq<string>, sep: string)
    requires parts != []
    ensures StartsWith(Join(parts, sep), parts[0])
    ensures |Join(parts, sep)| >= |parts[|parts| - 1]|
    ensures Join(parts, sep)[|Join(parts, sep)| - |parts[|parts| - 1]|..] == parts[|parts| - 1]
    decreases |parts|
  {
    if |parts| > 1 {
      JoinStartsWithFirst(parts[1..], sep);
      var rest := Join(parts[1..], sep);
      assert Join(parts, sep) == parts[0] + sep + rest;
      assert (parts[0] + sep + rest)[..|parts[0]|] == parts[0];
      assert (parts[0] + sep + rest)[|parts[0] + sep + rest| - |parts[|parts| - 1]|..]
          == rest[|rest| - |parts[|parts| - 1]|..];
    }
  }

  /** Normalising twice is normalising once. */
  lemma NormaliseIdempotent(s: string)
    ensures Normalise(Normalise(s)) == Normalise(s)
  {
    var lines := Cleaned(Split(s, "\n"));
    if lines != [] {
      NormalisedOneLine(s);
      SplitParagraphs(lines);
      CleanedSpaced(lines);
    }
  }

  /**
   * What `clean_output` returns is empty or a run of nonblank one-line
   * paragraphs separated by "\n\n", with no white space at either end, and
   * normalising it again changes nothing.
   */
  lemma CleanOutputShape(output: string, stripBoxes: string -> string)
    ensures var r := CleanOutput(output, stripBoxes);
            && Normalise(r) == r
            && (r != "" ==>
                  && !PySpace(r[0]) && !PySpace(r[|r| - 1])
                  && forall k :: 0 <= k < |Split(r, "\n\n")| ==>
                       Split(r, "\n\n")[k] != "" && OneLine(Split(r, "\n\n")[k]))
  {
    var r := CleanOutput(output, stripBoxes);
    var s := Delete(Delete(Delete(Delete(Delete(stripBoxes(Delete(Delete(output, Csi), CharsetSelect)),
               Span("Model:", '\n')), Span("Plan:", '\n')), Span("\U{25B8} Credits:", '\n')),
               Span("[tech-stack-referee]", '>')), Literal("> "));
    assert r == Normalise(s);
    NormaliseIdempotent(s);
    if r != "" {
      NormaliseParagraphs(s);
      NormalisedOneLine(s);
    }
  }

  // ---------------------------------------------------------------------
  // call_agent: the outcome of one run
  // ---------------------------------------------------------------------

  /** How one run of the agent process ended. */
  datatype RunOutcome =
    | Exited(returnCode: int, stdout: string, stderr: string)
    | TimedOut
    | NotInstalled
    | Crashed(reason: string)

  /** The dictionary `call_agent` returns, without its execution time. */
  datatype AgentReply = AgentReply(success: bool, response: Option<string>, error: Option<string>)

  function Min(a: int, b: int): int {
    if a <= b then a else b
  }

  /** The message for a run that exceeded the timeout. */
  function TimeoutMessage(): string {
    "Request timed out after " + IntToDecimal(Timeout) + " seconds. Try a simpler query."
  }

  /** The classification of `call_agent`. */
  function Classify(run: RunOutcome, stripBoxes: string -> string): (reply: AgentReply)
    ensures reply.success <==> run.Exited? && run.returnCode == 0 && CleanOutput(run.stdout, stripBoxes) != ""
    ensures reply.success ==> reply.response == Some(CleanOutput(run.stdout, stripBoxes)) && reply.error.None?
    ensures !reply.success ==> reply.response.None? && reply.error.Some? && reply.error.value != ""
    ensures run.Exited? && run.returnCode == 0 && CleanOutput(run.stdout, stripBoxes) == "" ==>
              reply.error == Some("Agent returned empty response")
    ensures run.Exited? && run.returnCode != 0 ==>
              reply.error == Some(if run.stderr != "" then run.stderr[..Min(500, |run.stderr|)] else "Unknown error")
    ensures run.Exited? && run.returnCode != 0 && run.stderr != "" ==>
              |reply.error.value| <= 500 && StartsWith(run.stderr, reply.error.value)
              && (|run.stderr| <= 500 ==> reply.error.value == run.stderr)
    ensures run.TimedOut? ==> reply.error == Some(TimeoutMessage())
    ensures run.NotInstalled? ==> reply.error == Some("Kiro CLI is not installed or not in PATH")
    ensures run.Crashed? ==> reply.error == Some("Unexpected error: " + run.reason)
  {
    match run
    case Exited(rc, out, err) =>
      if rc == 0 then
        var response := CleanOutput(out, stripBoxes);
        if response != "" then AgentReply(true, Some(response), None)
        else AgentReply(false, None, Some("Agent returned empty response"))
      else
        AgentReply(false, None, Some(if err != "" then err[..Min(500, |err|)] else "Unknown error"))
    case TimedOut => AgentReply(false, None, Some(TimeoutMessage()))
    case NotInstalled => AgentReply(false, None, Some("Kiro CLI is not installed or not in PATH"))
    case Crashed(reason) => AgentReply(false, None, Some("Unexpected error: " + reason))
  }

  /** The timeout message names the 45-second limit. */
  lemma TimeoutMessageText()
    ensures TimeoutMessage() == "Request timed out after " + "45" + " seconds. Try a simpler query."
  {
    assert 45 / 10 == 4 && 45 % 10 == 5;
    assert NatToDecimal(4) == "4";
    assert NatToDecimal(45) == "45";
    assert IntToDecimal(Timeout) == "45";
  }

  /** A failed run with no error output is reported as an unknown error. */
  lemma SilentFailure(rc: int, out: string, stripBoxes: string -> string)
    requires rc != 0
    ensures Classify(Exited(rc, out, ""), stripBoxes).error == Some("Unknown error")
  {
  }
}
