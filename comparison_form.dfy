/**
 * The guided comparison form (frontend/src/components/ComparisonForm.jsx):
 * its fields, the category change that clears both choices, the filtered
 * second choice, and the submit handler that builds the query and the
 * context or rejects the form.
 */
module ComparisonForm {
  import opened Wrappers
  import opened Text
  import opened Models
  import KiroService

  /**
   * The fields of the form. `teamSize` is None when the number input does
   * not parse (JavaScript NaN, which is falsy).
   */
  datatype FormState = FormState(
    category: string,
    option1: string,
    option2: string,
    useCase: string,
    teamSize: Option<int>,
    timeline: string,
    expertise: string,
    customQuery: string,
    useCustom: bool)

  /** The form as it first appears. */
  function InitialForm(): FormState {
    FormState("Frontend Frameworks", "", "", "", Some(3), "", "", "", false)
  }

  /** What is sent: the query and the optional context object. */
  datatype Request = Request(query: string, context: Option<ComparisonContext>)

  /** How the awaited request ended. */
  datatype Reply = Answered(response: ComparisonResponse) | Failed(message: string)

  /** The callbacks and the request, in the order the handler makes them. */
  datatype Event =
    | OnError(message: string)
    | OnSubmit(query: string, context: Option<ComparisonContext>)
    | Sent(query: string, context: Option<ComparisonContext>)
    | OnComplete(response: ComparisonResponse)

  const BothOptionsMessage: string := "Please select both options"

  // ---------------------------------------------------------------------
  // Category change and the second choice
  // ---------------------------------------------------------------------

  /** Choosing a category clears both options and changes nothing else. */
  function ChangeCategory(form: FormState, category: string): (next: FormState)
    ensures next.category == category && next.option1 == "" && next.option2 == ""
    ensures next.(category := form.category, option1 := form.option1, option2 := form.option2) == form
  {
    form.(category := category, option1 := "", option2 := "")
  }

  /** The options of a category; an unknown category has none. */
  function AvailableOptions(categories: map<string, seq<string>>, category: string): (options: seq<string>)
    ensures category in categories ==> options == categories[category]
    ensures category !in categories ==> options == []
  {
    if category in categories then categories[category] else []
  }

  /** `filter(opt => opt !== x)`: every element but `x`, in order. */
  function Without(options: seq<string>, x: string): (r: seq<string>)
    ensures |r| <= |options|
    ensures forall i :: 0 <= i < |r| ==> r[i] != x
  {
    if options == [] then []
    else (if options[0] != x then [options[0]] else []) + Without(options[1..], x)
  }

  /** Filtering removes every copy of `x` and keeps every copy of everything else. */
  lemma {:induction false} WithoutCounts(options: seq<string>, x: string)
    ensures multiset(Without(options, x))[x] == 0
    ensures forall y :: y != x ==> multiset(Without(options, x))[y] == multiset(options)[y]
  {
    if options != [] {
      WithoutCounts(options[1..], x);
      assert options == [options[0]] + options[1..];
    }
  }

  /** The choices offered for the second option: the category's options other than the first option. */
  function Option2Choices(categories: map<string, seq<string>>, category: string, option1: string): (r: seq<string>)
    ensures forall y :: y in r <==> y in AvailableOptions(categories, category) && y != option1
    ensures category !in categories ==> r == []
  {
    var r := Without(AvailableOptions(categories, category), option1);
    WithoutCounts(AvailableOptions(categories, category), option1);
    assert forall y :: y in r <==> multiset(r)[y] > 0;
    r
  }

  /** Filtering keeps the relative order: it distributes over concatenation. */
  lemma {:induction false} WithoutAppend(a: seq<string>, b: seq<string>, x: string)
    ensures Without(a + b, x) == Without(a, x) + Without(b, x)
    decreases |a|
  {
    if a == [] {
      assert a + b == b;
    } else {
      WithoutAppend(a[1..], b, x);
      assert a + b == [a[0]] + (a[1..] + b);
      assert a == [a[0]] + a[1..];
      WithoutCons(a[0], a[1..] + b, x);
      WithoutCons(a[0], a[1..], x);
    }
  }

  /** Filtering a sequence with a first element: that element if it is kept, then the filtered rest. */
  lemma WithoutCons(y: string, t: seq<string>, x: string)
    ensures Without([y] + t, x) == (if y != x then [y] else []) + Without(t, x)
  {
    assert ([y] + t)[1..] == t;
  }

  // ---------------------------------------------------------------------
  // Submitting
  // ---------------------------------------------------------------------

  /** A number field is truthy when it parsed and is not zero. */
  predicate NumberTruthy(n: Option<int>) {
    n.Some? && n.value != 0
  }

  /** The guided query: both options, then the use case when one is given. */
  function GuidedQuery(form: FormState): (query: string)
    ensures StartsWith(query, "Compare " + form.option1 + " vs " + form.option2)
  {
    var head := "Compare " + form.option1 + " vs " + form.option2;
    var tail := if form.useCase != "" then " for " + form.useCase else "";
    assert (head + tail)[..|head|] == head;
    head + tail
  }

  /** The context object: a key for every truthy field, and no object at all when there is none. */
  function GuidedContext(form: FormState): (context: Option<ComparisonContext>)
    ensures context.None? <==> !NumberTruthy(form.teamSize) && form.timeline == "" && form.expertise == "" && form.useCase == ""
    ensures context.Some? ==> context.value.teamSize == (if NumberTruthy(form.teamSize) then form.teamSize else None)
    ensures context.Some? ==> context.value.timeline == (if form.timeline != "" then Some(form.timeline) else None)
    ensures context.Some? ==> context.value.expertise == (if form.expertise != "" then Some(form.expertise) else None)
    ensures context.Some? ==> context.value.useCase == (if form.useCase != "" then Some(form.useCase) else None)
    ensures context.Some? ==> context.value.budget.None?
  {
    var parts := ComparisonContext(
      if NumberTruthy(form.teamSize) then form.teamSize else None,
      if form.timeline != "" then Some(form.timeline) else None,
      if form.expertise != "" then Some(form.expertise) else None,
      if form.useCase != "" then Some(form.useCase) else None,
      None);
    if parts.teamSize.None? && parts.timeline.None? && parts.expertise.None? && parts.useCase.None? then None
    else Some(parts)
  }

  /** What a submit sends, or None when the guided form lacks an option. */
  function Submission(form: FormState): (request: Option<Request>)
    ensures request.None? <==> !form.useCustom && (form.option1 == "" || form.option2 == "")
  {
    if form.useCustom then Some(Request(form.customQuery, None))
    else if form.option1 == "" || form.option2 == "" then None
    else Some(Request(GuidedQuery(form), GuidedContext(form)))
  }

  /** The events of one submit: a rejection alone, or the submit callback, the request, and one outcome callback. */
  function SubmitEvents(form: FormState, reply: Reply): (events: seq<Event>)
    ensures |events| == 1 || |events| == 3
    ensures events[|events| - 1].OnComplete? || events[|events| - 1].OnError?
  {
    match Submission(form)
    case None => [OnError(BothOptionsMessage)]
    case Some(Request(q, c)) =>
      [OnSubmit(q, c), Sent(q, c)]
        + (match reply
           case Answered(response) => [OnComplete(response)]
           case Failed(message) => [OnError(message)])
  }

  /**
   * `handleSubmit`: builds the query with `+=` and fills the context key by
   * key, then reports the submit, makes the request, and reports its
   * outcome. The awaited request is the parameter `reply`.
   */
  method HandleSubmit(form: FormState, reply: Reply) returns (events: seq<Event>)
    ensures events == SubmitEvents(form, reply)
  {
    var query: string;
    var context: Option<ComparisonContext> := None;
    if form.useCustom {
      query := form.customQuery;
    } else {
      if form.option1 == "" || form.option2 == "" {
        return [OnError(BothOptionsMessage)];
      }
      query := "Compare " + form.option1 + " vs " + form.option2;
      if form.useCase != "" {
        query := query + " for " + form.useCase;
      }
      var parts := ComparisonContext(None, None, None, None, None);
      var keys := 0;
      if NumberTruthy(form.teamSize) {
        parts := parts.(teamSize := form.teamSize);
        keys := keys + 1;
      }
      if form.timeline != "" {
        parts := parts.(timeline := Some(form.timeline));
        keys := keys + 1;
      }
      if form.expertise != "" {
        parts := parts.(expertise := Some(form.expertise));
        keys := keys + 1;
      }
      if form.useCase != "" {
        parts := parts.(useCase := Some(form.useCase));
        keys := keys + 1;
      }
      assert parts == ComparisonContext(
        if NumberTruthy(form.teamSize) then form.teamSize else None,
        if form.timeline != "" then Some(form.timeline) else None,
        if form.expertise != "" then Some(form.expertise) else None,
        if form.useCase != "" then Some(form.useCase) else None,
        None);
      assert keys > 0 <==> !(parts.teamSize.None? && parts.timeline.None? && parts.expertise.None? && parts.useCase.None?);
      if keys > 0 {
        context := Some(parts);
      }
      assert query == GuidedQuery(form);
    }
    events := [OnSubmit(query, context), Sent(query, context)];
    match reply {
      case Answered(response) => events := events + [OnComplete(response)];
      case Failed(message) => events := events + [OnError(message)];
    }
  }

  /**
   * Every submit ends in exactly one outcome callback; an accepted one
   * first reports the very query and context it then sends.
   */
  lemma SubmitProtocol(form: FormState, reply: Reply)
    ensures var events := SubmitEvents(form, reply);
            && events[|events| - 1].OnComplete? != events[|events| - 1].OnError?
            && (forall k :: 0 <= k < |events| - 1 ==> !events[k].OnComplete? && !events[k].OnError?)
            && (Submission(form).None? <==> |events| == 1)
            && (Submission(form).None? ==> events == [OnError(BothOptionsMessage)])
            && (Submission(form).Some? ==>
                  |events| == 3
                  && events[0] == OnSubmit(Submission(form).value.query, Submission(form).value.context)
                  && events[1] == Sent(Submission(form).value.query, Submission(form).value.context))
  {
  }

  /** A custom query is sent verbatim with no context and without checking the options. */
  lemma CustomQueryVerbatim(form: FormState)
    requires form.useCustom
    ensures Submission(form) == Some(Request(form.customQuery, None))
  {
  }

  /** The guided query starts with both options and mentions the use case exactly when one is given. */
  lemma GuidedQueryShape(form: FormState)
    requires !form.useCustom && form.option1 != "" && form.option2 != ""
    ensures StartsWith(Submission(form).value.query, "Compare " + form.option1 + " vs " + form.option2)
    ensures form.useCase != "" ==> Contains(Submission(form).value.query, " for " + form.useCase)
    ensures form.useCase != "" ==>
              Submission(form).value.query == "Compare " + form.option1 + " vs " + form.option2 + " for " + form.useCase
    ensures form.useCase == "" ==> Submission(form).value.query == "Compare " + form.option1 + " vs " + form.option2
  {
    var head := "Compare " + form.option1 + " vs " + form.option2;
    assert GuidedQuery(form)[..|head|] == head;
    if form.useCase != "" {
      ContainsInfix(head, " for " + form.useCase, "");
      assert head + (" for " + form.useCase) + "" == GuidedQuery(form);
    }
  }

  /** The only check is that both options are chosen: the same option twice is accepted. */
  lemma SameOptionAccepted(form: FormState)
    requires !form.useCustom && form.option1 != "" && form.option1 == form.option2
    ensures Submission(form).Some?
  {
  }

  /** Right after a category change the guided form cannot be submitted until both options are chosen again. */
  lemma CategoryChangeBlocksSubmit(form: FormState, category: string)
    requires !form.useCustom
    ensures Submission(ChangeCategory(form, category)).None?
  {
  }

  /** The form as it first appears cannot be submitted: both options start empty. */
  lemma InitialFormRejected(reply: Reply)
    ensures Submission(InitialForm()).None?
    ensures SubmitEvents(InitialForm(), reply) == [OnError(BothOptionsMessage)]
  {
  }

  /**
   * Choosing both options, and nothing else, in the initial form sends the
   * bare comparison with a context holding only the default team size 3.
   */
  lemma InitialFormChosen(option1: string, option2: string)
    requires option1 != "" && option2 != ""
    ensures Submission(InitialForm().(option1 := option1, option2 := option2))
            == Some(Request("Compare " + option1 + " vs " + option2,
                            Some(ComparisonContext(Some(3), None, None, None, None))))
  {
    var form := InitialForm().(option1 := option1, option2 := option2);
    var query := "Compare " + option1 + " vs " + option2;
    assert query + "" == query;
    assert GuidedQuery(form) == query;
    assert GuidedContext(form) == Some(ComparisonContext(Some(3), None, None, None, None));
  }

  /**
   * The backend never adds a second use-case clause to a guided query:
   * with a use case the query already contains "for", and without one the
   * context carries none.
   */
  lemma GuidedQueryOnBackend(form: FormState)
    requires !form.useCustom && form.option1 != "" && form.option2 != ""
    ensures var r := Submission(form).value;
            KiroService.FullQuery(r.query, r.context)
              == r.query + (if r.context.Some? then KiroService.ContextSuffix(KiroService.ContextParts(r.context.value)) else "")
  {
    var r := Submission(form).value;
    if form.useCase != "" {
      var head := "Compare " + form.option1 + " vs " + form.option2 + " ";
      assert r.query == head + "for" + (" " + form.useCase);
      ContainsInfix(head, "for", " " + form.useCase);
      LowerKeepsFor(r.query);
    }
  }

  /** Lower-casing keeps a lower-case "for". */
  lemma LowerKeepsFor(s: string)
    requires Contains(s, "for")
    ensures Contains(AsciiLower(s), "for")
  {
    ContainsIffOccurs(s, "for");
    ContainsIffOccurs(AsciiLower(s), "for");
    var i :| OccursAt(s, "for", i);
    AsciiLowerSlice(s, i, i + 3);
    assert AsciiLower(s)[i..i + 3] == AsciiLower("for");
    assert AsciiLower("for") == "for";
    assert OccursAt(AsciiLower(s), "for", i);
  }
}
