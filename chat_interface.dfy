/**
 * The chat view (frontend/src/components/ChatInterface.jsx): a log of
 * messages that only grows while the view is shown, the text being typed,
 * and a loading flag that guards the one request in flight. Each awaited
 * request is two transitions: Submit, then Receive or Fail.
 */
module ChatInterface {
  import opened Wrappers
  import opened Text
  import opened Models

  datatype Role = User | Assistant

  /** One entry of the log; the assistant's replies carry the query and the time reported with them. */
  datatype Message = Message(
    role: Role,
    content: string,
    query: Option<string>,
    executionTime: Option<real>,
    isError: bool)

  /** The prefix of a failed request's message. */
  const ErrorPrefix: string := "\U{26A0}\U{FE0F} Error: "

  /** The number of suggestion chips shown at most. */
  const MaxChips: nat := 4

  /** The message a submitted input becomes: the input as typed, untrimmed. */
  function UserMessage(input: string): Message {
    Message(User, input, None, None, false)
  }

  /** The message a successful request becomes. */
  function AnswerMessage(response: ComparisonResponse): Message {
    Message(Assistant, response.comparison, Some(response.query), response.executionTime, false)
  }

  /** The message a failed request becomes. */
  function ErrorMessage(message: string): Message {
    Message(Assistant, ErrorPrefix + message, None, None, true)
  }

  /** Submitting is refused while a request is in flight or when the input is blank. */
  predicate Accepts(input: string, loading: bool)
    ensures Accepts(input, loading) <==> !loading && exists i :: 0 <= i < |input| && !JsSpace(input[i])
  {
    TrimEmptyIff(input, JsSpace);
    Trim(input, JsSpace) != "" && !loading
  }

  /**
   * The chips shown: the first four suggestions, and only while the log is
   * empty and there is a suggestion to show.
   */
  function Chips(messages: seq<Message>, suggestions: seq<Suggestion>): (chips: seq<Suggestion>)
    ensures |chips| <= MaxChips
    ensures chips <= suggestions
    ensures chips != [] <==> messages == [] && suggestions != []
    ensures messages == [] ==> |chips| == (if |suggestions| < MaxChips then |suggestions| else MaxChips)
  {
    if messages == [] && |suggestions| > 0 then
      suggestions[..if |suggestions| < MaxChips then |suggestions| else MaxChips]
    else []
  }

  class Chat {
    var messages: seq<Message>
    var input: string
    var loading: bool

    /**
     * The log alternates: user messages at even positions, replies at odd
     * ones, and a request is in flight exactly when the last message is a
     * user message still waiting for its reply.
     */
    ghost predicate Valid()
      reads this
    {
      && (forall i :: 0 <= i < |messages| ==> (messages[i].role == User <==> i % 2 == 0))
      && (loading <==> |messages| % 2 == 1)
    }

    /** An empty log, an empty input, nothing in flight. */
    constructor ()
      ensures Valid()
      ensures messages == [] && input == "" && !loading
    {
      messages := [];
      input := "";
      loading := false;
    }

    /**
     * `handleSubmit` up to the await: an accepted submit logs the input as
     * a user message, clears the input, starts loading and returns the
     * text to request, which is the input from before it was cleared.
     */
    method Submit() returns (request: Option<string>)
      requires Valid()
      modifies this
      ensures Valid()
      ensures Accepts(old(input), old(loading)) ==>
                && messages == old(messages) + [UserMessage(old(input))]
                && input == "" && loading
                && request == Some(old(input))
      ensures !Accepts(old(input), old(loading)) ==>
                messages == old(messages) && input == old(input) && loading == old(loading) && request.None?
    {
      if Trim(input, JsSpace) == "" || loading {
        return None;
      }
      var sent := input;
      messages := messages + [UserMessage(input)];
      input := "";
      loading := true;
      request := Some(sent);
    }

    /** The await resolves: the reply is logged and loading ends. */
    method Receive(response: ComparisonResponse)
      requires Valid() && loading
      modifies this
      ensures Valid()
      ensures messages == old(messages) + [AnswerMessage(response)]
      ensures input == old(input) && !loading
    {
      messages := messages + [AnswerMessage(response)];
      loading := false;
    }

    /**
     * The await rejects: the error goes to the parent's error handler,
     * which is returned, an error message is logged, and loading ends.
     */
    method Fail(message: string) returns (reported: string)
      requires Valid() && loading
      modifies this
      ensures Valid()
      ensures reported == message
      ensures messages == old(messages) + [ErrorMessage(message)]
      ensures input == old(input) && !loading
    {
      reported := message;
      messages := messages + [ErrorMessage(message)];
      loading := false;
    }

    /** Typing replaces the input. */
    method Type(text: string)
      requires Valid()
      modifies this
      ensures Valid()
      ensures input == text && messages == old(messages) && loading == old(loading)
    {
      input := text;
    }

    /** Clicking a suggestion puts its query in the input without submitting it. */
    method ClickSuggestion(suggestion: Suggestion)
      requires Valid()
      modifies this
      ensures Valid()
      ensures input == suggestion.query && messages == old(messages) && loading == old(loading)
    {
      input := suggestion.query;
    }

    /** Enter without Shift submits; every other key does nothing here. */
    method KeyPress(key: string, shift: bool) returns (request: Option<string>)
      requires Valid()
      modifies this
      ensures Valid()
      ensures !(key == "Enter" && !shift) ==>
                messages == old(messages) && input == old(input) && loading == old(loading) && request.None?
      ensures key == "Enter" && !shift && Accepts(old(input), old(loading)) ==>
                messages == old(messages) + [UserMessage(old(input))] && input == "" && loading
                && request == Some(old(input))
      ensures key == "Enter" && !shift && !Accepts(old(input), old(loading)) ==>
                messages == old(messages) && input == old(input) && loading == old(loading) && request.None?
    {
      request := None;
      if key == "Enter" && !shift {
        request := Submit();
      }
    }
  }
}
