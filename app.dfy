/**
 * The top-level view state (frontend/src/App.jsx): the mode, the last
 * comparison, the loading flag and the error message, the handlers the
 * guided form and the chat call, and the guards that decide what is shown.
 */
module App {
  import opened Wrappers
  import opened Models
  import ComparisonForm

  datatype Mode = Guided | Chat

  /** The message shown for an error without one. */
  const DefaultError: string := "An error occurred"

  /** `err.message || 'An error occurred'`. */
  function ErrorText(message: Option<string>): (text: string)
    ensures text != ""
    ensures Truthy(message) ==> text == message.value
    ensures !Truthy(message) ==> text == DefaultError
  {
    if Truthy(message) then message.value else DefaultError
  }

  /** The health badge shows for a known health reply unless it reports "degraded". */
  function ShowsHealthBadge(health: Option<Health>): (shown: bool)
    ensures shown ==> health.Some?
    ensures health.Some? ==> (shown <==> health.value.status != "degraded")
  {
    health.Some? && health.value.status != "degraded"
  }

  class AppState {
    var mode: Mode
    var comparison: Option<ComparisonResponse>
    var loading: bool
    var error: Option<string>
    var health: Option<Health>

    /** An error, when there is one, always has a text to show. */
    ghost predicate Valid()
      reads this
    {
      error.Some? ==> error.value != ""
    }

    /** The state on first render: guided mode, nothing loaded, no error. */
    constructor ()
      ensures Valid()
      ensures mode == Guided && comparison.None? && !loading && error.None? && health.None?
    {
      mode := Guided;
      comparison := None;
      loading := false;
      error := None;
      health := None;
    }

    /**
     * The result card shows in guided mode when there is a comparison and
     * nothing is loading; chat mode shows only the chat.
     */
    predicate ShowsResult()
      reads this
      ensures ShowsResult() ==> mode == Guided && comparison.Some? && !loading
      ensures mode == Chat ==> !ShowsResult()
    {
      mode == Guided && comparison.Some? && !loading
    }

    /** The error box shows in guided mode when there is an error; chat mode shows only the chat. */
    predicate ShowsError()
      reads this
      ensures ShowsError() ==> mode == Guided && error.Some?
      ensures mode == Chat ==> !ShowsError()
    {
      mode == Guided && error.Some?
    }

    /** The form's submit callback: loading starts and the error is cleared; the last comparison stays. */
    method SubmitForm()
      requires Valid()
      modifies this
      ensures Valid()
      ensures loading && error.None?
      ensures comparison == old(comparison) && mode == old(mode) && health == old(health)
      ensures !ShowsResult() && !ShowsError()
    {
      loading := true;
      error := None;
    }

    /** `handleComparisonComplete`: the result replaces the comparison, loading stops, the error is cleared. */
    method Complete(result: ComparisonResponse)
      requires Valid()
      modifies this
      ensures Valid()
      ensures comparison == Some(result) && !loading && error.None?
      ensures mode == old(mode) && health == old(health)
      ensures (ShowsResult() <==> mode == Guided) && !ShowsError()
    {
      comparison := Some(result);
      loading := false;
      error := None;
    }

    /** `handleError`: the message, or a default, becomes the error and loading stops; the comparison stays. */
    method Fail(message: Option<string>)
      requires Valid()
      modifies this
      ensures Valid()
      ensures error == Some(ErrorText(message)) && !loading
      ensures comparison == old(comparison) && mode == old(mode) && health == old(health)
      ensures (ShowsError() <==> mode == Guided) && (ShowsResult() <==> mode == Guided && comparison.Some?)
    {
      error := Some(ErrorText(message));
      loading := false;
    }

    /** `handleClear`: comparison and error are cleared; loading and the mode are untouched. */
    method Clear()
      requires Valid()
      modifies this
      ensures Valid()
      ensures comparison.None? && error.None?
      ensures loading == old(loading) && mode == old(mode) && health == old(health)
      ensures !ShowsResult() && !ShowsError()
    {
      comparison := None;
      error := None;
    }

    /** A mode button: only the mode changes. */
    method SelectMode(m: Mode)
      requires Valid()
      modifies this
      ensures Valid()
      ensures mode == m
      ensures comparison == old(comparison) && loading == old(loading) && error == old(error) && health == old(health)
    {
      mode := m;
    }

    /** The health reply arrives; nothing else changes. */
    method ReceiveHealth(h: Health)
      requires Valid()
      modifies this
      ensures Valid()
      ensures health == Some(h)
      ensures mode == old(mode) && comparison == old(comparison) && loading == old(loading) && error == old(error)
    {
      health := Some(h);
    }

    /** The wiring of the form's callbacks to the handlers; the request itself changes nothing here. */
    method Deliver(event: ComparisonForm.Event)
      requires Valid()
      modifies this
      ensures Valid()
      ensures mode == old(mode) && health == old(health)
      ensures event.OnSubmit? ==> loading && error.None? && comparison == old(comparison)
      ensures event.OnComplete? ==> comparison == Some(event.response) && !loading && error.None?
      ensures event.OnError? ==> error == Some(ErrorText(Some(event.message))) && !loading && comparison == old(comparison)
      ensures event.Sent? ==> comparison == old(comparison) && loading == old(loading) && error == old(error)
    {
      match event {
        case OnSubmit(_, _) => SubmitForm();
        case Sent(_, _) =>
        case OnComplete(response) => Complete(response);
        case OnError(message) => Fail(Some(message));
      }
    }

    /**
     * One submit of the guided form, its callbacks delivered in order: a
     * rejected form shows the rejection; an answered request shows its
     * result; a failed one shows its error and keeps the last comparison.
     */
    method SubmitGuided(form: ComparisonForm.FormState, reply: ComparisonForm.Reply)
      requires Valid()
      modifies this
      ensures Valid()
      ensures !loading && mode == old(mode) && health == old(health)
      ensures ComparisonForm.Submission(form).None? ==>
                error == Some(ComparisonForm.BothOptionsMessage) && comparison == old(comparison)
      ensures ComparisonForm.Submission(form).Some? && reply.Answered? ==>
                comparison == Some(reply.response) && error.None? && (ShowsResult() <==> mode == Guided)
      ensures ComparisonForm.Submission(form).Some? && reply.Failed? ==>
                error == Some(ErrorText(Some(reply.message))) && comparison == old(comparison)
    {
      var events := ComparisonForm.HandleSubmit(form, reply);
      Deliver(events[0]);
      if |events| == 3 {
        Deliver(events[1]);
        Deliver(events[2]);
      }
    }
  }
}
