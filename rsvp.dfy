/**
 * The RSVP form: two text fields, a submit status, and the placeholder
 * "sending" that a 1200 ms timer completes. Every submission schedules its
 * own timer, and the state counts the timers still pending; each firing is
 * the event `SubmitTimeout`. The submit button is disabled while sending, and
 * a form whose submit button is disabled is not submitted (not by a click,
 * not by Enter), so a submission only reaches the handler from idle or done.
 */
module Rsvp {

  datatype Status = Idle | Sending | Done

  /** The two inputs, by their `name` attribute. */
  datatype Field = Name | Guests

  datatype FormData = FormData(name: string, guests: string)

  /** The form as the section first shows it: no name, one guest. */
  const InitialForm := FormData("", "1")

  datatype RsvpState = RsvpState(form: FormData, status: Status, pendingTimers: nat)

  const Initial := RsvpState(InitialForm, Idle, 0)

  datatype RsvpEvent =
    | Change(field: Field, value: string)  // an input's change event
    | Submit                               // the form's submit event
    | SubmitTimeout                        // a pending 1200 ms timer fires

  function FieldValue(f: FormData, field: Field): string {
    match field
    case Name => f.name
    case Guests => f.guests
  }

  /**
   * `handleChange`: the record with the changed input's value under its name.
   * The named field reads back as the new value and the other field is left
   * as it was.
   */
  function WithField(f: FormData, field: Field, value: string): (g: FormData)
    ensures FieldValue(g, field) == value
    ensures forall other :: other != field ==> FieldValue(g, other) == FieldValue(f, other)
  {
    match field
    case Name => f.(name := value)
    case Guests => f.(guests := value)
  }

  /** The submit button is disabled while the response is being sent. */
  predicate SubmitDisabled(status: Status) {
    status == Sending
  }

  /** The submit button's caption. */
  function ButtonLabel(status: Status): string {
    if status == Sending then "Enviando..." else "Enviar respuesta"
  }

  /** The confirmation message is shown once the response is done. */
  predicate ShowsConfirmation(status: Status) {
    status == Done
  }

  /** The caption says the response is on its way exactly when the button is disabled. */
  lemma LabelMatchesDisabled(status: Status)
    ensures ButtonLabel(status) == "Enviando..." <==> SubmitDisabled(status)
  {
    if !SubmitDisabled(status) {
      assert ButtonLabel(status)[5] != "Enviando..."[5];
    }
  }

  /**
   * The status agrees with the timers: at most one is pending, and one is
   * pending exactly while the response is being sent.
   */
  predicate Consistent(s: RsvpState) {
    && s.pendingTimers <= 1
    && (s.status == Sending <==> s.pendingTimers == 1)
  }

  /** The section's reaction to one event. */
  function Step(s: RsvpState, e: RsvpEvent): (t: RsvpState)
    ensures Consistent(s) ==> Consistent(t)
  {
    match e
    case Change(field, value) => s.(form := WithField(s.form, field, value))
    case Submit =>
      if SubmitDisabled(s.status) then s
      else s.(status := Sending, pendingTimers := s.pendingTimers + 1)
    case SubmitTimeout =>
      if s.pendingTimers == 0 then s
      else s.(status := Done, pendingTimers := s.pendingTimers - 1)
  }

  /**
   * A submission from idle or from done sets the status to sending and
   * schedules one timer, the data untouched.
   */
  lemma SubmitSendsWhenEnabled(s: RsvpState)
    requires !SubmitDisabled(s.status)
    ensures Step(s, Submit).status == Sending
    ensures Step(s, Submit).form == s.form
    ensures Step(s, Submit).pendingTimers == s.pendingTimers + 1
  {
  }

  /** While the response is being sent the button is disabled: submitting changes nothing. */
  lemma SubmitIgnoredWhileSending(s: RsvpState)
    requires SubmitDisabled(s.status)
    ensures Step(s, Submit) == s
  {
  }

  /** A timer that fires sets the status to done, and the confirmation shows. */
  lemma TimeoutCompletes(s: RsvpState)
    requires s.pendingTimers > 0
    ensures Step(s, SubmitTimeout).status == Done
    ensures ShowsConfirmation(Step(s, SubmitTimeout).status)
    ensures Step(s, SubmitTimeout).form == s.form
  {
  }

  /** Editing an input changes only that input's value. */
  lemma ChangeTouchesOneField(s: RsvpState, field: Field, value: string)
    ensures Step(s, Change(field, value)).status == s.status
    ensures Step(s, Change(field, value)).pendingTimers == s.pendingTimers
    ensures FieldValue(Step(s, Change(field, value)).form, field) == value
    ensures forall other :: other != field ==>
              FieldValue(Step(s, Change(field, value)).form, other) == FieldValue(s.form, other)
  {
  }

  /** The state after a sequence of events, applied in order. */
  function Run(s: RsvpState, evs: seq<RsvpEvent>): (t: RsvpState)
    ensures Consistent(s) ==> Consistent(t)
    decreases |evs|
  {
    if evs == [] then s else Step(Run(s, evs[..|evs| - 1]), evs[|evs| - 1])
  }

  /**
   * From a freshly mounted form, whatever happens, at most one submission
   * timer is pending, and one is pending exactly while the response is
   * being sent.
   */
  lemma AtMostOneTimer(evs: seq<RsvpEvent>)
    ensures Run(Initial, evs).pendingTimers <= 1
    ensures Run(Initial, evs).status == Sending <==> Run(Initial, evs).pendingTimers == 1
  {
    assert Consistent(Initial);
  }

  /** The form data that the change events alone produce, in order. */
  function ApplyChanges(f: FormData, evs: seq<RsvpEvent>): FormData
    decreases |evs|
  {
    if evs == [] then f
    else
      var g := ApplyChanges(f, evs[..|evs| - 1]);
      match evs[|evs| - 1]
      case Change(field, value) => WithField(g, field, value)
      case _ => g
  }

  /** Submitting and its timers never touch the form data: only the changes do. */
  lemma {:induction false} FormFollowsChanges(s: RsvpState, evs: seq<RsvpEvent>)
    ensures Run(s, evs).form == ApplyChanges(s.form, evs)
    decreases |evs|
  {
    if evs != [] {
      FormFollowsChanges(s, evs[..|evs| - 1]);
    }
  }

  predicate NeverSubmitted(evs: seq<RsvpEvent>) {
    forall i :: 0 <= i < |evs| ==> evs[i] != Submit
  }

  /** From a freshly mounted section the status is idle exactly until the first submission. */
  lemma {:induction false} IdleIffNeverSubmitted(evs: seq<RsvpEvent>)
    ensures Run(Initial, evs).status == Idle <==> NeverSubmitted(evs)
    decreases |evs|
  {
    if evs != [] {
      var init := evs[..|evs| - 1];
      IdleIffNeverSubmitted(init);
      assert forall i :: 0 <= i < |init| ==> init[i] == evs[i];
      if NeverSubmitted(init) {
        assert Run(Initial, init).pendingTimers == 0;
      }
    }
  }

  /** `n` firings of the submission timer. */
  function Timeouts(n: nat): (evs: seq<RsvpEvent>)
    ensures |evs| == n && forall i :: 0 <= i < n ==> evs[i] == SubmitTimeout
  {
    if n == 0 then [] else Timeouts(n - 1) + [SubmitTimeout]
  }

  /**
   * Once every pending timer has fired, a response that was submitted is
   * done: the sending state never lasts.
   */
  lemma {:induction false} PendingTimersComplete(s: RsvpState, n: nat)
    requires Consistent(s) && n <= s.pendingTimers
    ensures Run(s, Timeouts(n)).pendingTimers == s.pendingTimers - n
    ensures Run(s, Timeouts(n)).form == s.form
    ensures n > 0 ==> Run(s, Timeouts(n)).status == Done
    ensures n == 0 ==> Run(s, Timeouts(n)).status == s.status
    decreases n
  {
    if n > 0 {
      var evs := Timeouts(n);
      assert evs[..n - 1] == Timeouts(n - 1);
      PendingTimersComplete(s, n - 1);
    }
  }

  /**
   * After all of a submitted response's timers have fired it is done, the
   * confirmation shows, and nothing is pending.
   */
  lemma SubmittedEndsDone(s: RsvpState)
    requires Consistent(s) && s.status != Idle
    ensures Run(s, Timeouts(s.pendingTimers)).status == Done
    ensures ShowsConfirmation(Run(s, Timeouts(s.pendingTimers)).status)
    ensures Run(s, Timeouts(s.pendingTimers)).pendingTimers == 0
  {
    PendingTimersComplete(s, s.pendingTimers);
  }

  // ---------------------------------------------------------------------------
  // The component

  /** `RSVPSection`'s state and its handlers. */
  class RsvpSection {
    var formData: FormData
    var status: Status
    var pendingTimers: nat

    function State(): RsvpState
      reads this
    {
      RsvpState(formData, status, pendingTimers)
    }

    constructor ()
      ensures State() == Initial
    {
      formData := InitialForm;
      status := Idle;
      pendingTimers := 0;
    }

    /** `handleChange`: the input named `field` now holds `value`. */
    method HandleChange(field: Field, value: string)
      modifies this
      ensures State() == Step(old(State()), Change(field, value))
    {
      formData := WithField(formData, field, value);
    }

    /**
     * `handleSubmit`: mark the response as sending and schedule its
     * completion. The form only submits while its button is enabled.
     */
    method HandleSubmit()
      requires !SubmitDisabled(status)
      modifies this
      ensures State() == Step(old(State()), Submit)
    {
      status := Sending;
      pendingTimers := pendingTimers + 1;
    }

    /** A scheduled completion runs. */
    method SubmitTimeout()
      requires pendingTimers > 0
      modifies this
      ensures State() == Step(old(State()), RsvpEvent.SubmitTimeout)
    {
      status := Done;
      pendingTimers := pendingTimers - 1;
    }
  }
}
