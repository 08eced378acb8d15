/**
 The contact section: its reveal latch and the mocked form submission.

 Submitting sets `isSubmitting`; after a simulated latency of 1500 ms the
 status becomes `success`, `isSubmitting` drops and the four fields are
 cleared, and a display timer is started that sets the status back to
 `idle` 3000 ms later. The two delays are the explicit events
 `LatencyElapsed` and `DisplayElapsed`. The submit button is disabled only
 while `isSubmitting`, so a new submission may start while "Sent!" is still
 shown, and the display timer of the earlier submission then resets the
 status in the middle of the new one.
 */
module ContactForm {
  import Latch

  datatype Status = Idle | Success | Error

  datatype Field = Name | Email | Subject | Message

  datatype FormData = FormData(name: string, email: string, subject: string, message: string)

  /** The component's state. `displayTimers` counts the started display
      timers that have not fired yet; the latency timer is pending exactly
      while `isSubmitting` holds. */
  datatype Contact = Contact(
    visible: bool,
    form: FormData,
    isSubmitting: bool,
    status: Status,
    displayTimers: nat)

  datatype Event =
    | Submit
    | LatencyElapsed
    | DisplayElapsed
    | Change(field: Field, value: string)
    | Intersect(entries: seq<bool>)

  /** Simulated network latency, in ms. */
  const LatencyMs: nat := 1500

  /** How long the success status is displayed, in ms. */
  const DisplayMs: nat := 3000

  const EmptyForm: FormData := FormData("", "", "", "")

  function Init(): (s: Contact)
    ensures !s.visible && !s.isSubmitting && s.status == Idle
    ensures forall f :: Get(s.form, f) == ""
    ensures s.displayTimers == 0
  {
    Contact(false, EmptyForm, false, Idle, 0)
  }

  function Get(form: FormData, f: Field): string {
    match f
    case Name => form.name
    case Email => form.email
    case Subject => form.subject
    case Message => form.message
  }

  /** The change handler's update: one field replaced, the rest copied. */
  function Set(form: FormData, f: Field, value: string): (r: FormData)
    ensures Get(r, f) == value
    ensures forall g :: g != f ==> Get(r, g) == Get(form, g)
  {
    match f
    case Name => form.(name := value)
    case Email => form.(email := value)
    case Subject => form.(subject := value)
    case Message => form.(message := value)
  }

  /** Every field is marked `required`, so the browser only lets the form
      submit when none of them is empty. */
  predicate AllFilled(form: FormData) {
    forall f :: Get(form, f) != ""
  }

  /** The button is enabled and the browser's required-field check passes. */
  predicate SubmitEnabled(s: Contact) {
    !s.isSubmitting && AllFilled(s.form)
  }

  function HandleSubmit(s: Contact): (r: Contact)
    ensures SubmitEnabled(s) ==> r.isSubmitting
    ensures !SubmitEnabled(s) ==> r == s
    ensures r.status == s.status && r.form == s.form
    ensures r.visible == s.visible && r.displayTimers == s.displayTimers
  {
    if SubmitEnabled(s) then s.(isSubmitting := true) else s
  }

  /** The simulated latency ends: the submission succeeds, the fields are
      cleared, and a display timer starts. Without a submission in flight
      there is no such timer, and nothing happens. */
  function HandleLatencyElapsed(s: Contact): (r: Contact)
    ensures s.isSubmitting ==>
              && r.status == Success && !r.isSubmitting
              && (forall f :: Get(r.form, f) == "")
              && r.displayTimers == s.displayTimers + 1
              && r.visible == s.visible
    ensures !s.isSubmitting ==> r == s
  {
    if s.isSubmitting then
      s.(status := Success, isSubmitting := false, form := EmptyForm, displayTimers := s.displayTimers + 1)
    else s
  }

  /** The oldest display timer fires: the status becomes `Idle` whatever it
      was, and whether or not a new submission is in flight. */
  function HandleDisplayElapsed(s: Contact): (r: Contact)
    ensures s.displayTimers > 0 ==>
              && r.status == Idle
              && r.displayTimers == s.displayTimers - 1
              && r.isSubmitting == s.isSubmitting && r.form == s.form && r.visible == s.visible
    ensures s.displayTimers == 0 ==> r == s
  {
    if s.displayTimers > 0 then s.(status := Idle, displayTimers := s.displayTimers - 1) else s
  }

  function HandleChange(s: Contact, f: Field, value: string): (r: Contact)
    ensures Get(r.form, f) == value
    ensures forall g :: g != f ==> Get(r.form, g) == Get(s.form, g)
    ensures r.isSubmitting == s.isSubmitting && r.status == s.status
    ensures r.visible == s.visible && r.displayTimers == s.displayTimers
  {
    s.(form := Set(s.form, f, value))
  }

  function HandleIntersect(s: Contact, entries: seq<bool>): (r: Contact)
    ensures r.visible <==> s.visible || Latch.AnyIntersecting(entries)
    ensures r.(visible := s.visible) == s
  {
    s.(visible := Latch.Observe(s.visible, entries))
  }

  /** The user types all four fields, one change event each. */
  function FillIn(s: Contact, form: FormData): (r: Contact)
    ensures r.form == form
    ensures r.isSubmitting == s.isSubmitting && r.status == s.status
    ensures r.visible == s.visible && r.displayTimers == s.displayTimers
  {
    var s1 := HandleChange(s, Name, form.name);
    var s2 := HandleChange(s1, Email, form.email);
    var s3 := HandleChange(s2, Subject, form.subject);
    HandleChange(s3, Message, form.message)
  }

  function Step(s: Contact, e: Event): Contact {
    match e
    case Submit => HandleSubmit(s)
    case LatencyElapsed => HandleLatencyElapsed(s)
    case DisplayElapsed => HandleDisplayElapsed(s)
    case Change(f, v) => HandleChange(s, f, v)
    case Intersect(entries) => HandleIntersect(s, entries)
  }

  function Run(s: Contact, events: seq<Event>): Contact
    decreases |events|
  {
    if |events| == 0 then s else Run(Step(s, events[0]), events[1..])
  }

  /** The text on the submit button. */
  function ButtonLabel(s: Contact): (r: string)
    ensures r == "Sending..." <==> s.isSubmitting
    ensures r == "Sent!" <==> !s.isSubmitting && s.status == Success
    ensures r == "Send Message" <==> !s.isSubmitting && s.status != Success
  {
    if s.isSubmitting then "Sending..."
    else if s.status == Success then "Sent!"
    else "Send Message"
  }

  /** The button's `disabled` attribute. */
  predicate ButtonDisabled(s: Contact) {
    s.isSubmitting
  }

  /** What holds in every reachable state: no `Error` status, and a `Success`
      status always has a display timer pending that will clear it. */
  ghost predicate Inv(s: Contact) {
    && s.status != Error
    && (s.status == Success ==> s.displayTimers > 0)
  }

  lemma StepPreservesInv(s: Contact, e: Event)
    requires Inv(s)
    ensures Inv(Step(s, e))
  {
  }

  /** No sequence of events from the initial state ever reaches `Error`. */
  lemma {:induction false} NeverError(s: Contact, events: seq<Event>)
    requires Inv(s)
    ensures Inv(Run(s, events))
    ensures Run(s, events).status != Error
    decreases |events|
  {
    if |events| > 0 {
      StepPreservesInv(s, events[0]);
      NeverError(Step(s, events[0]), events[1..]);
    }
  }

  /** From the initial state, whatever the events, the status is never `Error`. */
  lemma ReachableNeverError(events: seq<Event>)
    ensures Run(Init(), events).status != Error
  {
    NeverError(Init(), events);
  }

  /** A disabled button makes a submit a no-op, and an enabled submit disables it. */
  lemma DisabledButtonBlocksSubmit(s: Contact)
    ensures ButtonDisabled(s) ==> HandleSubmit(s) == s
    ensures SubmitEnabled(s) ==> ButtonDisabled(HandleSubmit(s))
  {
  }

  /** A submit changes the state exactly when the button is enabled and no
      required field is empty. */
  lemma SubmitGuard(s: Contact)
    ensures HandleSubmit(s) != s <==> !ButtonDisabled(s) && forall f :: Get(s.form, f) != ""
  {
  }

  /** The reveal latch never goes back to false, whatever events follow. */
  lemma {:induction false} VisibleStaysVisible(s: Contact, events: seq<Event>)
    requires s.visible
    ensures Run(s, events).visible
    decreases |events|
  {
    if |events| > 0 {
      NeverHidden(s, events[0]);
      VisibleStaysVisible(Step(s, events[0]), events[1..]);
    }
  }

  lemma NeverHidden(s: Contact, e: Event)
    requires s.visible
    ensures Step(s, e).visible
  {
  }

  /** While a submission is in flight no event except the latency timer
      ends it, and edits made meanwhile are discarded when it completes. */
  lemma EditsDuringSubmissionDiscarded(s: Contact, f: Field, value: string)
    requires s.isSubmitting
    ensures HandleChange(s, f, value).isSubmitting
    ensures HandleLatencyElapsed(HandleChange(s, f, value)).form == EmptyForm
  {
  }

  /** The normal cycle: a filled-in form goes idle, submitting, success with
      the fields cleared, and back to idle. */
  lemma SubmissionCycle(s: Contact)
    requires Inv(s) && s.status == Idle && s.displayTimers == 0
    requires SubmitEnabled(s)
    ensures var s1 := HandleSubmit(s);
            var s2 := HandleLatencyElapsed(s1);
            var s3 := HandleDisplayElapsed(s2);
            && s1.isSubmitting && s1.status == Idle && ButtonLabel(s1) == "Sending..."
            && !s2.isSubmitting && s2.status == Success && s2.form == EmptyForm && ButtonLabel(s2) == "Sent!"
            && s3.status == Idle && s3.displayTimers == 0 && ButtonLabel(s3) == "Send Message"
  {
  }

  /** A second submission during the success window is accepted, and the
      first cycle's display timer then sets `Idle` while it is in flight; the
      second cycle's success is later cleared by its own timer. */
  lemma StaleDisplayTimerResetsMidFlight(filled: FormData)
    requires AllFilled(filled)
    ensures var s0 := FillIn(Init(), filled);
            var s1 := HandleLatencyElapsed(HandleSubmit(s0));
            var s2 := HandleSubmit(FillIn(s1, filled));
            var s3 := HandleDisplayElapsed(s2);
            && s1.status == Success
            && s2.isSubmitting && s2.status == Success
            && s3.isSubmitting && s3.status == Idle
            && HandleLatencyElapsed(s3).status == Success
            && HandleLatencyElapsed(s3).displayTimers == 1
  {
  }
}
