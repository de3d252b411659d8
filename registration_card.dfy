/** The registration-action part of a featured-session card of the registration widget:
    the status line, the action button's label and whether the button is shown, derived from
    the registration status the SDK reports for the card's session, and the click flow that
    runs the SDK's registration toggle and then re-derives the card. */
module RegistrationCard {
  import opened Common

  // Session statuses as the SDK reports them
  const StatusSelected := "SELECTED"
  const StatusWaitlisted := "WAITLISTED"
  const StatusOpen := "OPEN"
  const StatusWaitlistAvailable := "WAITLIST_AVAILABLE"
  const StatusIncluded := "INCLUDED"
  const StatusBundled := "BUNDLED"
  const StatusWaitlistUnavailable := "WAITLIST_UNAVAILABLE"
  const StatusClosed := "CLOSED"
  const StatusNotAvailable := "NOT_AVAILABLE"
  const StatusSessionDne := "SESSION_DNE"
  const StatusRegistrationDne := "REGISTRATION_DNE"

  // Sub-statuses refining INCLUDED and WAITLIST_UNAVAILABLE
  const SubIncludedByAdmissionItem := "INCLUDED_BY_ADMISSION_ITEM"
  const SubIncludedBySession := "INCLUDED_BY_SESSION"
  const SubNoWaitlist := "NO_WAITLIST"
  const SubWaitlistFull := "WAITLIST_FULL"

  /** Why the SDK says an action failed; the card does not look at it. */
  datatype FailureReason =
    | CapacityError
    | AvailabilityError
    | UnknownError
    | NotActionable
    | RegActionInProgress

  /** The answer of `getSessionStatus`. The status is compared as a string, so any value
      the SDK may send is representable; an absent sub-status is `None`. */
  datatype StatusReport = StatusReport(status: string, subStatus: Option<string>)

  /** The answer of `pickSession`. */
  datatype ActionOutcome = ActionOutcome(success: bool, failureReason: Option<FailureReason>)

  // Texts and labels the card displays
  const OpenText := "This session is available."
  const WaitlistedText := "You are on the waitlist for this session."
  const SelectedText := "You are registered for this session."
  const WaitlistAvailableText := "This session is full, but you may join the waitlist."
  const IncludedBySessionText := "This session is included automatically."
  const IncludedByAdmissionItemText := "This session is included with your admission item selection."
  const BundledText := "This session is included as part of your bundle selection"
  const NoWaitlistText := "This session is full"
  const WaitlistFullText := "The waitlist for this session is full"
  const ClosedText := "This session is not open for registration"
  const NotAvailableText := "This session is not available for your chosen registration type and/or admission item"
  const ProcessingText := "processing..."
  const FailureText := "The registration action failed, please refresh and try again"

  const RegisterLabel := "Register"
  const LeaveWaitlistLabel := "Leave Waitlist"
  const RemoveLabel := "Remove"
  const JoinWaitlistLabel := "Join the Waitlist"

  /** The card's observable state: the status element's text (a DOM element's
      `textContent`: assigning `null` to it leaves ""), the button's text, and the flag that
      decides whether the button is appended. */
  datatype CardState = CardState(statusText: string, buttonLabel: string, showButton: bool)

  /** Fresh elements and the flag as initialised before the first derivation. */
  const InitialState := CardState("", "", false)

  /** The four statuses for which the card offers an action. */
  predicate IsActionable(status: string) {
    status in {StatusOpen, StatusWaitlisted, StatusSelected, StatusWaitlistAvailable}
  }

  /** The five statuses that have a text but no action. */
  predicate IsInformational(status: string) {
    status in {StatusIncluded, StatusBundled, StatusWaitlistUnavailable, StatusClosed, StatusNotAvailable}
  }

  /** The labels an action button can carry. */
  predicate IsActionLabel(text: string) {
    text in {RegisterLabel, LeaveWaitlistLabel, RemoveLabel, JoinWaitlistLabel}
  }

  /** One run of the status derivation on a card whose state was `st`. */
  function Derive(st: CardState, r: StatusReport): (next: CardState)
    // the actionable statuses set the whole state, whatever it was
    ensures r.status == StatusOpen ==> next == CardState(OpenText, RegisterLabel, true)
    ensures r.status == StatusWaitlisted ==> next == CardState(WaitlistedText, LeaveWaitlistLabel, true)
    ensures r.status == StatusSelected ==> next == CardState(SelectedText, RemoveLabel, true)
    ensures r.status == StatusWaitlistAvailable ==> next == CardState(WaitlistAvailableText, JoinWaitlistLabel, true)
    // every other status touches neither the label nor the flag
    ensures !IsActionable(r.status) ==> next.buttonLabel == st.buttonLabel && next.showButton == st.showButton
    // the flag is only ever switched on
    ensures next.showButton <==> st.showButton || IsActionable(r.status)
    // the informational texts
    ensures r.status == StatusIncluded && r.subStatus == Some(SubIncludedBySession) ==> next.statusText == IncludedBySessionText
    ensures r.status == StatusIncluded && r.subStatus == Some(SubIncludedByAdmissionItem) ==> next.statusText == IncludedByAdmissionItemText
    ensures r.status == StatusBundled ==> next.statusText == BundledText
    ensures r.status == StatusWaitlistUnavailable && r.subStatus == Some(SubNoWaitlist) ==> next.statusText == NoWaitlistText
    ensures r.status == StatusWaitlistUnavailable && r.subStatus == Some(SubWaitlistFull) ==> next.statusText == WaitlistFullText
    ensures r.status == StatusClosed ==> next.statusText == ClosedText
    ensures r.status == StatusNotAvailable ==> next.statusText == NotAvailableText
    // an unrecognised sub-status leaves the old text in place
    ensures r.status == StatusIncluded && r.subStatus !in {Some(SubIncludedBySession), Some(SubIncludedByAdmissionItem)}
            ==> next.statusText == st.statusText
    ensures r.status == StatusWaitlistUnavailable && r.subStatus !in {Some(SubNoWaitlist), Some(SubWaitlistFull)}
            ==> next.statusText == st.statusText
    // any other status, SESSION_DNE and REGISTRATION_DNE among them, clears the text
    ensures !IsActionable(r.status) && !IsInformational(r.status) ==> next.statusText == ""
  {
    var status := r.status;
    var sub := r.subStatus;
    if status == StatusOpen then CardState(OpenText, RegisterLabel, true)
    else if status == StatusWaitlisted then CardState(WaitlistedText, LeaveWaitlistLabel, true)
    else if status == StatusSelected then CardState(SelectedText, RemoveLabel, true)
    else if status == StatusWaitlistAvailable then CardState(WaitlistAvailableText, JoinWaitlistLabel, true)
    else if status == StatusIncluded then
      if sub == Some(SubIncludedBySession) then st.(statusText := IncludedBySessionText)
      else if sub == Some(SubIncludedByAdmissionItem) then st.(statusText := IncludedByAdmissionItemText)
      else st
    else if status == StatusBundled then st.(statusText := BundledText)
    else if status == StatusWaitlistUnavailable then
      if sub == Some(SubNoWaitlist) then st.(statusText := NoWaitlistText)
      else if sub == Some(SubWaitlistFull) then st.(statusText := WaitlistFullText)
      else st
    else if status == StatusClosed then st.(statusText := ClosedText)
    else if status == StatusNotAvailable then st.(statusText := NotAvailableText)
    else st.(statusText := "")
  }

  /** A click on the button: the text becomes the processing message, the SDK's toggle
      runs, and then either the state is derived again from the status queried afterwards
      or the text becomes the retry message. */
  function AfterClick(st: CardState, outcome: ActionOutcome, after: StatusReport): (next: CardState)
    ensures !outcome.success ==> next == CardState(FailureText, st.buttonLabel, st.showButton)
    ensures outcome.success ==> next == Derive(CardState(ProcessingText, st.buttonLabel, st.showButton), after)
    ensures st.showButton ==> next.showButton
  {
    var pending := st.(statusText := ProcessingText);
    if outcome.success then Derive(pending, after) else pending.(statusText := FailureText)
  }

  /** A successful action after which the SDK reports INCLUDED or WAITLIST_UNAVAILABLE with
      an unrecognised sub-status leaves the processing message on the card. */
  lemma StaleProcessingText(st: CardState, outcome: ActionOutcome, after: StatusReport)
    requires outcome.success
    requires after.status in {StatusIncluded, StatusWaitlistUnavailable}
    requires after.subStatus.None?
    ensures AfterClick(st, outcome, after).statusText == ProcessingText
  {
  }

  /** Deriving twice from the same report gives what deriving once gives. */
  lemma DeriveIdempotent(st: CardState, r: StatusReport)
    ensures Derive(Derive(st, r), r) == Derive(st, r)
  {
  }

  // ---------------------------------------------------------------------------
  // The card over its lifetime

  /** What can happen to a card after its first derivation: the source re-derives only
      inside the click handler, so every later change is a click, with the SDK's outcome
      and the status queried after it. */
  datatype Event = Click(outcome: ActionOutcome, after: StatusReport)

  function Step(st: CardState, e: Event): CardState {
    AfterClick(st, e.outcome, e.after)
  }

  function Run(st: CardState, events: seq<Event>): CardState
    decreases |events|
  {
    if events == [] then st else Run(Step(st, events[0]), events[1..])
  }

  /** The event derives the card from an actionable status. */
  predicate DerivesActionable(e: Event) {
    e.outcome.success && IsActionable(e.after.status)
  }

  /** The flag is set after a run of clicks exactly when it was set before or some click
      re-derived the card from an actionable status: the flag is never reset. */
  lemma {:induction false} ShowFlagHistory(st: CardState, events: seq<Event>)
    ensures Run(st, events).showButton <==>
            st.showButton || exists i :: 0 <= i < |events| && DerivesActionable(events[i])
    decreases |events|
  {
    if events != [] {
      var e := events[0];
      var rest := events[1..];
      ShowFlagHistory(Step(st, e), rest);
      assert Step(st, e).showButton <==> st.showButton || DerivesActionable(e);
      if exists i :: 0 <= i < |rest| && DerivesActionable(rest[i]) {
        var i :| 0 <= i < |rest| && DerivesActionable(rest[i]);
        assert events[i + 1] == rest[i];
      }
      if exists i :: 0 <= i < |events| && DerivesActionable(events[i]) {
        var i :| 0 <= i < |events| && DerivesActionable(events[i]);
        if i > 0 {
          assert rest[i - 1] == events[i];
        }
      }
    }
  }

  /** A shown button carries one of the four action labels; a hidden one carries none. */
  predicate ButtonConsistent(st: CardState) {
    if st.showButton then IsActionLabel(st.buttonLabel) else st.buttonLabel == ""
  }

  /** Starting from fresh elements, every run keeps the button consistent. */
  lemma {:induction false} RunKeepsButtonConsistent(st: CardState, events: seq<Event>)
    requires ButtonConsistent(st)
    ensures ButtonConsistent(Run(st, events))
    decreases |events|
  {
    if events != [] {
      assert ButtonConsistent(Step(st, events[0]));
      RunKeepsButtonConsistent(Step(st, events[0]), events[1..]);
    }
  }

  // ---------------------------------------------------------------------------
  // The imperative card

  /** The children of the registration-action container. */
  datatype RegChild = StatusTextElement | ActionButtonElement

  /** The status text is always appended; the button only when the flag is set. */
  function RegActionChildren(showButton: bool): (children: seq<RegChild>)
    ensures |children| >= 1 && children[0] == StatusTextElement
    ensures ActionButtonElement in children <==> showButton
  {
    [StatusTextElement] + if showButton then [ActionButtonElement] else []
  }

  /** The first derivation shows the button exactly for the four actionable statuses. */
  lemma FirstDerivationShowsButton(r: StatusReport)
    ensures Derive(InitialState, r).showButton <==> IsActionable(r.status)
    ensures ButtonConsistent(Derive(InitialState, r))
  {
  }

  class RegActionCard {
    const sessionId: SessionId
    var statusText: string
    var buttonLabel: string
    var showButton: bool

    function State(): CardState
      reads this
    {
      CardState(statusText, buttonLabel, showButton)
    }

    constructor (sessionId: SessionId)
      ensures this.sessionId == sessionId
      ensures State() == InitialState
    {
      this.sessionId := sessionId;
      statusText := "";
      buttonLabel := "";
      showButton := false;
    }

    /** `setRegActionAndStatus`, given what `getSessionStatus` answers for this session. */
    method SetRegActionAndStatus(report: StatusReport)
      modifies this`statusText, this`buttonLabel, this`showButton
      ensures State() == Derive(old(State()), report)
      ensures old(showButton) ==> showButton
    {
      var status := report.status;
      var subStatus := report.subStatus;
      if status == StatusOpen {
        showButton := true;
        statusText := OpenText;
        buttonLabel := RegisterLabel;
      } else if status == StatusWaitlisted {
        showButton := true;
        statusText := WaitlistedText;
        buttonLabel := LeaveWaitlistLabel;
      } else if status == StatusSelected {
        showButton := true;
        statusText := SelectedText;
        buttonLabel := RemoveLabel;
      } else if status == StatusWaitlistAvailable {
        showButton := true;
        statusText := WaitlistAvailableText;
        buttonLabel := JoinWaitlistLabel;
      } else if status == StatusIncluded {
        if subStatus == Some(SubIncludedBySession) {
          statusText := IncludedBySessionText;
        }
        if subStatus == Some(SubIncludedByAdmissionItem) {
          statusText := IncludedByAdmissionItemText;
        }
      } else if status == StatusBundled {
        statusText := BundledText;
      } else if status == StatusWaitlistUnavailable {
        if subStatus == Some(SubNoWaitlist) {
          statusText := NoWaitlistText;
        }
        if subStatus == Some(SubWaitlistFull) {
          statusText := WaitlistFullText;
        }
      } else if status == StatusClosed {
        statusText := ClosedText;
      } else if status == StatusNotAvailable {
        statusText := NotAvailableText;
      } else {
        statusText := "";
      }
    }

    /** The button's click handler. `outcome` is what `pickSession` answers for this
        session and `after` what `getSessionStatus` answers once it has; only the success
        flag of the outcome is looked at. */
    method OnClick(outcome: ActionOutcome, after: StatusReport)
      modifies this`statusText, this`buttonLabel, this`showButton
      ensures State() == AfterClick(old(State()), outcome, after)
    {
      statusText := ProcessingText;
      assert State() == old(State()).(statusText := ProcessingText);
      // the SDK's registration toggle runs while the processing message is shown
      if outcome.success {
        SetRegActionAndStatus(after);
      } else {
        statusText := FailureText;
      }
    }
  }

  /** `buildRegActionElement`: a fresh card, its first derivation from `report`, and the
      container's children. */
  method BuildRegActionElement(sessionId: SessionId, report: StatusReport)
    returns (card: RegActionCard, children: seq<RegChild>)
    ensures fresh(card) && card.sessionId == sessionId
    ensures card.State() == Derive(InitialState, report)
    ensures children == RegActionChildren(card.showButton)
  {
    card := new RegActionCard(sessionId);
    card.SetRegActionAndStatus(report);
    children := [StatusTextElement];
    if card.showButton {
      children := children + [ActionButtonElement];
    }
  }
}
