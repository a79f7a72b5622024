/** The status shown in the app's header, derived from the event log: the
    most recent event of a recognised type decides it. */
module Header {

  import opened EventStore

  datatype Option<T> = None | Some(value: T)

  const STATUSES: set<string> := {"Idle", "Thinking", "Executing", "Error"}

  /** The event types that decide the status; every other type is skipped. */
  predicate IsRecognised(kind: string) {
    kind in {"request_failed", "tool_call_failed", "tool_call_started", "planning_started", "request_completed"}
  }

  /** The status a recognised event stands for. */
  function StatusFor(kind: string): (s: string)
    requires IsRecognised(kind)
    ensures s in STATUSES
  {
    if kind == "request_failed" || kind == "tool_call_failed" then "Error"
    else if kind == "tool_call_started" then "Executing"
    else if kind == "planning_started" then "Thinking"
    else "Idle"
  }

  /** `k` holds a recognised event and nothing after it is recognised. */
  predicate IsLastRecognised(events: seq<AgentEvent>, k: nat) {
    k < |events| && IsRecognised(events[k].kind)
    && forall j :: k < j < |events| ==> !IsRecognised(events[j].kind)
  }

  /** The index of the last recognised event, if there is one. */
  function LastRecognised(events: seq<AgentEvent>): (r: Option<nat>)
    ensures r.Some? ==> IsLastRecognised(events, r.value)
    ensures r.None? ==> forall j :: 0 <= j < |events| ==> !IsRecognised(events[j].kind)
  {
    if events == [] then None
    else if IsRecognised(events[|events| - 1].kind) then Some(|events| - 1)
    else LastRecognised(events[..|events| - 1])
  }

  /** The status the header shows for a log. */
  function AgentStatus(events: seq<AgentEvent>): (s: string)
    ensures s in STATUSES
    ensures events == [] ==> s == "Idle"
  {
    match LastRecognised(events)
    case None => "Idle"
    case Some(k) => StatusFor(events[k].kind)
  }

  /** There is at most one last recognised event. */
  lemma LastRecognisedUnique(events: seq<AgentEvent>, k: nat, m: nat)
    requires IsLastRecognised(events, k) && IsLastRecognised(events, m)
    ensures k == m
  {
  }

  /** getAgentStatus: scan from the newest event back to the oldest and stop at
      the first recognised one. */
  method GetAgentStatus(events: seq<AgentEvent>) returns (status: string)
    ensures status in STATUSES
    ensures status == AgentStatus(events)
  {
    var i := |events| - 1;
    while i >= 0
      invariant -1 <= i < |events|
      invariant forall j :: i < j < |events| ==> !IsRecognised(events[j].kind)
    {
      var e := events[i];
      if e.kind == "request_failed" || e.kind == "tool_call_failed" {
        LastRecognisedDecides(events, i);
        return "Error";
      }
      if e.kind == "tool_call_started" {
        LastRecognisedDecides(events, i);
        return "Executing";
      }
      if e.kind == "planning_started" {
        LastRecognisedDecides(events, i);
        return "Thinking";
      }
      if e.kind == "request_completed" {
        LastRecognisedDecides(events, i);
        return "Idle";
      }
      i := i - 1;
    }
    return "Idle";
  }

  /** The status is the one of the last recognised event. */
  lemma LastRecognisedDecides(events: seq<AgentEvent>, k: nat)
    requires IsLastRecognised(events, k)
    ensures AgentStatus(events) == StatusFor(events[k].kind)
  {
    var r := LastRecognised(events);
    LastRecognisedUnique(events, k, r.value);
  }

  /** Appending an event of an unrecognised type leaves the status as it was. */
  lemma UnrecognisedAppendKeepsStatus(events: seq<AgentEvent>, e: AgentEvent)
    requires !IsRecognised(e.kind)
    ensures AgentStatus(events + [e]) == AgentStatus(events)
  {
    assert (events + [e])[..|events|] == events;
  }

  /** Appending a recognised event sets the status to the one it stands for. */
  lemma RecognisedAppendSetsStatus(events: seq<AgentEvent>, e: AgentEvent)
    requires IsRecognised(e.kind)
    ensures AgentStatus(events + [e]) == StatusFor(e.kind)
  {
  }

  /** The header shows "Idle" exactly when no event is recognised or the last
      recognised one completed the request. */
  lemma IdleExactly(events: seq<AgentEvent>)
    ensures AgentStatus(events) == "Idle" <==>
      (forall j :: 0 <= j < |events| ==> !IsRecognised(events[j].kind))
      || (exists k: nat :: IsLastRecognised(events, k) && events[k].kind == "request_completed")
  {
    if k :| IsLastRecognised(events, k) {
      LastRecognisedDecides(events, k);
    }
  }

  /** The status after the reducer handles an action: RESET shows "Idle", and
      adding an unrecognised event shows what was shown before. */
  lemma StatusAfterReducer(state: EventState, action: Action)
    ensures action.Reset? ==> AgentStatus(EventReducer(state, action).events) == "Idle"
    ensures action.AddEvent? && !IsRecognised(action.event.kind) ==>
      AgentStatus(EventReducer(state, action).events) == AgentStatus(state.events)
  {
    if action.AddEvent? && !IsRecognised(action.event.kind) {
      UnrecognisedAppendKeepsStatus(state.events, action.event);
    }
  }
}
