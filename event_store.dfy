/** The debug view's event log: a reducer over an append-only list of the
    agent's lifecycle events. */
module EventStore {

  /** A lifecycle event as the agent emits it; `kind` is its `type` field. The
      event-specific payload is not modelled. */
  datatype AgentEvent = AgentEvent(kind: string, requestId: string, timestamp: int)

  datatype EventState = EventState(events: seq<AgentEvent>)

  /** `ADD_EVENT`, `RESET`, or an action whose type is neither, which the
      reducer's default branch receives. */
  datatype Action = AddEvent(event: AgentEvent) | Reset | OtherAction

  const InitialEventState: EventState := EventState([])

  /** eventReducer: returns a new state and never changes the one given. */
  function EventReducer(state: EventState, action: Action): (r: EventState)
    // ADD_EVENT keeps every earlier event, in order, and puts the new one last.
    ensures action.AddEvent? ==>
      |r.events| == |state.events| + 1
      && r.events[..|state.events|] == state.events
      && r.events[|state.events|] == action.event
    // RESET empties the log, whatever it held.
    ensures action.Reset? ==> r == InitialEventState && r.events == []
    ensures action.OtherAction? ==> r == state
  {
    match action
    case AddEvent(event) => state.(events := state.events + [event])
    case Reset => InitialEventState
    case OtherAction => state
  }

  /** RESET twice is RESET once. */
  lemma ResetIdempotent(state: EventState)
    ensures EventReducer(EventReducer(state, Reset), Reset) == EventReducer(state, Reset)
  {
  }

  /** Dispatching a list of actions in order. */
  function ReduceAll(state: EventState, actions: seq<Action>): EventState
    decreases |actions|
  {
    if actions == [] then state
    else EventReducer(ReduceAll(state, actions[..|actions| - 1]), actions[|actions| - 1])
  }

  function AddAll(events: seq<AgentEvent>): (actions: seq<Action>)
    ensures |actions| == |events|
    ensures forall i :: 0 <= i < |events| ==> actions[i] == AddEvent(events[i])
  {
    seq(|events|, i requires 0 <= i < |events| => AddEvent(events[i]))
  }

  /** Adding events one by one to the initial state yields exactly those events. */
  lemma {:induction false} ReplayAdds(events: seq<AgentEvent>)
    ensures ReduceAll(InitialEventState, AddAll(events)) == EventState(events)
    decreases |events|
  {
    if events != [] {
      var n := |events| - 1;
      assert AddAll(events)[..n] == AddAll(events[..n]);
      ReplayAdds(events[..n]);
      assert events[..n] + [events[n]] == events;
    }
  }

  /** After a RESET, only what was dispatched since counts. */
  lemma {:induction false} ResetForgets(state: EventState, before: seq<Action>, after: seq<Action>)
    ensures ReduceAll(state, before + [Reset] + after) == ReduceAll(InitialEventState, after)
    decreases |after|
  {
    if after == [] {
      assert before + [Reset] + after == before + [Reset];
      assert (before + [Reset])[..|before|] == before;
    } else {
      var n := |after| - 1;
      var all := before + [Reset] + after;
      assert all[..|all| - 1] == before + [Reset] + after[..n];
      assert all[|all| - 1] == after[n];
      ResetForgets(state, before, after[..n]);
    }
  }
}
