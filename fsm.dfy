/**
 * The flat finite state machine (pkg/statemachine/fsm.go) and the pieces it
 * shares with the hierarchical one: states and events, the transition table,
 * and the order in which a transition runs its callbacks.
 *
 * Callbacks are user closures. Here a callback is an opaque id, and what the
 * closures answer when called is supplied by the caller as a Callbacks value:
 * whether a guard allows a move and whether an action or a transition
 * callback returns an error. The context argument is not modelled.
 */
module StateMachine {
  import opened Wrappers

  type State = string
  type Event = string
  type CallbackId = nat

  /** A table entry: its guard and transition callback, if set. */
  datatype Transition = Transition(from: State, to: State, event: Event, guard: Option<CallbackId>, onTransition: Option<CallbackId>)

  /** transitionKey. */
  datatype Key = Key(from: State, event: Event)

  /** A callback the machine ran, in the order it ran them. */
  datatype Call =
    | Exit(exitId: CallbackId, exited: State)
    | OnTransition(transitionId: CallbackId, moveFrom: State, moveTo: State)
    | Enter(enterId: CallbackId, entered: State)

  datatype SmError =
    | InvalidTransition
    | TransitionDenied
    | DuplicateTransition
    | EventNotFound
    /** A callback returned an error, which Trigger passes on. */
    | CallbackError(failed: Call)

  /** The answers of the user's closures. */
  datatype Callbacks = Callbacks(
    allows: (CallbackId, State, State) -> bool,
    actionFails: (CallbackId, State) -> bool,
    transitionFails: (CallbackId, State, State) -> bool)

  /** Whether calling c returns an error. */
  predicate Fails(c: Call, cb: Callbacks)
  {
    match c
    case Exit(id, s) => cb.actionFails(id, s)
    case OnTransition(id, f, t) => cb.transitionFails(id, f, t)
    case Enter(id, s) => cb.actionFails(id, s)
  }

  /** The call of the action registered for state s. */
  function ActionCall(enter: bool, id: CallbackId, s: State): Call
  {
    if enter then Enter(id, s) else Exit(id, s)
  }

  /** Running the actions of `states` in order until one fails: the calls made, and the one that failed. */
  function RunActions(states: seq<State>, actions: map<State, CallbackId>, enter: bool, cb: Callbacks): (r: (seq<Call>, Option<Call>))
  {
    if |states| == 0 then ([], None)
    else if states[0] in actions && Fails(ActionCall(enter, actions[states[0]], states[0]), cb) then
      ([ActionCall(enter, actions[states[0]], states[0])], Some(ActionCall(enter, actions[states[0]], states[0])))
    else
      var rest := RunActions(states[1..], actions, enter, cb);
      ((if states[0] in actions then [ActionCall(enter, actions[states[0]], states[0])] else []) + rest.0, rest.1)
  }

  /** RunActions reports a failure exactly when some state in the list has an action that fails;
      the failed call is then the last call made, and every earlier call succeeded. */
  lemma {:induction false} RunActionsFailure(states: seq<State>, actions: map<State, CallbackId>, enter: bool, cb: Callbacks)
    ensures var r := RunActions(states, actions, enter, cb);
            r.1.Some? <==> exists i :: 0 <= i < |states| && states[i] in actions
                                       && Fails(ActionCall(enter, actions[states[i]], states[i]), cb)
    ensures var r := RunActions(states, actions, enter, cb);
            r.1.Some? ==> |r.0| > 0 && r.0[|r.0| - 1] == r.1.value && Fails(r.1.value, cb)
    ensures var r := RunActions(states, actions, enter, cb);
            forall k :: 0 <= k < |r.0| - 1 ==> !Fails(r.0[k], cb)
    ensures var r := RunActions(states, actions, enter, cb);
            r.1.None? ==> forall k :: 0 <= k < |r.0| ==> !Fails(r.0[k], cb)
  {
    if |states| > 0 {
      RunActionsFailure(states[1..], actions, enter, cb);
      var r := RunActions(states[1..], actions, enter, cb);
      if !(states[0] in actions && Fails(ActionCall(enter, actions[states[0]], states[0]), cb)) {
        if r.1.Some? {
          var i :| 0 <= i < |states[1..]| && states[1..][i] in actions
                   && Fails(ActionCall(enter, actions[states[1..][i]], states[1..][i]), cb);
          assert states[i + 1] == states[1..][i];
        } else {
          forall i | 0 <= i < |states| && states[i] in actions
            ensures !Fails(ActionCall(enter, actions[states[i]], states[i]), cb)
          {
            if i > 0 {
              assert states[i] == states[1..][i - 1];
            }
          }
        }
      }
    }
  }

  /** c is the registered action of one of the states. */
  ghost predicate Registered(c: Call, states: seq<State>, actions: map<State, CallbackId>, enter: bool)
  {
    exists i :: 0 <= i < |states| && states[i] in actions && c == ActionCall(enter, actions[states[i]], states[i])
  }

  /** Every call RunActions makes is the registered action of a listed state. */
  lemma {:induction false} RunActionsCallsRegistered(states: seq<State>, actions: map<State, CallbackId>, enter: bool, cb: Callbacks)
    ensures forall k :: 0 <= k < |RunActions(states, actions, enter, cb).0| ==>
              Registered(RunActions(states, actions, enter, cb).0[k], states, actions, enter)
  {
    if |states| > 0 {
      RunActionsCallsRegistered(states[1..], actions, enter, cb);
      var r := RunActions(states, actions, enter, cb);
      var rest := RunActions(states[1..], actions, enter, cb);
      forall k | 0 <= k < |r.0|
        ensures Registered(r.0[k], states, actions, enter)
      {
        if states[0] in actions && (k == 0 || Fails(ActionCall(enter, actions[states[0]], states[0]), cb)) {
          assert r.0[k] == ActionCall(enter, actions[states[0]], states[0]);
        } else {
          var head := if states[0] in actions then [ActionCall(enter, actions[states[0]], states[0])] else [];
          assert r.0 == head + rest.0;
          var j := k - |head|;
          assert 0 <= j < |rest.0| && r.0[k] == rest.0[j];
          assert Registered(rest.0[j], states[1..], actions, enter);
          var i :| 0 <= i < |states[1..]| && states[1..][i] in actions
                   && rest.0[j] == ActionCall(enter, actions[states[1..][i]], states[1..][i]);
          assert states[i + 1] == states[1..][i];
        }
      }
    }
  }

  /** What Trigger leaves behind: the current state, the error returned, the callbacks run. */
  datatype Outcome = Outcome(current: State, err: Option<SmError>, calls: seq<Call>)

  /** A transition that was found and allowed by its guard: exit actions along exitPath, then the
      transition callback, then the state changes to t.to, then the enter actions along
      enterPath; the first error stops the run and is returned. */
  function Perform(current: State, t: Transition, exitPath: seq<State>, enterPath: seq<State>,
                   onExit: map<State, CallbackId>, onEnter: map<State, CallbackId>, cb: Callbacks): Outcome
  {
    var ex := RunActions(exitPath, onExit, false, cb);
    if ex.1.Some? then Outcome(current, Some(CallbackError(ex.1.value)), ex.0)
    else
      var tc := if t.onTransition.Some? then [OnTransition(t.onTransition.value, current, t.to)] else [];
      if t.onTransition.Some? && cb.transitionFails(t.onTransition.value, current, t.to) then
        Outcome(current, Some(CallbackError(tc[0])), ex.0 + tc)
      else
        var en := RunActions(enterPath, onEnter, true, cb);
        Outcome(t.to, if en.1.Some? then Some(CallbackError(en.1.value)) else None, ex.0 + tc + en.0)
  }

  /** An exit or transition callback error stops Trigger before the state changes; once they all
      succeed the state is the target, even when an enter action then fails, and Trigger succeeds
      exactly when no callback on the way fails. */
  lemma PerformStateChange(current: State, t: Transition, exitPath: seq<State>, enterPath: seq<State>,
                           onExit: map<State, CallbackId>, onEnter: map<State, CallbackId>, cb: Callbacks)
    ensures var o := Perform(current, t, exitPath, enterPath, onExit, onEnter, cb);
            o.err.Some? && (o.err.value.failed.Exit? || o.err.value.failed.OnTransition?) ==> o.current == current
    ensures var o := Perform(current, t, exitPath, enterPath, onExit, onEnter, cb);
            o.err.None? || o.err.value.failed.Enter? ==> o.current == t.to
    ensures var o := Perform(current, t, exitPath, enterPath, onExit, onEnter, cb);
            o.err.Some? ==> o.err.value.CallbackError? && |o.calls| > 0 && o.calls[|o.calls| - 1] == o.err.value.failed
    ensures var o := Perform(current, t, exitPath, enterPath, onExit, onEnter, cb);
            o.err.None? <==>
              && (forall i :: 0 <= i < |exitPath| && exitPath[i] in onExit ==> !Fails(Exit(onExit[exitPath[i]], exitPath[i]), cb))
              && (t.onTransition.Some? ==> !cb.transitionFails(t.onTransition.value, current, t.to))
              && (forall i :: 0 <= i < |enterPath| && enterPath[i] in onEnter ==> !Fails(Enter(onEnter[enterPath[i]], enterPath[i]), cb))
  {
    RunActionsFailure(exitPath, onExit, false, cb);
    RunActionsFailure(enterPath, onEnter, true, cb);
    var ex := RunActions(exitPath, onExit, false, cb);
    if ex.1.Some? {
      RunActionsCallsRegistered(exitPath, onExit, false, cb);
      assert ex.0[|ex.0| - 1] == ex.1.value;
    }
    RunActionsCallsRegistered(enterPath, onEnter, true, cb);
  }

  /** The callbacks run on a successful transition: the exits, the transition callback, the enters. */
  lemma PerformSuccessTrace(current: State, t: Transition, exitPath: seq<State>, enterPath: seq<State>,
                            onExit: map<State, CallbackId>, onEnter: map<State, CallbackId>, cb: Callbacks)
    requires Perform(current, t, exitPath, enterPath, onExit, onEnter, cb).err.None?
    ensures Perform(current, t, exitPath, enterPath, onExit, onEnter, cb).calls
            == RunActions(exitPath, onExit, false, cb).0
               + (if t.onTransition.Some? then [OnTransition(t.onTransition.value, current, t.to)] else [])
               + RunActions(enterPath, onEnter, true, cb).0
    ensures RunActions(exitPath, onExit, false, cb).1.None? && RunActions(enterPath, onEnter, true, cb).1.None?
  {
  }

  /** The flat FSM. */
  class FSM {
    var current: State
    var initial: State
    var transitions: map<Key, Transition>
    var onEnter: map<State, CallbackId>
    var onExit: map<State, CallbackId>

    /** Every entry sits under its own (from, event) key. */
    ghost predicate Valid()
      reads this
    {
      forall k :: k in transitions ==> transitions[k].from == k.from && transitions[k].event == k.event
    }

    /** NewFSM. */
    constructor (initial: State)
      ensures Valid()
      ensures current == initial && this.initial == initial
      ensures transitions == map[] && onEnter == map[] && onExit == map[]
    {
      current := initial;
      this.initial := initial;
      transitions := map[];
      onEnter := map[];
      onExit := map[];
    }

    /** Current. */
    function Current(): (s: State)
      reads this
      ensures s == current
    {
      current
    }

    /** AddTransitionWithGuard (and AddTransition with no guard): a second entry for the same
        (from, event) is refused and the table is left as it was. */
    method AddTransition(from: State, to: State, event: Event, guard: Option<CallbackId>) returns (err: Option<SmError>)
      requires Valid()
      modifies this
      ensures Valid()
      ensures Key(from, event) in old(transitions) ==> err == Some(DuplicateTransition) && transitions == old(transitions)
      ensures Key(from, event) !in old(transitions) ==>
                err == None && transitions == old(transitions)[Key(from, event) := Transition(from, to, event, guard, None)]
      ensures current == old(current) && initial == old(initial) && onEnter == old(onEnter) && onExit == old(onExit)
    {
      var key := Key(from, event);
      if key in transitions {
        return Some(DuplicateTransition);
      }
      transitions := transitions[key := Transition(from, to, event, guard, None)];
      err := None;
    }

    /** SetOnEnter. */
    method SetOnEnter(state: State, action: CallbackId)
      modifies this
      ensures onEnter == old(onEnter)[state := action]
      ensures current == old(current) && initial == old(initial) && transitions == old(transitions) && onExit == old(onExit)
    {
      onEnter := onEnter[state := action];
    }

    /** SetOnExit. */
    method SetOnExit(state: State, action: CallbackId)
      modifies this
      ensures onExit == old(onExit)[state := action]
      ensures current == old(current) && initial == old(initial) && transitions == old(transitions) && onEnter == old(onEnter)
    {
      onExit := onExit[state := action];
    }

    /** SetOnTransition: attaches the callback to an existing entry, or reports a missing one. */
    method SetOnTransition(from: State, event: Event, fn: CallbackId) returns (err: Option<SmError>)
      requires Valid()
      modifies this
      ensures Valid()
      ensures Key(from, event) !in old(transitions) ==> err == Some(EventNotFound) && transitions == old(transitions)
      ensures Key(from, event) in old(transitions) ==>
                err == None && transitions == old(transitions)[Key(from, event) := old(transitions)[Key(from, event)].(onTransition := Some(fn))]
      ensures current == old(current) && initial == old(initial) && onEnter == old(onEnter) && onExit == old(onExit)
    {
      var key := Key(from, event);
      if key !in transitions {
        return Some(EventNotFound);
      }
      transitions := transitions[key := transitions[key].(onTransition := Some(fn))];
      err := None;
    }

    /** Can: whether the table has an entry for (current, event). */
    function Can(event: Event): (b: bool)
      reads this
      ensures b <==> Key(current, event) in transitions
    {
      Key(current, event) in transitions
    }

    /** Trigger: look the entry up, ask its guard, then Perform with the current state as the
        only exit and the target as the only enter. */
    method Trigger(event: Event, cb: Callbacks) returns (err: Option<SmError>, calls: seq<Call>)
      requires Valid()
      modifies this
      ensures Valid()
      ensures Outcome(current, err, calls) == FsmFire(old(transitions), old(onEnter), old(onExit), old(current), event, cb)
      ensures initial == old(initial) && transitions == old(transitions) && onEnter == old(onEnter) && onExit == old(onExit)
    {
      calls := [];
      var key := Key(current, event);
      if key !in transitions {
        return Some(InvalidTransition), calls;
      }
      var trans := transitions[key];
      if trans.guard.Some? && !cb.allows(trans.guard.value, current, trans.to) {
        return Some(TransitionDenied), calls;
      }
      var from := current;
      assert [from][1..] == [] && [trans.to][1..] == [];
      if from in onExit {
        calls := calls + [Exit(onExit[from], from)];
        if cb.actionFails(onExit[from], from) {
          return Some(CallbackError(Exit(onExit[from], from))), calls;
        }
      }
      assert RunActions([from][1..], onExit, false, cb) == ([], None);
      assert !(from in onExit && Fails(ActionCall(false, onExit[from], from), cb));
      assert RunActions([from], onExit, false, cb).1 == None;
      assert RunActions([from], onExit, false, cb).0 == calls;
      if trans.onTransition.Some? {
        calls := calls + [OnTransition(trans.onTransition.value, from, trans.to)];
        if cb.transitionFails(trans.onTransition.value, from, trans.to) {
          return Some(CallbackError(OnTransition(trans.onTransition.value, from, trans.to))), calls;
        }
      }
      current := trans.to;
      assert RunActions([trans.to][1..], onEnter, true, cb) == ([], None);
      if trans.to in onEnter {
        calls := calls + [Enter(onEnter[trans.to], trans.to)];
        if cb.actionFails(onEnter[trans.to], trans.to) {
          return Some(CallbackError(Enter(onEnter[trans.to], trans.to))), calls;
        }
      }
      err := None;
    }

    /** Reset. */
    method Reset() returns (err: Option<SmError>)
      modifies this
      ensures current == initial && err == None
      ensures initial == old(initial) && transitions == old(transitions) && onEnter == old(onEnter) && onExit == old(onExit)
    {
      current := initial;
      err := None;
    }
  }

  /** What Trigger of an FSM does, as a function of the machine's tables. */
  function FsmFire(transitions: map<Key, Transition>, onEnter: map<State, CallbackId>, onExit: map<State, CallbackId>,
                   current: State, event: Event, cb: Callbacks): Outcome
  {
    if Key(current, event) !in transitions then Outcome(current, Some(InvalidTransition), [])
    else
      var t := transitions[Key(current, event)];
      if t.guard.Some? && !cb.allows(t.guard.value, current, t.to) then Outcome(current, Some(TransitionDenied), [])
      else Perform(current, t, [current], [t.to], onExit, onEnter, cb)
  }

  /** Trigger fails with ErrInvalidTransition exactly when Can is false; with that error or a
      guard's refusal the state is unchanged and no callback ran. */
  lemma FsmFireInvalidIffCannot(transitions: map<Key, Transition>, onEnter: map<State, CallbackId>, onExit: map<State, CallbackId>,
                                current: State, event: Event, cb: Callbacks)
    ensures FsmFire(transitions, onEnter, onExit, current, event, cb).err == Some(InvalidTransition)
            <==> Key(current, event) !in transitions
    ensures var o := FsmFire(transitions, onEnter, onExit, current, event, cb);
            o.err == Some(InvalidTransition) || o.err == Some(TransitionDenied) ==> o.current == current && o.calls == []
  {
    if Key(current, event) in transitions {
      var t := transitions[Key(current, event)];
      if !(t.guard.Some? && !cb.allows(t.guard.value, current, t.to)) {
        PerformStateChange(current, t, [current], [t.to], onExit, onEnter, cb);
      }
    }
  }

  /** A successful FSM transition moves to the entry's target after running exit(from),
      the transition callback and enter(to), each if set, in that order. */
  lemma FsmFireSuccess(transitions: map<Key, Transition>, onEnter: map<State, CallbackId>, onExit: map<State, CallbackId>,
                       current: State, event: Event, cb: Callbacks)
    requires FsmFire(transitions, onEnter, onExit, current, event, cb).err.None?
    ensures Key(current, event) in transitions
    ensures var t := transitions[Key(current, event)];
            var o := FsmFire(transitions, onEnter, onExit, current, event, cb);
            && o.current == t.to
            && o.calls == (if current in onExit then [Exit(onExit[current], current)] else [])
                          + (if t.onTransition.Some? then [OnTransition(t.onTransition.value, current, t.to)] else [])
                          + (if t.to in onEnter then [Enter(onEnter[t.to], t.to)] else [])
  {
    var t := transitions[Key(current, event)];
    PerformStateChange(current, t, [current], [t.to], onExit, onEnter, cb);
    PerformSuccessTrace(current, t, [current], [t.to], onExit, onEnter, cb);
    assert [current][1..] == [];
    assert [t.to][1..] == [];
  }
}
