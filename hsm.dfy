/**
 * The hierarchical state machine (pkg/statemachine/hsm.go): states form a
 * tree through a parent map, an event is looked up on the current state and
 * then on its ancestors, and a transition exits the states below the common
 * ancestor of source and target (innermost first) and enters the states below
 * it on the target's side (outermost first).
 *
 * Walking up the parent map only ends when a state without a parent is
 * reached; with a cycle in the map the source loops forever. Every operation
 * that walks the map therefore requires Acyclic.
 */
module HierarchicalStateMachine {
  import opened Wrappers
  import opened StateMachine

  function Last(s: seq<State>): State
    requires |s| > 0
  {
    s[|s| - 1]
  }

  /** s followed by at most `fuel` ancestors, stopping at a state without a parent. */
  function Chain(parent: map<State, State>, s: State, fuel: nat): (r: seq<State>)
    ensures 1 <= |r| <= fuel + 1 && r[0] == s
    decreases fuel
  {
    if fuel == 0 || s !in parent then [s] else [s] + Chain(parent, parent[s], fuel - 1)
  }

  /** Walking up from any state reaches a state without a parent within |parent| steps,
      which for a finite map is the same as having no cycle. */
  ghost predicate Acyclic(parent: map<State, State>)
  {
    forall s :: Last(Chain(parent, s, |parent|)) !in parent
  }

  /** What getAncestors returns: the state itself, then its parent, and so on up to a root. */
  function Ancestors(parent: map<State, State>, s: State): seq<State>
  {
    Chain(parent, s, |parent|)
  }

  /** A chain that ends at a root is a parent walk: each element is the parent of the one before. */
  lemma {:induction false} ChainIsParentWalk(parent: map<State, State>, s: State, fuel: nat)
    requires Last(Chain(parent, s, fuel)) !in parent
    ensures var c := Chain(parent, s, fuel);
            forall i :: 0 <= i < |c| - 1 ==> c[i] in parent && c[i + 1] == parent[c[i]]
    decreases fuel
  {
    var c := Chain(parent, s, fuel);
    if |c| > 1 {
      ChainIsParentWalk(parent, parent[s], fuel - 1);
      var rest := Chain(parent, parent[s], fuel - 1);
      assert c == [s] + rest;
      forall i | 0 <= i < |c| - 1
        ensures c[i] in parent && c[i + 1] == parent[c[i]]
      {
        if i > 0 {
          assert c[i] == rest[i - 1] && c[i + 1] == rest[i];
        }
      }
    }
  }

  /** getAncestors starts with the state itself, follows the parent map, and ends at a root. */
  lemma AncestorsShape(parent: map<State, State>, s: State)
    requires Acyclic(parent)
    ensures var a := Ancestors(parent, s);
            && a[0] == s
            && Last(a) !in parent
            && forall i :: 0 <= i < |a| - 1 ==> a[i] in parent && a[i + 1] == parent[a[i]]
  {
    ChainIsParentWalk(parent, s, |parent|);
  }

  /** More fuel does not lengthen a chain that already ends at a root. */
  lemma {:induction false} ChainStable(parent: map<State, State>, s: State, fuel: nat, more: nat)
    requires Last(Chain(parent, s, fuel)) !in parent && fuel <= more
    ensures Chain(parent, s, more) == Chain(parent, s, fuel)
    decreases fuel
  {
    if fuel > 0 && s in parent {
      ChainStable(parent, parent[s], fuel - 1, more - 1);
    }
  }

  /** Dropping the first i elements of a chain leaves the chain of its i-th element. */
  lemma {:induction false} ChainDrop(parent: map<State, State>, s: State, fuel: nat, i: nat)
    requires i < |Chain(parent, s, fuel)|
    ensures i <= fuel
    ensures Chain(parent, s, fuel)[i..] == Chain(parent, Chain(parent, s, fuel)[i], fuel - i)
    decreases i
  {
    if i > 0 {
      assert fuel > 0 && s in parent;
      var rest := Chain(parent, parent[s], fuel - 1);
      assert Chain(parent, s, fuel) == [s] + rest;
      ChainDrop(parent, parent[s], fuel - 1, i - 1);
      assert Chain(parent, s, fuel)[i] == rest[i - 1];
      assert Chain(parent, s, fuel)[i..] == rest[i - 1..];
    }
  }

  /** In an acyclic map the ancestors of a state are a suffix of the ancestors of each of its descendants. */
  lemma AncestorsSuffix(parent: map<State, State>, s: State, i: nat)
    requires Acyclic(parent) && i < |Ancestors(parent, s)|
    ensures Ancestors(parent, s)[i..] == Ancestors(parent, Ancestors(parent, s)[i])
  {
    var a := Ancestors(parent, s);
    ChainDrop(parent, s, |parent|, i);
    var x := a[i];
    assert Last(Chain(parent, x, |parent| - i)) == Last(a);
    assert Last(a) !in parent;
    ChainStable(parent, x, |parent| - i, |parent|);
  }

  /** The length of the longest common suffix, as the loop of getExitPath / getEnterPath counts it. */
  function CommonSuffixLen(a: seq<State>, b: seq<State>): (k: nat)
    ensures k <= |a| && k <= |b|
  {
    if |a| == 0 || |b| == 0 || Last(a) != Last(b) then 0
    else 1 + CommonSuffixLen(a[..|a| - 1], b[..|b| - 1])
  }

  /** The last k elements agree, and the elements just before them (if both exist) differ. */
  lemma CommonSuffixMaximal(a: seq<State>, b: seq<State>)
    ensures var k := CommonSuffixLen(a, b);
            a[|a| - k..] == b[|b| - k..]
    ensures var k := CommonSuffixLen(a, b);
            k < |a| && k < |b| ==> a[|a| - 1 - k] != b[|b| - 1 - k]
  {
    CommonSuffixAgree(a, b);
    CommonSuffixDiffer(a, b);
  }

  lemma CommonSuffixAgree(a: seq<State>, b: seq<State>)
    ensures var k := CommonSuffixLen(a, b);
            a[|a| - k..] == b[|b| - k..]
  {
    var k := CommonSuffixLen(a, b);
    var sa, sb := a[|a| - k..], b[|b| - k..];
    forall i | 0 <= i < k
      ensures sa[i] == sb[i]
    {
      var j := k - 1 - i;
      CommonSuffixAgreeAt(a, b, j);
      assert |a| - 1 - j == (|a| - k) + i && |b| - 1 - j == (|b| - k) + i;
    }
    assert |sa| == k == |sb|;
  }

  /** The i-th element from the end agrees, for i below the common suffix length. */
  lemma {:induction false} CommonSuffixAgreeAt(a: seq<State>, b: seq<State>, i: nat)
    requires i < CommonSuffixLen(a, b)
    ensures a[|a| - 1 - i] == b[|b| - 1 - i]
  {
    if i > 0 {
      var a' := a[..|a| - 1];
      var b' := b[..|b| - 1];
      var j := i - 1;
      CommonSuffixAgreeAt(a', b', j);
      assert a[|a| - 1 - i] == a'[|a'| - 1 - j];
      assert b[|b| - 1 - i] == b'[|b'| - 1 - j];
    }
  }

  lemma {:induction false} CommonSuffixDiffer(a: seq<State>, b: seq<State>)
    ensures var k := CommonSuffixLen(a, b);
            k < |a| && k < |b| ==> a[|a| - 1 - k] != b[|b| - 1 - k]
  {
    if |a| > 0 && |b| > 0 && Last(a) == Last(b) {
      var a' := a[..|a| - 1];
      var b' := b[..|b| - 1];
      CommonSuffixDiffer(a', b');
      var k' := CommonSuffixLen(a', b');
      assert CommonSuffixLen(a, b) == k' + 1;
      if k' + 1 < |a| && k' + 1 < |b| {
        assert a[|a| - 1 - (k' + 1)] == a'[|a'| - 1 - k'];
        assert b[|b| - 1 - (k' + 1)] == b'[|b'| - 1 - k'];
      }
    }
  }

  /** One step up the chain moves the parent from the chain to the collected prefix. */
  lemma ChainStep(parent: map<State, State>, prefix: seq<State>, s: State, fuel: nat)
    requires s in parent && Last(Chain(parent, s, fuel)) !in parent
    ensures fuel > 0
    ensures prefix + Chain(parent, s, fuel)[1..] == (prefix + [parent[s]]) + Chain(parent, parent[s], fuel - 1)[1..]
    ensures Last(Chain(parent, s, fuel)) == Last(Chain(parent, parent[s], fuel - 1))
  {
    var rest := Chain(parent, parent[s], fuel - 1);
    assert Chain(parent, s, fuel) == [s] + rest;
    assert rest == [rest[0]] + rest[1..];
  }

  /** A sequence agrees with itself everywhere. */
  lemma {:induction false} CommonSuffixSelf(a: seq<State>)
    ensures CommonSuffixLen(a, a) == |a|
  {
    if |a| > 0 {
      CommonSuffixSelf(a[..|a| - 1]);
    }
  }

  /** The sequence read backwards. */
  function Reverse(s: seq<State>): (r: seq<State>)
    ensures |r| == |s|
    ensures forall k :: 0 <= k < |s| ==> r[k] == s[|s| - 1 - k]
  {
    if |s| == 0 then [] else [Last(s)] + Reverse(s[..|s| - 1])
  }

  /** The states a transition from `from` to `to` exits: from's ancestors below the common ones, innermost first. */
  function ExitPath(fromAncestors: seq<State>, toAncestors: seq<State>): seq<State>
  {
    fromAncestors[..|fromAncestors| - CommonSuffixLen(fromAncestors, toAncestors)]
  }

  /** The states it enters: to's ancestors below the common ones, outermost first. */
  function EnterPath(fromAncestors: seq<State>, toAncestors: seq<State>): seq<State>
  {
    Reverse(toAncestors[..|toAncestors| - CommonSuffixLen(fromAncestors, toAncestors)])
  }

  /** A transition to the state itself (or between states with the same ancestor list) exits and enters nothing. */
  lemma SelfTransitionRunsNoActions(a: seq<State>)
    ensures ExitPath(a, a) == [] && EnterPath(a, a) == []
  {
    CommonSuffixSelf(a);
  }

  /** Two sequences that end in the same tail share at least that tail. */
  lemma SharedTailIsCommon(a: seq<State>, b: seq<State>, i: nat, j: nat)
    requires i < |a| && j < |b| && a[i..] == b[j..]
    ensures |a| - i <= CommonSuffixLen(a, b)
  {
    CommonSuffixMaximal(a, b);
  }

  /** In a tree no state is both exited and entered: once two ancestor lists meet they agree up to the root. */
  lemma ExitEnterDisjoint(parent: map<State, State>, from: State, to: State, x: State)
    requires Acyclic(parent)
    ensures !(x in ExitPath(Ancestors(parent, from), Ancestors(parent, to)) && x in EnterPath(Ancestors(parent, from), Ancestors(parent, to)))
  {
    var a := Ancestors(parent, from);
    var b := Ancestors(parent, to);
    var k := CommonSuffixLen(a, b);
    var ex := ExitPath(a, b);
    var part := b[..|b| - k];
    var en := Reverse(part);
    if x in ex && x in en {
      var i :| 0 <= i < |ex| && ex[i] == x;
      var m :| 0 <= m < |en| && en[m] == x;
      var j := |part| - 1 - m;
      assert b[j] == part[j] == x;
      assert a[i] == x;
      AncestorsSuffix(parent, from, i);
      AncestorsSuffix(parent, to, j);
      SharedTailIsCommon(a, b, i, j);
      assert false;
    }
  }

  /** The entry the lookup of Trigger finds: that of the first state in the list with one for the event. */
  function FindTransition(transitions: map<Key, Transition>, chain: seq<State>, event: Event): Option<Transition>
  {
    if |chain| == 0 then None
    else if Key(chain[0], event) in transitions then Some(transitions[Key(chain[0], event)])
    else FindTransition(transitions, chain[1..], event)
  }

  /** The lookup finds an entry iff some state of the list has one, and then it is the entry of the
      nearest such state. */
  lemma {:induction false} FindTransitionNearest(transitions: map<Key, Transition>, chain: seq<State>, event: Event)
    ensures FindTransition(transitions, chain, event).Some? <==>
            exists i :: 0 <= i < |chain| && Key(chain[i], event) in transitions
    ensures FindTransition(transitions, chain, event).Some? ==>
            exists i :: 0 <= i < |chain| && Key(chain[i], event) in transitions
                        && FindTransition(transitions, chain, event).value == transitions[Key(chain[i], event)]
                        && forall j :: 0 <= j < i ==> Key(chain[j], event) !in transitions
  {
    if |chain| > 0 && Key(chain[0], event) !in transitions {
      FindTransitionNearest(transitions, chain[1..], event);
      if FindTransition(transitions, chain, event).Some? {
        var i :| 0 <= i < |chain[1..]| && Key(chain[1..][i], event) in transitions
                 && FindTransition(transitions, chain[1..], event).value == transitions[Key(chain[1..][i], event)]
                 && forall j :: 0 <= j < i ==> Key(chain[1..][j], event) !in transitions;
        assert chain[i + 1] == chain[1..][i];
        forall j | 0 <= j < i + 1
          ensures Key(chain[j], event) !in transitions
        {
          if j > 0 {
            assert chain[j] == chain[1..][j - 1];
          }
        }
      } else {
        forall i | 0 <= i < |chain|
          ensures Key(chain[i], event) !in transitions
        {
          if i > 0 {
            assert chain[i] == chain[1..][i - 1];
          }
        }
      }
    }
  }

  /** What Trigger of an HSM does, as a function of the machine's tables. */
  function HsmFire(transitions: map<Key, Transition>, onEnter: map<State, CallbackId>, onExit: map<State, CallbackId>,
                   parent: map<State, State>, current: State, event: Event, cb: Callbacks): Outcome
  {
    match FindTransition(transitions, Ancestors(parent, current), event)
    case None => Outcome(current, Some(InvalidTransition), [])
    case Some(t) =>
      if t.guard.Some? && !cb.allows(t.guard.value, current, t.to) then Outcome(current, Some(TransitionDenied), [])
      else
        var fromAncestors := Ancestors(parent, current);
        var toAncestors := Ancestors(parent, t.to);
        Perform(current, t, ExitPath(fromAncestors, toAncestors), EnterPath(fromAncestors, toAncestors), onExit, onEnter, cb)
  }

  /** Trigger fails with ErrInvalidTransition exactly when neither the current state nor any ancestor
      has an entry for the event, and the state is then unchanged. */
  lemma HsmFireInvalidIffNoAncestorHandles(transitions: map<Key, Transition>, onEnter: map<State, CallbackId>,
                                           onExit: map<State, CallbackId>, parent: map<State, State>,
                                           current: State, event: Event, cb: Callbacks)
    ensures var o := HsmFire(transitions, onEnter, onExit, parent, current, event, cb);
            o.err == Some(InvalidTransition) <==>
              forall i :: 0 <= i < |Ancestors(parent, current)| ==> Key(Ancestors(parent, current)[i], event) !in transitions
    ensures var o := HsmFire(transitions, onEnter, onExit, parent, current, event, cb);
            o.err == Some(InvalidTransition) ==> o.current == current && o.calls == []
  {
    FindTransitionNearest(transitions, Ancestors(parent, current), event);
    match FindTransition(transitions, Ancestors(parent, current), event)
    case None =>
    case Some(t) =>
      if !(t.guard.Some? && !cb.allows(t.guard.value, current, t.to)) {
        var fromAncestors := Ancestors(parent, current);
        var toAncestors := Ancestors(parent, t.to);
        PerformStateChange(current, t, ExitPath(fromAncestors, toAncestors), EnterPath(fromAncestors, toAncestors), onExit, onEnter, cb);
      }
  }

  /** The swap loop of getEnterPath: reverses the slice in place. */
  method ReverseInPlace(buf: array<State>)
    modifies buf
    ensures buf[..] == Reverse(old(buf[..]))
  {
    ghost var orig := buf[..];
    var n := buf.Length;
    var i := 0;
    while i < n / 2
      invariant 0 <= i <= n / 2 && n == |orig|
      invariant forall k :: 0 <= k < i ==> buf[k] == orig[n - 1 - k]
      invariant forall k :: n - i <= k < n ==> buf[k] == orig[n - 1 - k]
      invariant forall k :: i <= k < n - i ==> buf[k] == orig[k]
    {
      buf[i], buf[n - 1 - i] := buf[n - 1 - i], buf[i];
      i := i + 1;
    }
    assert forall k :: 0 <= k < n ==> buf[k] == orig[n - 1 - k];
  }

  /** The part copied into a fresh slice and reversed there, as getEnterPath does. */
  method Reversed(part: seq<State>) returns (r: seq<State>)
    ensures r == Reverse(part)
  {
    var buf := new State[|part|](k requires 0 <= k < |part| => part[k]);
    assert buf[..] == part;
    ReverseInPlace(buf);
    r := buf[..];
  }

  /** The callback loops of Trigger: the action of each listed state in turn, stopping at the first error. */
  method RunActionsLoop(states: seq<State>, actions: map<State, CallbackId>, enter: bool, cb: Callbacks)
    returns (calls: seq<Call>, failed: Option<Call>)
    ensures (calls, failed) == RunActions(states, actions, enter, cb)
  {
    calls := [];
    var i := 0;
    assert states[0..] == states;
    assert calls + RunActions(states, actions, enter, cb).0 == RunActions(states, actions, enter, cb).0;
    while i < |states|
      invariant 0 <= i <= |states|
      invariant RunActions(states, actions, enter, cb)
                == (calls + RunActions(states[i..], actions, enter, cb).0, RunActions(states[i..], actions, enter, cb).1)
    {
      var s := states[i];
      assert states[i..][0] == s && states[i..][1..] == states[i + 1..];
      ghost var rest := RunActions(states[i + 1..], actions, enter, cb);
      if s in actions {
        var c := ActionCall(enter, actions[s], s);
        if Fails(c, cb) {
          assert RunActions(states[i..], actions, enter, cb) == ([c], Some(c));
          return calls + [c], Some(c);
        }
        assert RunActions(states[i..], actions, enter, cb) == ([c] + rest.0, rest.1);
        assert calls + ([c] + rest.0) == (calls + [c]) + rest.0;
        calls := calls + [c];
      } else {
        assert RunActions(states[i..], actions, enter, cb) == ([] + rest.0, rest.1);
        assert [] + rest.0 == rest.0;
      }
      i := i + 1;
    }
    assert states[i..] == [];
    assert calls + [] == calls;
    failed := None;
  }

  class HSM {
    var current: State
    var initial: State
    var transitions: map<Key, Transition>
    var onEnter: map<State, CallbackId>
    var onExit: map<State, CallbackId>
    var parent: map<State, State>
    var children: map<State, seq<State>>

    ghost predicate Valid()
      reads this
    {
      forall k :: k in transitions ==> transitions[k].from == k.from && transitions[k].event == k.event
    }

    /** NewHSM. */
    constructor (initial: State)
      ensures Valid()
      ensures current == initial && this.initial == initial
      ensures transitions == map[] && onEnter == map[] && onExit == map[] && parent == map[] && children == map[]
    {
      current := initial;
      this.initial := initial;
      transitions := map[];
      onEnter := map[];
      onExit := map[];
      parent := map[];
      children := map[];
    }

    /** AddState: records the parent and appends the child to the parent's children. */
    method AddState(child: State, p: State)
      modifies this
      ensures parent == old(parent)[child := p]
      ensures children == old(children)[p := (if p in old(children) then old(children)[p] else []) + [child]]
      ensures current == old(current) && initial == old(initial) && transitions == old(transitions)
      ensures onEnter == old(onEnter) && onExit == old(onExit)
    {
      parent := parent[child := p];
      var siblings := if p in children then children[p] else [];
      children := children[p := siblings + [child]];
    }

    /** AddTransition: a second entry for the same (from, event) is refused. */
    method AddTransition(from: State, to: State, event: Event) returns (err: Option<SmError>)
      requires Valid()
      modifies this
      ensures Valid()
      ensures Key(from, event) in old(transitions) ==> err == Some(DuplicateTransition) && transitions == old(transitions)
      ensures Key(from, event) !in old(transitions) ==>
                err == None && transitions == old(transitions)[Key(from, event) := Transition(from, to, event, None, None)]
      ensures current == old(current) && initial == old(initial) && parent == old(parent) && children == old(children)
      ensures onEnter == old(onEnter) && onExit == old(onExit)
    {
      var key := Key(from, event);
      if key in transitions {
        return Some(DuplicateTransition);
      }
      transitions := transitions[key := Transition(from, to, event, None, None)];
      err := None;
    }

    /** SetOnEnter. */
    method SetOnEnter(state: State, action: CallbackId)
      modifies this
      ensures onEnter == old(onEnter)[state := action]
      ensures current == old(current) && initial == old(initial) && transitions == old(transitions)
      ensures onExit == old(onExit) && parent == old(parent) && children == old(children)
    {
      onEnter := onEnter[state := action];
    }

    /** SetOnExit. */
    method SetOnExit(state: State, action: CallbackId)
      modifies this
      ensures onExit == old(onExit)[state := action]
      ensures current == old(current) && initial == old(initial) && transitions == old(transitions)
      ensures onEnter == old(onEnter) && parent == old(parent) && children == old(children)
    {
      onExit := onExit[state := action];
    }

    /** Current. */
    function Current(): (s: State)
      reads this
      ensures s == current
    {
      current
    }

    /** getAncestors. */
    method GetAncestors(state: State) returns (ancestors: seq<State>)
      requires Acyclic(parent)
      ensures ancestors == Ancestors(parent, state)
    {
      var up := parent;
      ancestors := [state];
      var cur := state;
      ghost var fuel: nat := |up|;
      while cur in up
        invariant ancestors + Chain(up, cur, fuel)[1..] == Chain(up, state, |up|)
        invariant Last(Chain(up, cur, fuel)) !in up
        decreases fuel
      {
        ChainStep(up, ancestors, cur, fuel);
        ancestors := ancestors + [up[cur]];
        cur := up[cur];
        fuel := fuel - 1;
      }
    }

    /** The common-ancestor count of getExitPath and getEnterPath. */
    method CommonIndex(fromAncestors: seq<State>, toAncestors: seq<State>) returns (commonIdx: nat)
      ensures commonIdx == CommonSuffixLen(fromAncestors, toAncestors)
    {
      commonIdx := 0;
      var i := 0;
      assert fromAncestors[..|fromAncestors|] == fromAncestors && toAncestors[..|toAncestors|] == toAncestors;
      while i < |fromAncestors| && i < |toAncestors|
        invariant 0 <= i <= |fromAncestors| && i <= |toAncestors| && commonIdx == i
        invariant CommonSuffixLen(fromAncestors, toAncestors)
                  == i + CommonSuffixLen(fromAncestors[..|fromAncestors| - i], toAncestors[..|toAncestors| - i])
      {
        var a := fromAncestors[..|fromAncestors| - i];
        var b := toAncestors[..|toAncestors| - i];
        if fromAncestors[|fromAncestors| - 1 - i] == toAncestors[|toAncestors| - 1 - i] {
          assert Last(a) == Last(b);
          assert a[..|a| - 1] == fromAncestors[..|fromAncestors| - (i + 1)];
          assert b[..|b| - 1] == toAncestors[..|toAncestors| - (i + 1)];
          commonIdx := i + 1;
        } else {
          assert Last(a) != Last(b);
          break;
        }
        i := i + 1;
      }
    }

    /** getExitPath. */
    method GetExitPath(from: State, to: State) returns (exitStates: seq<State>)
      requires Acyclic(parent)
      ensures exitStates == ExitPath(Ancestors(parent, from), Ancestors(parent, to))
    {
      var fromAncestors := GetAncestors(from);
      var toAncestors := GetAncestors(to);
      var commonIdx := CommonIndex(fromAncestors, toAncestors);
      if commonIdx == 0 {
        return fromAncestors;
      }
      exitStates := fromAncestors[..|fromAncestors| - commonIdx];
    }

    /** getEnterPath: the part of to's ancestors below the common ones, reversed in place. */
    method GetEnterPath(from: State, to: State) returns (enterStates: seq<State>)
      requires Acyclic(parent)
      ensures enterStates == EnterPath(Ancestors(parent, from), Ancestors(parent, to))
    {
      var fromAncestors := GetAncestors(from);
      var toAncestors := GetAncestors(to);
      var commonIdx := CommonIndex(fromAncestors, toAncestors);
      enterStates := Reversed(toAncestors[..|toAncestors| - commonIdx]);
    }

    /** Can: walks from the current state up the parent map looking for an entry for the event. */
    method Can(event: Event) returns (b: bool)
      requires Acyclic(parent)
      ensures b <==> FindTransition(transitions, Ancestors(parent, current), event).Some?
      ensures b <==> exists i :: 0 <= i < |Ancestors(parent, current)| && Key(Ancestors(parent, current)[i], event) in transitions
    {
      FindTransitionNearest(transitions, Ancestors(parent, current), event);
      var state := current;
      ghost var fuel: nat := |parent|;
      while true
        invariant Last(Chain(parent, state, fuel)) !in parent
        invariant FindTransition(transitions, Ancestors(parent, current), event)
                  == FindTransition(transitions, Chain(parent, state, fuel), event)
        decreases fuel
      {
        if Key(state, event) in transitions {
          return true;
        }
        if state !in parent {
          break;
        }
        var rest := Chain(parent, parent[state], fuel - 1);
        assert Chain(parent, state, fuel) == [state] + rest;
        assert ([state] + rest)[1..] == rest;
        state := parent[state];
        fuel := fuel - 1;
      }
      b := false;
    }

    /** The lookup loop of Trigger: from the current state up the parent map to the first
        state with an entry for the event. */
    method Lookup(event: Event) returns (trans: Option<Transition>)
      requires Acyclic(parent)
      ensures trans == FindTransition(transitions, Ancestors(parent, current), event)
    {
      var state := current;
      ghost var fuel: nat := |parent|;
      while true
        invariant Last(Chain(parent, state, fuel)) !in parent
        invariant FindTransition(transitions, Ancestors(parent, current), event)
                  == FindTransition(transitions, Chain(parent, state, fuel), event)
        decreases fuel
      {
        if Key(state, event) in transitions {
          return Some(transitions[Key(state, event)]);
        }
        if state !in parent {
          return None;
        }
        var rest := Chain(parent, parent[state], fuel - 1);
        assert Chain(parent, state, fuel) == [state] + rest;
        assert ([state] + rest)[1..] == rest;
        state := parent[state];
        fuel := fuel - 1;
      }
    }

    /** The rest of Trigger once an entry is found and allowed: the exit actions along the exit
        path, the transition callback, the new state, then the enter actions along the enter path. */
    method Transit(from: State, t: Transition, cb: Callbacks) returns (o: Outcome)
      requires Acyclic(parent)
      ensures var fromAncestors := Ancestors(parent, from);
              var toAncestors := Ancestors(parent, t.to);
              o == Perform(from, t, ExitPath(fromAncestors, toAncestors), EnterPath(fromAncestors, toAncestors), onExit, onEnter, cb)
    {
      var exitStates := GetExitPath(from, t.to);
      var calls, failed := RunActionsLoop(exitStates, onExit, false, cb);
      if failed.Some? {
        return Outcome(from, Some(CallbackError(failed.value)), calls);
      }

      if t.onTransition.Some? {
        calls := calls + [OnTransition(t.onTransition.value, from, t.to)];
        if cb.transitionFails(t.onTransition.value, from, t.to) {
          return Outcome(from, Some(CallbackError(OnTransition(t.onTransition.value, from, t.to))), calls);
        }
      }

      var enterStates := GetEnterPath(from, t.to);
      var enterCalls;
      enterCalls, failed := RunActionsLoop(enterStates, onEnter, true, cb);
      calls := calls + enterCalls;
      return Outcome(t.to, if failed.Some? then Some(CallbackError(failed.value)) else None, calls);
    }

    /** Trigger: the nearest entry on the way up and its guard, then Transit; the state is the
        target once the exit and transition callbacks succeed. */
    method Trigger(event: Event, cb: Callbacks) returns (err: Option<SmError>, calls: seq<Call>)
      requires Valid() && Acyclic(parent)
      modifies this
      ensures Valid()
      ensures Outcome(current, err, calls) == HsmFire(old(transitions), old(onEnter), old(onExit), old(parent), old(current), event, cb)
      ensures initial == old(initial) && transitions == old(transitions) && onEnter == old(onEnter)
      ensures onExit == old(onExit) && parent == old(parent) && children == old(children)
    {
      var found := Lookup(event);
      if found.None? {
        return Some(InvalidTransition), [];
      }
      var trans := found.value;
      if trans.guard.Some? && !cb.allows(trans.guard.value, current, trans.to) {
        return Some(TransitionDenied), [];
      }
      var o := Transit(current, trans, cb);
      current := o.current;
      err, calls := o.err, o.calls;
    }

    /** Reset. */
    method Reset() returns (err: Option<SmError>)
      modifies this
      ensures current == initial && err == None
      ensures initial == old(initial) && transitions == old(transitions) && onEnter == old(onEnter)
      ensures onExit == old(onExit) && parent == old(parent) && children == old(children)
    {
      current := initial;
      err := None;
    }
  }
}
