/**
 * `useState`: a state slot that replays the updates queued on the previous
 * render's record, and a setter that queues an update and starts a new
 * render from the current root.
 */
module StateHook {
  import opened Wrappers
  import opened Values
  import opened Fibers
  import opened Core

  /** An update function handed to the setter: the next state from the previous one. */
  type Action = Value -> Value

  /**
   * The setter closure: it holds the hook record it pushes onto, named by
   * its fiber and its position in that fiber's hook list (none when the
   * record was never pushed onto a list).
   */
  datatype Setter = Setter(fiber: nat, slot: Option<nat>)

  /** The state after applying the queued actions in order to `s`. */
  function Replay(s: Value, queue: seq<Action>): Value
    decreases |queue|
  {
    if queue == [] then s else Replay(queue[0](s), queue[1..])
  }

  /** Replaying two queues one after the other is replaying their concatenation. */
  lemma {:induction false} ReplayAppend(s: Value, a: seq<Action>, b: seq<Action>)
    ensures Replay(s, a + b) == Replay(Replay(s, a), b)
    decreases |a|
  {
    if a == [] {
      assert a + b == b;
    } else {
      assert (a + b)[0] == a[0];
      assert (a + b)[1..] == a[1..] + b;
      ReplayAppend(a[0](s), a[1..], b);
    }
  }

  /** Replaying one more action applies it to the state replayed so far. */
  lemma ReplaySnoc(s: Value, a: seq<Action>, f: Action)
    ensures Replay(s, a + [f]) == f(Replay(s, a))
  {
    ReplayAppend(s, a, [f]);
  }

  function Inc(v: Value): Value {
    if v.Num? then Num(v.n + 1) else v
  }

  /** `n` queued increments `c => c + 1` take a count `c` to `c + n`. */
  lemma {:induction false} ReplayIncrements(c: int, n: nat)
    ensures Replay(Num(c), seq(n, _ => Inc)) == Num(c + n)
    decreases n
  {
    if n > 0 {
      assert seq(n, _ => Inc) == seq(n - 1, _ => Inc) + [Inc];
      ReplaySnoc(Num(c), seq(n - 1, _ => Inc), Inc);
      ReplayIncrements(c, n - 1);
    }
  }

  /**
   * `useState(initial)`: the state is the previous record's state with its
   * queued actions replayed in order, or `initial` on the first render; a
   * fresh record holding it with an empty queue is pushed.
   */
  method UseState(st: DidactState, initial: Value) returns (state: Value, setter: Setter)
    requires st.Valid() && st.wipFiber.Some?
    requires st.OldHook().Some? ==> st.OldHook().value.StateRecord?
    modifies st
    ensures st.Valid()
    ensures st.wipFiber == old(st.wipFiber) && st.wipRoot == old(st.wipRoot)
    ensures var oh := old(st.OldHook());
      state == (if oh.Some? then Replay(oh.value.state, oh.value.queue) else initial)
    ensures old(st.CurrentHooks()).Some? ==>
      && st.fibers == old(st.fibers)[st.wipFiber.value := old(st.fibers)[st.wipFiber.value].(
           hooks := Some(old(st.CurrentHooks()).value + [StateRecord(state, [])]))]
      && st.hookIndex == old(st.hookIndex) + 1
    ensures old(st.CurrentHooks()).None? ==> st.fibers == old(st.fibers) && st.hookIndex == old(st.hookIndex)
    ensures setter == Setter(old(st.wipFiber).value,
                             if old(st.CurrentHooks()).Some? then Some(|old(st.CurrentHooks()).value|) else None)
    ensures setter.slot.Some? ==> Holds(st.fibers, setter, StateRecord(state, []))
    ensures st.nodes == old(st.nodes) && st.cells == old(st.cells) && st.deletions == old(st.deletions)
    ensures st.currentRoot == old(st.currentRoot) && st.nextUnitOfWork == old(st.nextUnitOfWork)
  {
    var oldHook := st.OldHook();
    state := if oldHook.Some? then oldHook.value.state else initial;
    var actions := if oldHook.Some? then oldHook.value.queue else [];
    var i := 0;
    while i < |actions|
      invariant i <= |actions|
      invariant Replay(state, actions[i..]) == Replay(if oldHook.Some? then oldHook.value.state else initial, actions)
    {
      assert actions[i..][1..] == actions[i + 1..];
      state := actions[i](state);
      i := i + 1;
    }
    var w := st.wipFiber.value;
    setter := Setter(w, if st.fibers[w].hooks.Some? then Some(|st.fibers[w].hooks.value|) else None);
    st.PushHook(StateRecord(state, []));
  }

  /** The setter's record exists in the arena and is `h`. */
  ghost predicate Holds(fs: seq<Fiber>, setter: Setter, h: Hook) {
    && setter.fiber < |fs| && setter.slot.Some?
    && fs[setter.fiber].hooks.Some? && setter.slot.value < |fs[setter.fiber].hooks.value|
    && fs[setter.fiber].hooks.value[setter.slot.value] == h
  }

  /** The arena with `action` queued on the setter's record, when that record is a state record. */
  function Queued(fs: seq<Fiber>, setter: Setter, action: Action): (r: seq<Fiber>)
    requires setter.fiber < |fs|
    ensures |r| == |fs|
  {
    var f := fs[setter.fiber];
    if setter.slot.Some? && f.hooks.Some? && setter.slot.value < |f.hooks.value|
       && f.hooks.value[setter.slot.value].StateRecord?
    then
      var h := f.hooks.value[setter.slot.value];
      fs[setter.fiber := f.(hooks := Some(f.hooks.value[setter.slot.value := h.(queue := h.queue + [action])]))]
    else fs
  }

  /**
   * Queueing an action on a state record and replaying the queue on the
   * next render yields the action applied to the state that render would
   * otherwise have had; nothing but that record changes.
   */
  lemma QueuedThenReplayed(fs: seq<Fiber>, setter: Setter, state: Value, queue: seq<Action>, action: Action)
    requires Holds(fs, setter, StateRecord(state, queue))
    ensures Holds(Queued(fs, setter, action), setter, StateRecord(state, queue + [action]))
    ensures Replay(state, queue + [action]) == action(Replay(state, queue))
    ensures forall j :: 0 <= j < |fs| && j != setter.fiber ==> Queued(fs, setter, action)[j] == fs[j]
    ensures var r := Queued(fs, setter, action)[setter.fiber];
      && r == fs[setter.fiber].(hooks := r.hooks)
      && (forall k :: 0 <= k < |r.hooks.value| && k != setter.slot.value ==>
            r.hooks.value[k] == fs[setter.fiber].hooks.value[k])
  {
    ReplaySnoc(state, queue, action);
  }

  /**
   * The setter `setState(action)`: queue `action` on the record, then make a
   * new root fiber that copies the current root's dom and props with the
   * current root as its alternate; it becomes the work-in-progress root and
   * the next unit of work, and deletions restart.
   */
  method SetState(st: DidactState, setter: Setter, action: Action)
    requires st.Valid() && st.currentRoot.Some? && setter.fiber < |st.fibers|
    modifies st
    ensures st.Valid()
    ensures var cr := old(st.fibers)[old(st.currentRoot).value];
      st.fibers == Queued(old(st.fibers), setter, action) + [RootFiber(cr.dom, cr.props, old(st.currentRoot))]
    ensures st.wipRoot == Some(|old(st.fibers)|) && st.nextUnitOfWork == st.wipRoot && st.deletions == []
    ensures st.nodes == old(st.nodes) && st.cells == old(st.cells) && st.currentRoot == old(st.currentRoot)
    ensures st.wipFiber == old(st.wipFiber) && st.hookIndex == old(st.hookIndex)
  {
    var f := st.fibers[setter.fiber];
    if setter.slot.Some? && f.hooks.Some? && setter.slot.value < |f.hooks.value|
       && f.hooks.value[setter.slot.value].StateRecord?
    {
      var h := f.hooks.value[setter.slot.value];
      var f' := f.(hooks := Some(f.hooks.value[setter.slot.value := h.(queue := h.queue + [action])]));
      assert LinkOk(st.fibers, setter.fiber);
      SetKeepsLinked(st.fibers, setter.fiber, f');
      assert HooksOk(f.hooks, |st.cells|) && DomOk(f, |st.nodes|);
      assert forall j :: 0 <= j < |st.fibers| ==> DomOk(st.fibers[j], |st.nodes|) && HooksOk(st.fibers[j].hooks, |st.cells|);
      st.fibers := st.fibers[setter.fiber := f'];
    }
    var cr := st.fibers[st.currentRoot.value];
    var root := RootFiber(cr.dom, cr.props, st.currentRoot);
    AppendKeepsLinked(st.fibers, root);
    assert DomOk(cr, |st.nodes|);
    assert forall j :: 0 <= j < |st.fibers| ==> DomOk(st.fibers[j], |st.nodes|) && HooksOk(st.fibers[j].hooks, |st.cells|);
    st.fibers := st.fibers + [root];
    st.wipRoot := Some(|st.fibers| - 1);
    st.nextUnitOfWork := st.wipRoot;
    st.deletions := [];
  }
}
