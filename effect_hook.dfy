/** `useEffect`: a callback run on the first render and whenever the dependencies change. */
module EffectHook {
  import opened Wrappers
  import opened Values
  import opened Fibers
  import opened Core

  /**
   * `useEffect(callback, deps)`: `run` says whether the callback is invoked,
   * which is on the first render (no previous record) and when the previous
   * record's dependencies differ from `deps`; a record of `deps` is pushed.
   */
  method UseEffect(st: DidactState, deps: Value) returns (run: bool)
    requires st.Valid() && st.wipFiber.Some?
    requires st.OldHook().Some? ==> st.OldHook().value.EffectRecord?
    modifies st
    ensures st.Valid()
    ensures st.wipFiber == old(st.wipFiber) && st.wipRoot == old(st.wipRoot)
    ensures var oh := old(st.OldHook());
      run <==> oh.None? || oh.value.deps != deps
    ensures old(st.CurrentHooks()).Some? ==>
      && st.fibers == old(st.fibers)[st.wipFiber.value := old(st.fibers)[st.wipFiber.value].(
           hooks := Some(old(st.CurrentHooks()).value + [EffectRecord(deps)]))]
      && st.hookIndex == old(st.hookIndex) + 1
    ensures old(st.CurrentHooks()).None? ==> st.fibers == old(st.fibers) && st.hookIndex == old(st.hookIndex)
    ensures st.nodes == old(st.nodes) && st.cells == old(st.cells) && st.deletions == old(st.deletions)
    ensures st.currentRoot == old(st.currentRoot) && st.nextUnitOfWork == old(st.nextUnitOfWork)
  {
    var oldHook := st.OldHook();
    if oldHook.None? {
      run := true;
    } else {
      run := oldHook.value.deps != deps;
    }
    st.PushHook(EffectRecord(deps));
  }
}
