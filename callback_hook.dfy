/** `useCallback`: a callback kept from the previous render while the dependencies stay equal. */
module CallbackHook {
  import opened Wrappers
  import opened Values
  import opened Fibers
  import opened Core
  import opened MemoHook

  /**
   * `useCallback(callback, deps)` is `useMemo` of the function returning
   * `callback`: the previous render's callback when the dependencies are
   * equal, this render's `callback` otherwise.
   */
  method UseCallback(st: DidactState, callback: Value, deps: Value) returns (value: Value)
    requires st.Valid() && st.wipFiber.Some?
    requires st.OldHook().Some? ==> st.OldHook().value.MemoRecord?
    modifies st
    ensures st.Valid()
    ensures st.wipFiber == old(st.wipFiber) && st.wipRoot == old(st.wipRoot)
    ensures var oh := old(st.OldHook());
      value == (if oh.Some? && oh.value.deps == deps then oh.value.value else callback)
    ensures old(st.CurrentHooks()).Some? ==>
      && st.fibers == old(st.fibers)[st.wipFiber.value := old(st.fibers)[st.wipFiber.value].(
           hooks := Some(old(st.CurrentHooks()).value + [MemoRecord(value, deps)]))]
      && st.hookIndex == old(st.hookIndex) + 1
    ensures old(st.CurrentHooks()).None? ==> st.fibers == old(st.fibers) && st.hookIndex == old(st.hookIndex)
    ensures st.nodes == old(st.nodes) && st.cells == old(st.cells) && st.deletions == old(st.deletions)
    ensures st.currentRoot == old(st.currentRoot) && st.nextUnitOfWork == old(st.nextUnitOfWork)
  {
    value := UseMemo(st, () => callback, deps);
  }
}
