/**
 * `useMemo`: a value kept from the previous render while the dependencies
 * stay equal, recomputed otherwise.
 */
module MemoHook {
  import opened Wrappers
  import opened Values
  import opened Fibers
  import opened Core

  /**
   * `useMemo(compute, deps)`: the previous record's value when there is a
   * previous record and its dependencies equal `deps` (structural equality
   * standing for a deep comparison), `compute()` otherwise; a record of the
   * value and `deps` is pushed.
   */
  method UseMemo(st: DidactState, compute: () -> Value, deps: Value) returns (value: Value)
    requires st.Valid() && st.wipFiber.Some?
    requires st.OldHook().Some? ==> st.OldHook().value.MemoRecord?
    modifies st
    ensures st.Valid()
    ensures st.wipFiber == old(st.wipFiber) && st.wipRoot == old(st.wipRoot)
    ensures var oh := old(st.OldHook());
      (oh.Some? && oh.value.deps == deps ==> value == oh.value.value)
      && (oh.None? || oh.value.deps != deps ==> value == compute())
    ensures old(st.CurrentHooks()).Some? ==>
      && st.fibers == old(st.fibers)[st.wipFiber.value := old(st.fibers)[st.wipFiber.value].(
           hooks := Some(old(st.CurrentHooks()).value + [MemoRecord(value, deps)]))]
      && st.hookIndex == old(st.hookIndex) + 1
    ensures old(st.CurrentHooks()).None? ==> st.fibers == old(st.fibers) && st.hookIndex == old(st.hookIndex)
    ensures st.nodes == old(st.nodes) && st.cells == old(st.cells) && st.deletions == old(st.deletions)
    ensures st.currentRoot == old(st.currentRoot) && st.nextUnitOfWork == old(st.nextUnitOfWork)
  {
    var oldHook := st.OldHook();
    if oldHook.Some? {
      if oldHook.value.deps == deps {
        value := oldHook.value.value;
      } else {
        value := compute();
      }
    } else {
      value := compute();
    }
    st.PushHook(MemoRecord(value, deps));
  }
}
