/** `useRef`: a mutable cell `{ current }` that stays the same object across renders. */
module RefHook {
  import opened Wrappers
  import opened Values
  import opened Fibers
  import opened Core

  /**
   * `useRef(initial)`: the previous record's cell when there is a previous
   * record, otherwise a new cell holding `initial`; a record of the cell is
   * pushed.
   */
  method UseRef(st: DidactState, initial: Value) returns (cell: nat)
    requires st.Valid() && st.wipFiber.Some?
    requires st.OldHook().Some? ==> st.OldHook().value.RefRecord?
    modifies st
    ensures st.Valid()
    ensures st.wipFiber == old(st.wipFiber) && st.wipRoot == old(st.wipRoot)
    ensures cell < |st.cells|
    ensures var oh := old(st.OldHook());
      (oh.Some? ==> cell == oh.value.cell && st.cells == old(st.cells))
      && (oh.None? ==> cell == |old(st.cells)| && st.cells == old(st.cells) + [initial])
    ensures old(st.CurrentHooks()).Some? ==>
      && st.fibers == old(st.fibers)[st.wipFiber.value := old(st.fibers)[st.wipFiber.value].(
           hooks := Some(old(st.CurrentHooks()).value + [RefRecord(cell)]))]
      && st.hookIndex == old(st.hookIndex) + 1
    ensures old(st.CurrentHooks()).None? ==> st.fibers == old(st.fibers) && st.hookIndex == old(st.hookIndex)
    ensures st.nodes == old(st.nodes) && st.deletions == old(st.deletions)
    ensures st.currentRoot == old(st.currentRoot) && st.nextUnitOfWork == old(st.nextUnitOfWork)
  {
    var oldHook := st.OldHook();
    if oldHook.Some? {
      cell := oldHook.value.cell;
      assert HooksOk(Some([oldHook.value]), |st.cells|);
      assert [oldHook.value][0] == oldHook.value;
    } else {
      cell := |st.cells|;
      RefsOkGrow(st.fibers, |st.cells|, |st.cells| + 1);
      st.cells := st.cells + [initial];
    }
    assert [RefRecord(cell)][0] == RefRecord(cell);
    st.PushHook(RefRecord(cell));
  }

  /** `ref.current = v`: the cell now holds `v` and no other cell changes. */
  method SetCurrent(st: DidactState, cell: nat, v: Value)
    requires st.Valid() && cell < |st.cells|
    modifies st
    ensures st.Valid()
    ensures st.cells == old(st.cells)[cell := v]
    ensures st.fibers == old(st.fibers) && st.nodes == old(st.nodes) && st.deletions == old(st.deletions)
    ensures st.Pointers() == old(st.Pointers())
  {
    st.cells := st.cells[cell := v];
  }
}
