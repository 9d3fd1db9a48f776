/**
 * The reconciler's global state and the operations of the render pipeline:
 * `render` starts a work-in-progress tree, `workLoop` performs units of work
 * while the host grants time, each unit reconciles one fiber's children, and
 * `commitRoot` applies the collected effects to the host tree.
 */
module Core {
  import opened Wrappers
  import opened Values
  import opened Host
  import opened Fibers

  /**
   * The component functions of the application: component `id` applied to
   * its props gives the one element it renders.
   */
  type Components = (nat, Props) -> Element

  function Min(a: nat, b: nat): nat {
    if a <= b then a else b
  }

  /** `timeRemaining()` as reported at probe `k`; a probe past the list reports 0. */
  function Probe(timeRemaining: seq<int>, k: nat): int {
    if k < |timeRemaining| then timeRemaining[k] else 0
  }

  predicate IsComponent(t: Option<FiberType>) {
    t.Some? && t.value.Component?
  }

  /**
   * The host node kind `createDom` creates for a fiber type: a text node
   * exactly for text elements, otherwise an element named by the tag (an
   * untyped fiber asks for the tag "undefined").
   */
  function KindOf(t: Option<FiberType>): (k: NodeKind)
    requires !IsComponent(t)
    ensures k.TextNode? <==> t == Some(TextElement)
    ensures t.Some? && t.value.HostKind? ==> k == ElementNode(t.value.tag)
    ensures t.None? ==> k == ElementNode("undefined")
  {
    match t
    case None => ElementNode("undefined")
    case Some(TextElement) => TextNode
    case Some(HostKind(tag)) => ElementNode(tag)
  }

  /**
   * The arena and deletion queue once `reconcileChildren(wip, es)` has
   * compared the first `index` positions, `fs` and `dels` being the arena
   * and the queue it started from: the new fibers for the first positions
   * are appended in order and chained by `sibling`; every old fiber is as
   * `Retagged` says; the unmatched prior fibers are queued in chain order.
   */
  ghost predicate ReconciledUpTo(F: seq<Fiber>, wip: nat, es: seq<Element>, index: nat,
                                 fs: seq<Fiber>, dels: seq<nat>, D: seq<nat>)
    requires WellLinked(F) && wip < |F|
  {
    var N := |F|;
    var prior := OldChildren(F, wip);
    && ChainIn(F, prior)
    && index <= |es| + |prior|
    && |fs| == N + Min(index, |es|)
    && (forall j :: N <= j < |fs| ==>
          fs[j] == NewFiber(F, wip, es, prior, j - N, if j + 1 < |fs| then Some(j + 1) else None))
    && (forall k :: 0 <= k < N ==> fs[k] == Retagged(F, wip, es, prior, k, Min(index, |prior|), index > 0))
    && dels == D + Unmatched(F, es, prior, Min(index, |prior|))
  }

  /** The whole of `reconcileChildren(wip, es)`: every position compared. */
  ghost predicate Reconciled(F: seq<Fiber>, wip: nat, es: seq<Element>, fs: seq<Fiber>, dels: seq<nat>, D: seq<nat>)
    requires WellLinked(F) && wip < |F|
  {
    ReconciledUpTo(F, wip, es, Max(|es|, |OldChildren(F, wip)|), fs, dels, D)
  }

  function Max(a: nat, b: nat): nat {
    if a <= b then b else a
  }

  /** The sibling links of a chain of fibers, as `ChainLinks` states them. */
  ghost predicate LinkedAsChain(F: seq<Fiber>, prior: seq<nat>) {
    forall a :: 0 <= a < |prior| ==>
      && prior[a] < |F|
      && (a + 1 < |prior| ==> F[prior[a]].sibling == Some(prior[a + 1]))
      && (a + 1 == |prior| ==> F[prior[a]].sibling.None?)
  }

  /** The arena facts the state invariant keeps, for an arena value. */
  ghost predicate ArenaOk(fs: seq<Fiber>, dels: seq<nat>, nodeCount: nat, cellCount: nat) {
    && WellLinked(fs) && DomsOk(fs, nodeCount) && RefsOk(fs, cellCount)
    && (forall j :: 0 <= j < |dels| ==> dels[j] < |fs|)
  }

  /** A loop iteration's first effect: the fiber for element `index`, if any, is appended unlinked. */
  ghost function AfterAppend(F: seq<Fiber>, wip: nat, es: seq<Element>, prior: seq<nat>, fs: seq<Fiber>, index: nat): seq<Fiber>
    requires ChainIn(F, prior)
  {
    if index < |es| then fs + [NewFiber(F, wip, es, prior, index, None)] else fs
  }

  /** Its second effect: the old fiber at `index`, if unmatched, is tagged Deletion. */
  ghost function AfterTag(F: seq<Fiber>, es: seq<Element>, prior: seq<nat>, fs: seq<Fiber>, index: nat): seq<Fiber>
    requires ChainIn(F, prior) && |F| <= |fs|
  {
    if index < |prior| && !SameTypeAt(F, es, prior, index) then
      fs[prior[index] := fs[prior[index]].(effectTag := Some(Deletion))]
    else fs
  }

  /** Its third effect: the new fiber becomes `wip`'s child (first position) or its predecessor's sibling. */
  ghost function AfterLink(F: seq<Fiber>, wip: nat, es: seq<Element>, fs: seq<Fiber>, index: nat): seq<Fiber>
    requires wip < |F| && |F| + Min(index, |es|) <= |fs|
  {
    var nf := if index < |es| then Some(|F| + index) else None;
    if index == 0 then fs[wip := fs[wip].(child := nf)]
    else if index < |es| then fs[|F| + index - 1 := fs[|F| + index - 1].(sibling := nf)]
    else fs
  }

  lemma OldPartStep(F: seq<Fiber>, wip: nat, es: seq<Element>, fs: seq<Fiber>, index: nat, k: nat)
    requires WellLinked(F) && wip < |F| && ChainIn(F, OldChildren(F, wip))
    requires index < |es| || index < |OldChildren(F, wip)|
    requires |fs| == |F| + Min(index, |es|) && k < |F|
    requires fs[k] == Retagged(F, wip, es, OldChildren(F, wip), k, Min(index, |OldChildren(F, wip)|), index > 0)
    ensures var prior := OldChildren(F, wip);
      AfterLink(F, wip, es, AfterTag(F, es, prior, AfterAppend(F, wip, es, prior, fs, index), index), index)[k]
        == Retagged(F, wip, es, prior, k, Min(index + 1, |prior|), true)
  {
    var prior := OldChildren(F, wip);
    if index < |prior| {
      assert Unmatched(F, es, prior, index + 1)
        == Unmatched(F, es, prior, index) + (if SameTypeAt(F, es, prior, index) then [] else [prior[index]]);
    }
  }

  lemma NewPartStep(F: seq<Fiber>, wip: nat, es: seq<Element>, fs: seq<Fiber>, index: nat)
    requires WellLinked(F) && wip < |F| && ChainIn(F, OldChildren(F, wip))
    requires |fs| == |F| + Min(index, |es|)
    requires forall j :: |F| <= j < |fs| ==>
      fs[j] == NewFiber(F, wip, es, OldChildren(F, wip), j - |F|, if j + 1 < |fs| then Some(j + 1) else None)
    ensures var prior := OldChildren(F, wip);
      var fs' := AfterLink(F, wip, es, AfterTag(F, es, prior, AfterAppend(F, wip, es, prior, fs, index), index), index);
      && |fs'| == |F| + Min(index + 1, |es|)
      && forall j :: |F| <= j < |fs'| ==>
           fs'[j] == NewFiber(F, wip, es, prior, j - |F|, if j + 1 < |fs'| then Some(j + 1) else None)
  {
  }

  /** Replacing one fiber by one with in-range links, dom and refs keeps the arena facts. */
  lemma SetKeepsArena(fs: seq<Fiber>, dels: seq<nat>, i: nat, f: Fiber, nodeCount: nat, cellCount: nat)
    requires ArenaOk(fs, dels, nodeCount, cellCount) && i < |fs|
    requires LinkOk(fs[i := f], i) && DomOk(f, nodeCount) && HooksOk(f.hooks, cellCount)
    ensures ArenaOk(fs[i := f], dels, nodeCount, cellCount)
  {
    SetKeepsLinked(fs, i, f);
  }

  /** Appending a fiber with in-range links, dom and refs keeps the arena facts. */
  lemma AppendKeepsArena(fs: seq<Fiber>, dels: seq<nat>, f: Fiber, nodeCount: nat, cellCount: nat)
    requires ArenaOk(fs, dels, nodeCount, cellCount)
    requires LinkOk(fs + [f], |fs|) && DomOk(f, nodeCount) && HooksOk(f.hooks, cellCount)
    ensures ArenaOk(fs + [f], dels, nodeCount, cellCount)
  {
    AppendKeepsLinked(fs, f);
    assert forall j :: 0 <= j < |fs| ==> (fs + [f])[j] == fs[j];
  }

  /** Old fibers keep their type, dom and sibling while they are reconciled. */
  ghost predicate KeepsIdentity(F: seq<Fiber>, fs: seq<Fiber>) {
    |F| <= |fs|
    && forall k :: 0 <= k < |F| ==>
         fs[k].ftype == F[k].ftype && fs[k].dom == F[k].dom && fs[k].sibling == F[k].sibling
  }

  /** The append effect as a method, with its arena facts. */
  method AppendStep(ghost F: seq<Fiber>, wip: nat, es: seq<Element>, ghost prior: seq<nat>,
                    fs: seq<Fiber>, ghost dels: seq<nat>, index: nat, oldFiber: Option<nat>, sameType: bool,
                    ghost nodeCount: nat, ghost cellCount: nat)
    returns (fs1: seq<Fiber>, newFiber: Option<nat>)
    requires ChainIn(F, prior) && wip < |F| && KeepsIdentity(F, fs) && ArenaOk(fs, dels, nodeCount, cellCount)
    requires oldFiber == (if index < |prior| then Some(prior[index]) else None)
    requires sameType == (index < |prior| && SameTypeAt(F, es, prior, index))
    ensures fs1 == AfterAppend(F, wip, es, prior, fs, index)
    ensures newFiber == (if index < |es| then Some(|fs|) else None)
    ensures KeepsIdentity(F, fs1) && ArenaOk(fs1, dels, nodeCount, cellCount)
  {
    fs1 := fs;
    newFiber := None;
    if sameType {
      var o := fs[oldFiber.value];
      var f := Fiber(o.ftype, es[index].props, o.dom, Some(wip), None, None, oldFiber, Some(Update), None);
      assert DomOk(fs[oldFiber.value], nodeCount);
      AppendKeepsArena(fs, dels, f, nodeCount, cellCount);
      fs1 := fs + [f];
      newFiber := Some(|fs|);
    } else if index < |es| {
      var f := Fiber(Some(es[index].etype), es[index].props, None, Some(wip), None, None, None, Some(Placement), None);
      AppendKeepsArena(fs, dels, f, nodeCount, cellCount);
      fs1 := fs + [f];
      newFiber := Some(|fs|);
    }
  }

  /** The tag effect as a method, with its arena facts. */
  method TagStep(ghost F: seq<Fiber>, es: seq<Element>, ghost prior: seq<nat>,
                 fs1: seq<Fiber>, dels: seq<nat>, index: nat, oldFiber: Option<nat>, sameType: bool,
                 ghost nodeCount: nat, ghost cellCount: nat)
    returns (fs2: seq<Fiber>, dels': seq<nat>)
    requires ChainIn(F, prior) && KeepsIdentity(F, fs1) && ArenaOk(fs1, dels, nodeCount, cellCount)
    requires oldFiber == (if index < |prior| then Some(prior[index]) else None)
    requires sameType == (index < |prior| && SameTypeAt(F, es, prior, index))
    ensures fs2 == AfterTag(F, es, prior, fs1, index)
    ensures dels' == dels + (if index < |prior| && !SameTypeAt(F, es, prior, index) then [prior[index]] else [])
    ensures KeepsIdentity(F, fs2) && ArenaOk(fs2, dels', nodeCount, cellCount)
  {
    fs2 := fs1;
    dels' := dels;
    if oldFiber.Some? && !sameType {
      var k := oldFiber.value;
      assert LinkOk(fs1, k);
      SetKeepsArena(fs1, dels, k, fs1[k].(effectTag := Some(Deletion)), nodeCount, cellCount);
      fs2 := fs1[k := fs1[k].(effectTag := Some(Deletion))];
      dels' := dels + [k];
    }
  }

  /** The link effect as a method, with its arena facts. */
  method LinkStep(ghost F: seq<Fiber>, wip: nat, es: seq<Element>, fs2: seq<Fiber>, ghost dels: seq<nat>,
                  index: nat, newFiber: Option<nat>, prevSibling: Option<nat>,
                  ghost nodeCount: nat, ghost cellCount: nat)
    returns (fs': seq<Fiber>)
    requires wip < |F| && |fs2| == |F| + Min(index + 1, |es|) && KeepsIdentity(F, fs2)
    requires ArenaOk(fs2, dels, nodeCount, cellCount)
    requires newFiber == (if index < |es| then Some(|F| + index) else None)
    requires prevSibling == (if 0 < index <= |es| then Some(|F| + index - 1) else None)
    ensures fs' == AfterLink(F, wip, es, fs2, index)
    ensures ArenaOk(fs', dels, nodeCount, cellCount)
  {
    fs' := fs2;
    if index == 0 {
      assert LinkOk(fs2, wip);
      SetKeepsArena(fs2, dels, wip, fs2[wip].(child := newFiber), nodeCount, cellCount);
      fs' := fs2[wip := fs2[wip].(child := newFiber)];
    } else if index < |es| && prevSibling.Some? {
      var p := prevSibling.value;
      assert LinkOk(fs2, p);
      SetKeepsArena(fs2, dels, p, fs2[p].(sibling := newFiber), nodeCount, cellCount);
      fs' := fs2[p := fs2[p].(sibling := newFiber)];
    }
  }

  lemma ReconciledKeepsIdentity(F: seq<Fiber>, wip: nat, es: seq<Element>, index: nat,
                                fs: seq<Fiber>, dels: seq<nat>, D: seq<nat>)
    requires WellLinked(F) && wip < |F| && ReconciledUpTo(F, wip, es, index, fs, dels, D)
    ensures KeepsIdentity(F, fs)
  {
  }

  /** One iteration of the `reconcileChildren` loop, at position `index`. */
  method ReconcileStep(ghost F: seq<Fiber>, wip: nat, es: seq<Element>, ghost D: seq<nat>,
                       fs: seq<Fiber>, dels: seq<nat>, index: nat, oldFiber: Option<nat>, prevSibling: Option<nat>,
                       ghost nodeCount: nat, ghost cellCount: nat)
    returns (fs': seq<Fiber>, dels': seq<nat>, oldFiber': Option<nat>, prevSibling': Option<nat>)
    requires WellLinked(F) && wip < |F| && LinkedAsChain(F, OldChildren(F, wip))
    requires index < |es| || index < |OldChildren(F, wip)|
    requires ArenaOk(fs, dels, nodeCount, cellCount)
    requires ReconciledUpTo(F, wip, es, index, fs, dels, D)
    requires oldFiber == (if index < |OldChildren(F, wip)| then Some(OldChildren(F, wip)[index]) else None)
    requires prevSibling == (if 0 < index <= |es| then Some(|F| + index - 1) else None)
    ensures ArenaOk(fs', dels', nodeCount, cellCount)
    ensures ReconciledUpTo(F, wip, es, index + 1, fs', dels', D)
    ensures oldFiber' == (if index + 1 < |OldChildren(F, wip)| then Some(OldChildren(F, wip)[index + 1]) else None)
    ensures prevSibling' == (if 0 < index + 1 <= |es| then Some(|F| + index) else None)
  {
    ghost var prior := OldChildren(F, wip);
    ReconciledKeepsIdentity(F, wip, es, index, fs, dels, D);
    var sameType := oldFiber.Some? && index < |es| && fs[oldFiber.value].ftype == Some(es[index].etype);
    var fs1, newFiber := AppendStep(F, wip, es, prior, fs, dels, index, oldFiber, sameType, nodeCount, cellCount);
    var fs2;
    fs2, dels' := TagStep(F, es, prior, fs1, dels, index, oldFiber, sameType, nodeCount, cellCount);
    oldFiber' := None;
    if oldFiber.Some? {
      oldFiber' := fs2[oldFiber.value].sibling;
    }
    fs' := LinkStep(F, wip, es, fs2, dels', index, newFiber, prevSibling, nodeCount, cellCount);
    prevSibling' := newFiber;
    StepReconciled(F, wip, es, D, fs, dels, index);
  }

  /** The three effects of one iteration take the loop invariant from `index` to `index + 1`. */
  lemma StepReconciled(F: seq<Fiber>, wip: nat, es: seq<Element>, D: seq<nat>, fs: seq<Fiber>, dels: seq<nat>, index: nat)
    requires WellLinked(F) && wip < |F|
    requires index < |es| || index < |OldChildren(F, wip)|
    requires ReconciledUpTo(F, wip, es, index, fs, dels, D)
    ensures var prior := OldChildren(F, wip);
      ReconciledUpTo(F, wip, es, index + 1,
        AfterLink(F, wip, es, AfterTag(F, es, prior, AfterAppend(F, wip, es, prior, fs, index), index), index),
        dels + (if index < |prior| && !SameTypeAt(F, es, prior, index) then [prior[index]] else []), D)
  {
    var prior := OldChildren(F, wip);
    var fs' := AfterLink(F, wip, es, AfterTag(F, es, prior, AfterAppend(F, wip, es, prior, fs, index), index), index);
    NewPartStep(F, wip, es, fs, index);
    forall k | 0 <= k < |F|
      ensures fs'[k] == Retagged(F, wip, es, prior, k, Min(index + 1, |prior|), true)
    {
      OldPartStep(F, wip, es, fs, index, k);
    }
    if index < |prior| {
      assert Unmatched(F, es, prior, index + 1)
        == Unmatched(F, es, prior, index) + (if SameTypeAt(F, es, prior, index) then [] else [prior[index]]);
    }
  }

  /**
   * `reconcileChildren(wip, es)` over the arena `fs` and the deletion queue
   * `dels`: the loop runs while an element or an old fiber remains.
   */
  method ReconcileFibers(fs: seq<Fiber>, dels: seq<nat>, wip: nat, es: seq<Element>,
                         ghost nodeCount: nat, ghost cellCount: nat)
    returns (fs': seq<Fiber>, dels': seq<nat>)
    requires ArenaOk(fs, dels, nodeCount, cellCount) && wip < |fs|
    ensures ArenaOk(fs', dels', nodeCount, cellCount)
    ensures Reconciled(fs, wip, es, fs', dels', dels)
    ensures |es| > 0 ==> Chain(fs', fs'[wip].child) == seq(|es|, i requires 0 <= i < |es| => |fs| + i)
  {
    ghost var prior := OldChildren(fs, wip);
    assert LinkOk(fs, wip);
    var oldFiber: Option<nat> := None;
    if fs[wip].alternate.Some? {
      assert LinkOk(fs, fs[wip].alternate.value);
      oldFiber := fs[fs[wip].alternate.value].child;
    }
    PriorChain(fs, wip, oldFiber);
    fs' := fs;
    dels' := dels;
    var index := 0;
    var prevSibling: Option<nat> := None;
    ReconciledStart(fs, wip, es, dels);
    while index < |es| || oldFiber.Some?
      invariant index <= Max(|es|, |prior|)
      invariant ArenaOk(fs', dels', nodeCount, cellCount)
      invariant ReconciledUpTo(fs, wip, es, index, fs', dels', dels)
      invariant oldFiber == (if index < |prior| then Some(prior[index]) else None)
      invariant prevSibling == (if 0 < index <= |es| then Some(|fs| + index - 1) else None)
      decreases |es| + |prior| - index
    {
      fs', dels', oldFiber, prevSibling := ReconcileStep(fs, wip, es, dels, fs', dels', index, oldFiber, prevSibling, nodeCount, cellCount);
      index := index + 1;
    }
    if |es| > 0 {
      ReconciledChain(fs, wip, es, fs', dels', dels);
    }
  }

  /** The prior children are the chain that starts at `wip.alternate.child`. */
  lemma PriorChain(fs: seq<Fiber>, wip: nat, start: Option<nat>)
    requires WellLinked(fs) && wip < |fs|
    requires start == (if fs[wip].alternate.Some? && fs[wip].alternate.value < |fs| then fs[fs[wip].alternate.value].child else None)
    ensures var prior := OldChildren(fs, wip);
      && LinkedAsChain(fs, prior) && ChainIn(fs, prior)
      && start == (if 0 < |prior| then Some(prior[0]) else None)
  {
    assert LinkOk(fs, wip);
    if fs[wip].alternate.Some? {
      assert LinkOk(fs, fs[wip].alternate.value);
    }
    ChainIncreasing(fs, start);
    ChainLinks(fs, start);
    assert OldChildren(fs, wip) == Chain(fs, start);
  }

  /** Before the loop nothing is compared yet. */
  lemma ReconciledStart(fs: seq<Fiber>, wip: nat, es: seq<Element>, dels: seq<nat>)
    requires WellLinked(fs) && wip < |fs|
    requires ChainIn(fs, OldChildren(fs, wip))
    ensures ReconciledUpTo(fs, wip, es, 0, fs, dels, dels)
  {
  }

  /** After the loop the new fibers form `wip`'s child chain, in element order. */
  lemma ReconciledChain(F: seq<Fiber>, wip: nat, es: seq<Element>, fs: seq<Fiber>, dels: seq<nat>, D: seq<nat>)
    requires WellLinked(F) && wip < |F| && WellLinked(fs)
    requires Reconciled(F, wip, es, fs, dels, D) && |es| > 0
    ensures Chain(fs, fs[wip].child) == seq(|es|, i requires 0 <= i < |es| => |F| + i)
  {
    ChainOfRun(fs, |F|, |F| + |es|);
  }

  /**
   * The fiber reconciliation makes for element `i`: parented to `wip`; an
   * Update reusing the type and host node of the prior fiber at position
   * `i`, with it as alternate, exactly when that fiber has the element's
   * type; otherwise a Placement of the element's type with no host node.
   */
  ghost predicate ChildFor(F: seq<Fiber>, wip: nat, es: seq<Element>, prior: seq<nat>, i: nat, c: Fiber)
    requires ChainIn(F, prior) && i < |es|
  {
    && c.parent == Some(wip) && c.props == es[i].props && c.child.None? && c.hooks.None?
    && (c.effectTag == Some(Update) <==> i < |prior| && F[prior[i]].ftype == Some(es[i].etype))
    && (c.effectTag == Some(Update) ==>
          c.alternate == Some(prior[i]) && c.dom == F[prior[i]].dom && c.ftype == F[prior[i]].ftype)
    && (c.effectTag != Some(Update) ==>
          c.effectTag == Some(Placement) && c.dom.None? && c.alternate.None? && c.ftype == Some(es[i].etype))
  }

  /**
   * What reconciling `wip`'s children against `es` leaves behind: one new
   * fiber per element as `ChildFor` describes, each linked by `sibling` to
   * the next and the last to none, and `wip`'s child is the first of them (none when there are no elements but were prior children;
   * untouched when there were neither).
   */
  lemma ReconciledChildren(F: seq<Fiber>, wip: nat, es: seq<Element>, fs: seq<Fiber>, dels: seq<nat>, D: seq<nat>)
    requires WellLinked(F) && wip < |F|
    requires Reconciled(F, wip, es, fs, dels, D)
    ensures ChainIn(F, OldChildren(F, wip))
    ensures |fs| == |F| + |es|
    ensures fs[wip].child ==
      (if |es| > 0 then Some(|F|) else if |OldChildren(F, wip)| > 0 then None else F[wip].child)
    ensures forall j :: |F| <= j < |fs| ==> ChildFor(F, wip, es, OldChildren(F, wip), j - |F|, fs[j])
    ensures forall j :: |F| <= j < |fs| ==> fs[j].sibling == (if j + 1 < |fs| then Some(j + 1) else None)
  {
    var prior := OldChildren(F, wip);
    var N := |F|;
    forall j | N <= j < |fs| ensures ChildFor(F, wip, es, prior, j - N, fs[j]) {
      assert fs[j] == NewFiber(F, wip, es, prior, j - N, if j + 1 < |fs| then Some(j + 1) else None);
    }
    assert fs[wip] == Retagged(F, wip, es, prior, wip, |prior|, Max(|es|, |prior|) > 0);
  }

  /**
   * The deletions reconciliation queues after the earlier ones: exactly the
   * prior fibers with no same-type element at their position, each tagged
   * Deletion, in chain order (the chain's indices increase); the earlier
   * entries are kept.
   */
  lemma ReconciledDeletions(F: seq<Fiber>, wip: nat, es: seq<Element>, fs: seq<Fiber>, dels: seq<nat>, D: seq<nat>)
    requires WellLinked(F) && wip < |F|
    requires Reconciled(F, wip, es, fs, dels, D)
    ensures |dels| >= |D| && dels[..|D|] == D
    ensures var prior := OldChildren(F, wip);
      && (forall i :: 0 <= i < |prior| ==>
            (prior[i] in dels[|D|..] <==> !(i < |es| && F[prior[i]].ftype == Some(es[i].etype))))
      && (forall x :: x in dels[|D|..] ==> x in prior && x < |fs| && fs[x].effectTag == Some(Deletion))
    ensures forall a, b :: |D| <= a < b < |dels| ==> dels[a] < dels[b]
  {
    var prior := OldChildren(F, wip);
    PriorChain(F, wip, if F[wip].alternate.Some? && F[wip].alternate.value < |F| then F[F[wip].alternate.value].child else None);
    assert LinkOk(F, wip);
    if F[wip].alternate.Some? {
      var alt := F[wip].alternate.value;
      assert LinkOk(F, alt);
      ChainIncreasing(F, F[alt].child);
    }
    UnmatchedExactly(F, es, prior, |prior|);
    var u := Unmatched(F, es, prior, |prior|);
    assert dels[|D|..] == u;
    forall a, b | |D| <= a < b < |dels| ensures dels[a] < dels[b] {
      assert dels[a] == u[a - |D|] && dels[b] == u[b - |D|];
    }
    forall x | x in u ensures x in prior && x < |fs| && fs[x].effectTag == Some(Deletion) {
      assert x in prior[..|prior|];
      assert prior[..|prior|] == prior;
      assert fs[x] == Retagged(F, wip, es, prior, x, |prior|, Max(|es|, |prior|) > 0);
    }
  }

  /** The prior children of `wip` are fibers of the arena. */
  lemma OldChildrenIn(F: seq<Fiber>, wip: nat)
    requires WellLinked(F) && wip < |F|
    ensures ChainIn(F, OldChildren(F, wip))
  {
    PriorChain(F, wip, if F[wip].alternate.Some? && F[wip].alternate.value < |F| then F[F[wip].alternate.value].child else None);
  }

  /**
   * The arena `reconcileChildren(wip, es)` leaves, as a function of the one
   * it starts from: every old fiber as `Retagged` says once all positions
   * are compared, then one new fiber per element, each linked to the next.
   */
  ghost function Rendered(F: seq<Fiber>, wip: nat, es: seq<Element>): (r: seq<Fiber>)
    requires WellLinked(F) && wip < |F|
    ensures |r| == |F| + |es|
  {
    OldChildrenIn(F, wip);
    var prior := OldChildren(F, wip);
    var N := |F|;
    var M := N + |es|;
    seq(M, j requires 0 <= j < M =>
      if j < N then Retagged(F, wip, es, prior, j, |prior|, Max(|es|, |prior|) > 0)
      else NewFiber(F, wip, es, prior, j - N, if j + 1 < M then Some(j + 1) else None))
  }

  /** The deletion queue `reconcileChildren(wip, es)` leaves after queue `D`: the unmatched prior fibers appended. */
  ghost function DeletionsAfter(F: seq<Fiber>, wip: nat, es: seq<Element>, D: seq<nat>): seq<nat>
    requires WellLinked(F) && wip < |F|
  {
    OldChildrenIn(F, wip);
    D + Unmatched(F, es, OldChildren(F, wip), |OldChildren(F, wip)|)
  }

  /**
   * `Reconciled` pins the arena and the queue down: a pair is reconciled
   * exactly when it is `Rendered` and `DeletionsAfter`.
   */
  lemma ReconciledIsRendered(F: seq<Fiber>, wip: nat, es: seq<Element>, fs: seq<Fiber>, dels: seq<nat>, D: seq<nat>)
    requires WellLinked(F) && wip < |F|
    ensures Reconciled(F, wip, es, fs, dels, D) <==> fs == Rendered(F, wip, es) && dels == DeletionsAfter(F, wip, es, D)
  {
    OldChildrenIn(F, wip);
    var prior := OldChildren(F, wip);
    var N := |F|;
    var index := Max(|es|, |prior|);
    assert Min(index, |es|) == |es| && Min(index, |prior|) == |prior|;
    var R := Rendered(F, wip, es);
    if Reconciled(F, wip, es, fs, dels, D) {
      forall j | 0 <= j < |fs| ensures fs[j] == R[j] {
        if j < N {
          assert fs[j] == Retagged(F, wip, es, prior, j, |prior|, index > 0);
        } else {
          assert fs[j] == NewFiber(F, wip, es, prior, j - N, if j + 1 < |fs| then Some(j + 1) else None);
        }
      }
    }
    if fs == R && dels == DeletionsAfter(F, wip, es, D) {
      assert forall j :: N <= j < |fs| ==>
        fs[j] == NewFiber(F, wip, es, prior, j - N, if j + 1 < |fs| then Some(j + 1) else None);
      assert forall k :: 0 <= k < N ==> fs[k] == Retagged(F, wip, es, prior, k, |prior|, index > 0);
    }
  }

  /** The arena with fiber `f` given host node `d`, unless it already has one (`updateHostComponent`). */
  function Housed(fs: seq<Fiber>, f: nat, d: nat): (r: seq<Fiber>)
    requires f < |fs|
    ensures |r| == |fs| && r[f].dom.Some?
    ensures WellLinked(fs) ==> WellLinked(r)
  {
    var r := if fs[f].dom.Some? then fs else fs[f := fs[f].(dom := Some(d))];
    assert forall j :: 0 <= j < |fs| ==>
      (r[j].parent == fs[j].parent && r[j].child == fs[j].child
       && r[j].sibling == fs[j].sibling && r[j].alternate == fs[j].alternate);
    assert WellLinked(fs) ==> WellLinked(r) by {
      if WellLinked(fs) { SameLinksKeepLinked(fs, r); }
    }
    r
  }

  /** The arena with fiber `f`'s hook list reset to empty (`updateFunctionComponent`). */
  function Hooked(fs: seq<Fiber>, f: nat): (r: seq<Fiber>)
    requires f < |fs|
    ensures |r| == |fs| && r[f].hooks == Some([])
    ensures WellLinked(fs) ==> WellLinked(r)
  {
    var r := fs[f := fs[f].(hooks := Some([]))];
    assert forall j :: 0 <= j < |fs| ==>
      (r[j].parent == fs[j].parent && r[j].child == fs[j].child
       && r[j].sibling == fs[j].sibling && r[j].alternate == fs[j].alternate);
    assert WellLinked(fs) ==> WellLinked(r) by {
      if WellLinked(fs) { SameLinksKeepLinked(fs, r); }
    }
    r
  }

  /**
   * `performUnitOfWork`'s search for the next unit: the child, else the
   * sibling of the nearest ancestor-or-self that has one, else none.
   */
  method NextUnit(fs: seq<Fiber>, f: nat) returns (next: Option<nat>)
    requires WellLinked(fs) && f < |fs|
    ensures next == Successor(fs, f)
  {
    assert LinkOk(fs, f);
    if fs[f].child.Some? {
      return fs[f].child;
    }
    var n: Option<nat> := Some(f);
    while n.Some?
      invariant InArena(fs, n)
      invariant FirstOn(fs, n, Up, HasSibling) == FirstOn(fs, Some(f), Up, HasSibling)
      decreases Measure(fs, n, Up)
    {
      assert LinkOk(fs, n.value);
      if fs[n.value].sibling.Some? {
        return fs[n.value].sibling;
      }
      n := fs[n.value].parent;
    }
    return None;
  }

  /** `commitWork`'s climb to the nearest ancestor with a host node, and that node. */
  method HostParentOf(fs: seq<Fiber>, i: nat) returns (domParent: Option<nat>)
    requires WellLinked(fs) && i < |fs|
    ensures domParent == HostParentDom(fs, i)
  {
    assert LinkOk(fs, i);
    var n := fs[i].parent;
    while n.Some? && fs[n.value].dom.None?
      invariant InArena(fs, n)
      invariant FirstOn(fs, n, Up, HasDom) == FirstOn(fs, fs[i].parent, Up, HasDom)
      decreases Measure(fs, n, Up)
    {
      assert LinkOk(fs, n.value);
      n := fs[n.value].parent;
    }
    domParent := None;
    if n.Some? {
      domParent := fs[n.value].dom;
    }
  }

  /**
   * What `commitRoot` does to the host tree: every queued deletion is
   * committed, then the work-in-progress root's child tree if there is one.
   */
  ghost function CommitRootSpec(fs: seq<Fiber>, ns: seq<HostNode>, dels: seq<nat>, wipRoot: Option<nat>): (r: seq<HostNode>)
    requires WellLinked(fs) && HostOk(ns) && DomsOk(fs, |ns|) && InArena(fs, wipRoot)
    requires forall j :: 0 <= j < |dels| ==> dels[j] < |fs|
    ensures HostOk(r) && |r| == |ns|
  {
    var ns1 := CommitAll(fs, ns, dels);
    if wipRoot.Some? && fs[wipRoot.value].child.Some? then
      assert LinkOk(fs, wipRoot.value);
      CommitWorkSpec(fs, ns1, fs[wipRoot.value].child)
    else ns1
  }

  /** `commitRoot` keeps the host tree's child lists and parent links in agreement. */
  lemma CommitRootKeepsAgree(fs: seq<Fiber>, ns: seq<HostNode>, dels: seq<nat>, wipRoot: Option<nat>)
    requires WellLinked(fs) && HostOk(ns) && DomsOk(fs, |ns|) && InArena(fs, wipRoot) && ParentsAgree(ns)
    requires forall j :: 0 <= j < |dels| ==> dels[j] < |fs|
    ensures ParentsAgree(CommitRootSpec(fs, ns, dels, wipRoot))
  {
    CommitAllKeepsAgree(fs, ns, dels);
    if wipRoot.Some? && fs[wipRoot.value].child.Some? {
      assert LinkOk(fs, wipRoot.value);
      CommitWorkKeepsAgree(fs, CommitAll(fs, ns, dels), fs[wipRoot.value].child);
    }
  }

  /**
   * Re-rendering a tree whose every element keeps its type queues no
   * deletion and tags every fiber Update (`SameTypesDeleteNothing`);
   * committing such a root moves no host node: kinds, child lists and
   * parents are as before.
   */
  lemma UnchangedCommitKeepsShape(fs: seq<Fiber>, ns: seq<HostNode>, wipRoot: Option<nat>)
    requires WellLinked(fs) && HostOk(ns) && DomsOk(fs, |ns|) && InArena(fs, wipRoot)
    requires wipRoot.Some? ==> (assert LinkOk(fs, wipRoot.value); UpdatesOnly(fs, fs[wipRoot.value].child))
    ensures SameShape(CommitRootSpec(fs, ns, [], wipRoot), ns)
  {
    if wipRoot.Some? && fs[wipRoot.value].child.Some? {
      assert LinkOk(fs, wipRoot.value);
      UpdatesKeepShape(fs, ns, fs[wipRoot.value].child);
    }
  }

  /** The part of the state a unit of work reads and writes. */
  datatype Snapshot = Snapshot(fibers: seq<Fiber>, nodes: seq<HostNode>, deletions: seq<nat>,
                               wipFiber: Option<nat>, hookIndex: nat)

  /**
   * The state `performUnitOfWork(f)` leaves, as a function of the state `s`
   * it starts from: a component fiber becomes the hooks' fiber with an empty
   * hook list and the element its component renders is reconciled as its
   * child; any other fiber gets a new host node made from its props when it
   * has none, and its children are reconciled.
   */
  ghost function UnitSpec(s: Snapshot, f: nat, comp: Components): (t: Snapshot)
    requires WellLinked(s.fibers) && f < |s.fibers|
    ensures |s.fibers| <= |t.fibers|
  {
    var fb := s.fibers[f];
    if IsComponent(fb.ftype) then
      var F := Hooked(s.fibers, f);
      var es := [comp(fb.ftype.value.id, fb.props)];
      Snapshot(Rendered(F, f, es), s.nodes, DeletionsAfter(F, f, es, s.deletions), Some(f), 0)
    else
      var F := Housed(s.fibers, f, |s.nodes|);
      var ns := if fb.dom.Some? then s.nodes
                else s.nodes + [UpdatedNode(NewNode(KindOf(fb.ftype)), map[], fb.props.attrs)];
      Snapshot(Rendered(F, f, fb.props.children), ns, DeletionsAfter(F, f, fb.props.children, s.deletions),
               s.wipFiber, s.hookIndex)
  }

  /** `performUnitOfWork(f)` takes `s` to `t`. */
  ghost predicate UnitDone(s: Snapshot, f: nat, comp: Components, t: Snapshot) {
    WellLinked(s.fibers) && f < |s.fibers| && t == UnitSpec(s, f, comp)
  }

  /**
   * A unit of work read relationally: the reconcile facts `Reconciled`
   * states (and `ReconciledChildren` and `ReconciledDeletions` unfold) hold
   * of the state it leaves, with the hook pointers and host nodes as
   * `UnitSpec` gives them.
   */
  lemma UnitReconciles(s: Snapshot, f: nat, comp: Components, t: Snapshot)
    requires UnitDone(s, f, comp, t)
    ensures IsComponent(s.fibers[f].ftype) ==>
      && t.wipFiber == Some(f) && t.hookIndex == 0 && t.nodes == s.nodes
      && Reconciled(Hooked(s.fibers, f), f, [comp(s.fibers[f].ftype.value.id, s.fibers[f].props)],
                    t.fibers, t.deletions, s.deletions)
    ensures !IsComponent(s.fibers[f].ftype) ==>
      && t.wipFiber == s.wipFiber && t.hookIndex == s.hookIndex
      && t.nodes == (if s.fibers[f].dom.Some? then s.nodes
                     else s.nodes + [UpdatedNode(NewNode(KindOf(s.fibers[f].ftype)), map[], s.fibers[f].props.attrs)])
      && Reconciled(Housed(s.fibers, f, |s.nodes|), f, s.fibers[f].props.children, t.fibers, t.deletions, s.deletions)
  {
    var fb := s.fibers[f];
    if IsComponent(fb.ftype) {
      ReconciledIsRendered(Hooked(s.fibers, f), f, [comp(fb.ftype.value.id, fb.props)], t.fibers, t.deletions, s.deletions);
    } else {
      ReconciledIsRendered(Housed(s.fibers, f, |s.nodes|), f, fb.props.children, t.fibers, t.deletions, s.deletions);
    }
  }

  /** `next` is the unit of work that follows `f` in the arena of `s`. */
  ghost predicate Follows(s: Snapshot, f: nat, next: Option<nat>) {
    WellLinked(s.fibers) && f < |s.fibers| && next == Successor(s.fibers, f)
  }

  /**
   * `trace` is the sequence of units a work loop performed, starting from
   * `first`, and `snaps` the state before each unit and after the last:
   * without its last unit it is a trace that ends waiting for that unit; the
   * last unit takes the last snapshot but one to the last; `next` follows it
   * in the arena it left. With no unit performed, `next` is `first`.
   */
  ghost predicate Traced(snaps: seq<Snapshot>, trace: seq<nat>, comp: Components, first: Option<nat>, next: Option<nat>)
    decreases |trace|
  {
    if |trace| == 0 then |snaps| == 1 && next == first
    else
      var n := |trace| - 1;
      && |snaps| == |trace| + 1
      && Traced(snaps[..n + 1], trace[..n], comp, first, Some(trace[n]))
      && UnitDone(snaps[n], trace[n], comp, snaps[n + 1])
      && Follows(snaps[n + 1], trace[n], next)
  }

  /** One more unit, performed on the last snapshot, extends the trace. */
  lemma TracedStep(snaps: seq<Snapshot>, trace: seq<nat>, comp: Components, first: Option<nat>,
                   f: nat, s: Snapshot, next: Option<nat>)
    requires Traced(snaps, trace, comp, first, Some(f))
    requires UnitDone(snaps[|trace|], f, comp, s) && Follows(s, f, next)
    ensures Traced(snaps + [s], trace + [f], comp, first, next)
  {
    assert (snaps + [s])[..|trace| + 1] == snaps;
    assert (trace + [f])[..|trace|] == trace;
  }

  /** Read unit by unit, each unit of a trace takes its snapshot to the next. */
  lemma {:induction false} TracedUnits(snaps: seq<Snapshot>, trace: seq<nat>, comp: Components,
                                       first: Option<nat>, next: Option<nat>)
    requires Traced(snaps, trace, comp, first, next)
    ensures |snaps| == |trace| + 1
    ensures forall k :: 0 <= k < |trace| ==> UnitDone(snaps[k], trace[k], comp, snaps[k + 1])
    decreases |trace|
  {
    if |trace| > 0 {
      var n := |trace| - 1;
      var snaps', trace' := snaps[..n + 1], trace[..n];
      TracedUnits(snaps', trace', comp, first, Some(trace[n]));
      forall k | 0 <= k < n ensures UnitDone(snaps[k], trace[k], comp, snaps[k + 1]) {
        assert snaps'[k] == snaps[k] && snaps'[k + 1] == snaps[k + 1] && trace'[k] == trace[k];
      }
    }
  }

  /**
   * Read unit by unit, a trace starts at `first`, each unit after the first
   * follows the one before it in the arena that one left, and `next`
   * follows the last.
   */
  lemma {:induction false} TracedOrder(snaps: seq<Snapshot>, trace: seq<nat>, comp: Components,
                                       first: Option<nat>, next: Option<nat>)
    requires Traced(snaps, trace, comp, first, next)
    ensures |snaps| == |trace| + 1
    ensures |trace| > 0 ==> Some(trace[0]) == first && Follows(snaps[|trace|], trace[|trace| - 1], next)
    ensures forall k :: 0 < k < |trace| ==> Follows(snaps[k], trace[k - 1], Some(trace[k]))
    decreases |trace|
  {
    if |trace| > 0 {
      var n := |trace| - 1;
      var snaps', trace' := snaps[..n + 1], trace[..n];
      TracedOrder(snaps', trace', comp, first, Some(trace[n]));
      forall k | 0 < k < n ensures Follows(snaps[k], trace[k - 1], Some(trace[k])) {
        assert snaps'[k] == snaps[k] && trace'[k] == trace[k] && trace'[k - 1] == trace[k - 1];
      }
      if n > 0 {
        assert trace'[0] == trace[0];
      }
    }
  }

  /** A snapshot `commitRoot` can run on. */
  ghost predicate SnapshotOk(s: Snapshot) {
    && WellLinked(s.fibers) && HostOk(s.nodes) && DomsOk(s.fibers, |s.nodes|)
    && (forall j :: 0 <= j < |s.deletions| ==> s.deletions[j] < |s.fibers|)
  }

  /**
   * The singleton `DidactState`, together with the three arenas that hold
   * what its fields point to: fibers, host nodes and `useRef` cells.
   */
  class DidactState {
    var fibers: seq<Fiber>
    var nodes: seq<HostNode>
    var cells: seq<Value>
    var wipRoot: Option<nat>
    var currentRoot: Option<nat>
    var deletions: seq<nat>
    var wipFiber: Option<nat>
    var nextUnitOfWork: Option<nat>
    var hookIndex: nat

    ghost predicate Valid()
      reads this
    {
      && WellLinked(fibers)
      && HostOk(nodes)
      && DomsOk(fibers, |nodes|)
      && RefsOk(fibers, |cells|)
      && InArena(fibers, wipRoot)
      && InArena(fibers, currentRoot)
      && InArena(fibers, wipFiber)
      && InArena(fibers, nextUnitOfWork)
      && (forall j :: 0 <= j < |deletions| ==> deletions[j] < |fibers|)
    }

    /** The state before the first `render`: every field unset, over the given host tree. */
    constructor (host: seq<HostNode>)
      requires HostOk(host)
      ensures Valid()
      ensures fibers == [] && nodes == host && cells == [] && deletions == []
      ensures wipRoot.None? && currentRoot.None? && wipFiber.None? && nextUnitOfWork.None?
      ensures hookIndex == 0
    {
      fibers := [];
      nodes := host;
      cells := [];
      wipRoot := None;
      currentRoot := None;
      deletions := [];
      wipFiber := None;
      nextUnitOfWork := None;
      hookIndex := 0;
    }

    /**
     * `render(element, container)`: a new root fiber whose only child is
     * `element`, with the current root as its alternate, becomes both the
     * work-in-progress root and the next unit of work; deletions restart.
     */
    method Render(element: Element, container: nat)
      requires Valid() && container < |nodes|
      modifies this
      ensures Valid()
      ensures fibers == old(fibers) + [RootFiber(Some(container), Props(map[], [element]), old(currentRoot))]
      ensures wipRoot == Some(|old(fibers)|) && nextUnitOfWork == wipRoot && deletions == []
      ensures nodes == old(nodes) && cells == old(cells) && currentRoot == old(currentRoot)
      ensures wipFiber == old(wipFiber) && hookIndex == old(hookIndex)
    {
      var root := RootFiber(Some(container), Props(map[], [element]), currentRoot);
      AppendKeepsLinked(fibers, root);
      fibers := fibers + [root];
      wipRoot := Some(|fibers| - 1);
      deletions := [];
      nextUnitOfWork := wipRoot;
    }

    /**
     * `reconcileChildren(wip, elements)` on the state: the arena and the
     * deletion queue become what `ReconcileFibers` computes; nothing else
     * changes.
     */
    method ReconcileChildren(wip: nat, elements: seq<Element>)
      requires Valid() && wip < |fibers|
      modifies this
      ensures Valid()
      ensures Reconciled(old(fibers), wip, elements, fibers, deletions, old(deletions))
      ensures |elements| > 0 ==>
        Chain(fibers, fibers[wip].child) == seq(|elements|, i requires 0 <= i < |elements| => |old(fibers)| + i)
      ensures nodes == old(nodes) && cells == old(cells)
      ensures wipRoot == old(wipRoot) && currentRoot == old(currentRoot)
      ensures wipFiber == old(wipFiber) && nextUnitOfWork == old(nextUnitOfWork) && hookIndex == old(hookIndex)
    {
      fibers, deletions := ReconcileFibers(fibers, deletions, wip, elements, |nodes|, |cells|);
    }

    /** The fields a unit of work reads and writes. */
    ghost function Snap(): Snapshot
      reads this
    {
      Snapshot(fibers, nodes, deletions, wipFiber, hookIndex)
    }

    /** The fields other than the arenas and the deletion queue. */
    ghost function Pointers(): (Option<nat>, Option<nat>, Option<nat>, Option<nat>, nat)
      reads this
    {
      (wipRoot, currentRoot, wipFiber, nextUnitOfWork, hookIndex)
    }

    /** `updateDom(dom, prev, next)` on host node `d`. */
    method UpdateDom(d: nat, prev: map<string, Value>, next: map<string, Value>)
      requires Valid() && d < |nodes|
      modifies this
      ensures Valid()
      ensures nodes == old(nodes)[d := UpdatedNode(old(nodes)[d], prev, next)]
      ensures fibers == old(fibers) && cells == old(cells) && deletions == old(deletions) && Pointers() == old(Pointers())
    {
      var n := UpdateDomNode(nodes[d], prev, next);
      assert forall j :: 0 <= j < |nodes| ==> NodeOk(nodes[j], |nodes|);
      nodes := nodes[d := n];
    }

    /** `createDom(fiber)`: a new host node of the fiber's kind, given the fiber's props. */
    method CreateDom(f: nat) returns (d: nat)
      requires Valid() && f < |fibers| && !IsComponent(fibers[f].ftype)
      modifies this
      ensures fibers == old(fibers) && cells == old(cells) && deletions == old(deletions) && Pointers() == old(Pointers())
      ensures Valid()
      ensures d == |old(nodes)|
      ensures nodes == old(nodes) + [UpdatedNode(NewNode(KindOf(fibers[f].ftype)), map[], fibers[f].props.attrs)]
    {
      d := |nodes|;
      nodes := nodes + [NewNode(KindOf(fibers[f].ftype))];
      assert forall j :: 0 <= j < d ==> NodeOk(nodes[j], |nodes|) by {
        assert forall j :: 0 <= j < d ==> nodes[j] == old(nodes)[j] && NodeOk(old(nodes)[j], d);
      }
      assert DomsOk(fibers, |nodes|) by {
        assert forall j :: 0 <= j < |fibers| ==> DomOk(fibers[j], d);
      }
      UpdateDom(d, map[], fibers[f].props.attrs);
    }

    /** `updateHostComponent(fiber)`: give the fiber a host node if it has none, then reconcile its children. */
    method UpdateHostComponent(f: nat)
      requires Valid() && f < |fibers| && !IsComponent(fibers[f].ftype)
      modifies this
      ensures Valid()
      ensures old(fibers)[f].dom.Some? ==> nodes == old(nodes)
      ensures old(fibers)[f].dom.None? ==>
        nodes == old(nodes) + [UpdatedNode(NewNode(KindOf(old(fibers)[f].ftype)), map[], old(fibers)[f].props.attrs)]
      ensures Reconciled(Housed(old(fibers), f, |old(nodes)|), f, old(fibers)[f].props.children, fibers, deletions, old(deletions))
      ensures cells == old(cells) && Pointers() == old(Pointers())
    {
      if fibers[f].dom.None? {
        var d := CreateDom(f);
        var fs := fibers[f := fibers[f].(dom := Some(d))];
        assert fs == Housed(old(fibers), f, |old(nodes)|);
        assert DomsOk(fs, |nodes|) by {
          assert forall j :: 0 <= j < |fibers| ==> DomOk(fibers[j], |nodes|);
        }
        fibers := fs;
      }
      ReconcileChildren(f, fibers[f].props.children);
    }

    /**
     * `updateFunctionComponent(fiber)`: the fiber becomes the hooks' fiber
     * with an empty hook list, and the one element its component renders
     * from its props is reconciled as its child.
     */
    method UpdateFunctionComponent(f: nat, comp: Components)
      requires Valid() && f < |fibers| && IsComponent(fibers[f].ftype)
      modifies this
      ensures Valid()
      ensures wipFiber == Some(f) && hookIndex == 0
      ensures Reconciled(Hooked(old(fibers), f), f, [comp(old(fibers)[f].ftype.value.id, old(fibers)[f].props)],
                         fibers, deletions, old(deletions))
      ensures nodes == old(nodes) && cells == old(cells)
      ensures wipRoot == old(wipRoot) && currentRoot == old(currentRoot) && nextUnitOfWork == old(nextUnitOfWork)
    {
      wipFiber := Some(f);
      hookIndex := 0;
      assert RefsOk(Hooked(fibers, f), |cells|) by {
        assert forall j :: 0 <= j < |fibers| ==> HooksOk(fibers[j].hooks, |cells|);
      }
      assert DomsOk(Hooked(fibers, f), |nodes|) by {
        assert forall j :: 0 <= j < |fibers| ==> DomOk(fibers[j], |nodes|);
      }
      fibers := Hooked(fibers, f);
      var child := comp(fibers[f].ftype.value.id, fibers[f].props);
      ReconcileChildren(f, [child]);
    }

    /**
     * `performUnitOfWork(fiber)`: a component fiber is rendered, any other
     * fiber gets its host node; its children are reconciled; the answer is
     * the next unit of work in depth-first order.
     */
    method PerformUnitOfWork(f: nat, comp: Components) returns (next: Option<nat>)
      requires Valid() && f < |fibers|
      modifies this
      ensures Valid()
      ensures |old(fibers)| <= |fibers|
      ensures next == Successor(fibers, f)
      ensures UnitDone(old(Snap()), f, comp, Snap())
      ensures cells == old(cells)
      ensures wipRoot == old(wipRoot) && currentRoot == old(currentRoot) && nextUnitOfWork == old(nextUnitOfWork)
    {
      ghost var s := Snap();
      if IsComponent(fibers[f].ftype) {
        UpdateFunctionComponent(f, comp);
        ReconciledIsRendered(Hooked(s.fibers, f), f, [comp(s.fibers[f].ftype.value.id, s.fibers[f].props)],
                             fibers, deletions, s.deletions);
      } else {
        UpdateHostComponent(f);
        ReconciledIsRendered(Housed(s.fibers, f, |s.nodes|), f, s.fibers[f].props.children,
                             fibers, deletions, s.deletions);
      }
      next := NextUnit(fibers, f);
    }

    /** `commitDeletion(domParent, fiber)`: remove the first host node on the fiber's first-child path. */
    method CommitDeletion(domParent: nat, i: nat)
      requires Valid() && domParent < |nodes| && i < |fibers|
      modifies this
      ensures fibers == old(fibers) && cells == old(cells) && deletions == old(deletions) && Pointers() == old(Pointers())
      ensures Valid()
      ensures nodes == CommitDeletionSpec(fibers, old(nodes), domParent, i)
      decreases |fibers| - i
    {
      assert LinkOk(fibers, i);
      if fibers[i].dom.Some? {
        assert DomOk(fibers[i], |nodes|);
        nodes := RemoveChild(nodes, domParent, fibers[i].dom.value);
      } else if fibers[i].child.Some? {
        assert DeletionTarget(fibers, i) == DeletionTarget(fibers, fibers[i].child.value);
        CommitDeletion(domParent, fibers[i].child.value);
      } else {
        assert !HasDom(fibers[i]) && Step(fibers, i, Down).None?;
        assert FirstOn(fibers, None, Down, HasDom).None?;
        assert DeletionTarget(fibers, i).None?;
      }
    }

    /** The effect `commitWork` applies for fiber `i` itself: append, update or delete its host node. */
    method CommitEffect(i: nat)
      requires Valid() && i < |fibers|
      modifies this
      ensures fibers == old(fibers) && cells == old(cells) && deletions == old(deletions) && Pointers() == old(Pointers())
      ensures Valid()
      ensures nodes == CommitOne(fibers, old(nodes), i)
    {
      var fiber := fibers[i];
      assert LinkOk(fibers, i);
      var domParent := HostParentOf(fibers, i);
      assert domParent.Some? ==> domParent.value < |nodes| by {
        var a := FirstOn(fibers, fibers[i].parent, Up, HasDom);
        if a.Some? { assert DomOk(fibers[a.value], |nodes|); }
      }
      assert DomOk(fiber, |nodes|);
      if fiber.effectTag == Some(Placement) && fiber.dom.Some? && domParent.Some? {
        nodes := AppendChild(nodes, domParent.value, fiber.dom.value);
      } else if fiber.effectTag == Some(Update) && fiber.dom.Some? && fiber.alternate.Some? {
        UpdateDom(fiber.dom.value, fibers[fiber.alternate.value].props.attrs, fiber.props.attrs);
      } else if fiber.effectTag == Some(Deletion) && domParent.Some? {
        CommitDeletion(domParent.value, i);
      }
    }

    /**
     * `commitWork(fiber)`: apply the fiber's effect under its nearest host
     * ancestor's node, then commit its child's subtree and its siblings'.
     */
    method CommitWork(n: Option<nat>)
      requires Valid() && InArena(fibers, n)
      modifies this
      ensures fibers == old(fibers) && cells == old(cells) && deletions == old(deletions) && Pointers() == old(Pointers())
      ensures Valid()
      ensures nodes == CommitWorkSpec(fibers, old(nodes), n)
      decreases if n.Some? then |fibers| - n.value else 0
    {
      if n.None? {
        return;
      }
      var i := n.value;
      assert LinkOk(fibers, i);
      CommitEffect(i);
      CommitWork(fibers[i].child);
      CommitWork(fibers[i].sibling);
    }

    /**
     * `commitRoot()`: commit every queued deletion, then the work-in-progress
     * root's child tree; when that child exists the root becomes the current
     * root. The work-in-progress root is cleared; the deletion queue is left
     * as it is.
     */
    method CommitRoot()
      requires Valid()
      modifies this
      ensures fibers == old(fibers) && cells == old(cells) && deletions == old(deletions)
      ensures Valid()
      ensures nodes == CommitRootSpec(fibers, old(nodes), deletions, old(wipRoot))
      ensures currentRoot == (if old(wipRoot).Some? && fibers[old(wipRoot).value].child.Some? then old(wipRoot) else old(currentRoot))
      ensures wipRoot.None?
      ensures wipFiber == old(wipFiber) && nextUnitOfWork == old(nextUnitOfWork) && hookIndex == old(hookIndex)
    {
      var j := 0;
      while j < |deletions|
        invariant j <= |deletions|
        invariant Valid()
        invariant |nodes| == |old(nodes)|
        invariant CommitAll(fibers, nodes, deletions[j..]) == CommitAll(fibers, old(nodes), deletions)
        invariant fibers == old(fibers) && cells == old(cells) && deletions == old(deletions) && Pointers() == old(Pointers())
      {
        assert deletions[j..][1..] == deletions[j + 1..];
        CommitWork(Some(deletions[j]));
        j := j + 1;
      }
      if wipRoot.Some? && fibers[wipRoot.value].child.Some? {
        assert LinkOk(fibers, wipRoot.value);
        CommitWork(fibers[wipRoot.value].child);
        currentRoot := wipRoot;
      }
      wipRoot := None;
    }

    /**
     * `trace` and `snaps` describe the work done from snapshot `s0` and unit
     * `first` up to now: the trace is `Traced`, it starts at `s0`, it ends at
     * the current state and the current next unit of work follows it.
     */
    ghost predicate TraceOk(snaps: seq<Snapshot>, trace: seq<nat>, comp: Components, s0: Snapshot, first: Option<nat>)
      reads this
    {
      && Traced(snaps, trace, comp, first, nextUnitOfWork)
      && snaps[0] == s0 && snaps[|trace|] == Snap()
    }

    /** One turn of the work loop: perform the next unit of work and extend the trace with it. */
    method Turn(comp: Components, ghost snaps: seq<Snapshot>, ghost trace: seq<nat>, ghost s0: Snapshot,
                ghost first: Option<nat>)
      returns (ghost snaps': seq<Snapshot>, ghost trace': seq<nat>)
      requires Valid() && nextUnitOfWork.Some? && TraceOk(snaps, trace, comp, s0, first)
      modifies this
      ensures Valid() && TraceOk(snaps', trace', comp, s0, first) && |trace'| == |trace| + 1
      ensures wipRoot == old(wipRoot) && currentRoot == old(currentRoot) && cells == old(cells)
    {
      var f := nextUnitOfWork.value;
      var next := PerformUnitOfWork(f, comp);
      TracedStep(snaps, trace, comp, first, f, Snap(), next);
      nextUnitOfWork := next;
      trace' := trace + [f];
      snaps' := snaps + [Snap()];
    }

    /**
     * The loop of `workLoop(deadline)`: perform units of work until none is
     * left or the deadline reports less than 1 ms after a unit
     * (`timeRemaining[k]` is the report after the k-th unit). The units
     * performed and the state around each are returned as a trace.
     */
    method RunUnits(comp: Components, timeRemaining: seq<int>)
      returns (units: nat, ghost trace: seq<nat>, ghost snaps: seq<Snapshot>)
      requires Valid()
      modifies this
      ensures Valid()
      ensures (units == 0) <==> old(nextUnitOfWork).None?
      ensures forall k :: 0 <= k < units - 1 ==> Probe(timeRemaining, k) >= 1
      ensures nextUnitOfWork.Some? ==> units > 0 && Probe(timeRemaining, units - 1) < 1
      ensures TraceOk(snaps, trace, comp, old(Snap()), old(nextUnitOfWork)) && |trace| == units
      ensures wipRoot == old(wipRoot) && currentRoot == old(currentRoot) && cells == old(cells)
    {
      units := 0;
      trace := [];
      snaps := [Snap()];
      var shouldYield := false;
      while nextUnitOfWork.Some? && !shouldYield
        invariant Valid()
        invariant units <= |timeRemaining| + 1
        invariant (units == 0) ==> nextUnitOfWork == old(nextUnitOfWork) && !shouldYield
        invariant units > 0 ==> old(nextUnitOfWork).Some?
        invariant forall k :: 0 <= k < units ==> (k < units - 1 || !shouldYield) ==> Probe(timeRemaining, k) >= 1
        invariant units > 0 ==> (shouldYield <==> Probe(timeRemaining, units - 1) < 1)
        invariant wipRoot == old(wipRoot) && currentRoot == old(currentRoot) && cells == old(cells)
        invariant TraceOk(snaps, trace, comp, old(Snap()), old(nextUnitOfWork)) && |trace| == units
        decreases |timeRemaining| + 1 - units, !shouldYield
      {
        snaps, trace := Turn(comp, snaps, trace, old(Snap()), old(nextUnitOfWork));
        shouldYield := Probe(timeRemaining, units) < 1;
        units := units + 1;
      }
    }

    /**
     * `workLoop(deadline)`: run units of work as `RunUnits` does; then, if
     * the whole tree is done and a root is in progress, commit it: the host
     * tree becomes what `commitRoot` makes of the state the last unit left.
     * Rescheduling is the host's.
     */
    method WorkLoop(comp: Components, timeRemaining: seq<int>)
      returns (units: nat, committed: bool, ghost trace: seq<nat>, ghost snaps: seq<Snapshot>)
      requires Valid()
      modifies this
      ensures Valid()
      ensures (units == 0) <==> old(nextUnitOfWork).None?
      ensures forall k :: 0 <= k < units - 1 ==> Probe(timeRemaining, k) >= 1
      ensures nextUnitOfWork.Some? ==> units > 0 && Probe(timeRemaining, units - 1) < 1
      ensures committed <==> nextUnitOfWork.None? && old(wipRoot).Some?
      ensures Traced(snaps, trace, comp, old(nextUnitOfWork), nextUnitOfWork)
      ensures |trace| == units && snaps[0] == old(Snap())
      ensures SnapshotOk(snaps[units]) && InArena(snaps[units].fibers, old(wipRoot))
      ensures fibers == snaps[units].fibers && deletions == snaps[units].deletions
      ensures wipFiber == snaps[units].wipFiber && hookIndex == snaps[units].hookIndex && cells == old(cells)
      ensures !committed ==> nodes == snaps[units].nodes && wipRoot == old(wipRoot) && currentRoot == old(currentRoot)
      ensures committed ==>
        && nodes == CommitRootSpec(fibers, snaps[units].nodes, deletions, old(wipRoot))
        && currentRoot == (if fibers[old(wipRoot).value].child.Some? then old(wipRoot) else old(currentRoot))
        && wipRoot.None?
    {
      units, trace, snaps := RunUnits(comp, timeRemaining);
      committed := false;
      if nextUnitOfWork.None? && wipRoot.Some? {
        CommitRoot();
        committed := true;
      }
    }

    /**
     * The hook record a hook call finds from the previous render: the one
     * at the current hook index in the hooks' fiber's alternate, if any.
     */
    function OldHook(): (h: Option<Hook>)
      reads this
      requires Valid() && wipFiber.Some?
      ensures h.Some? ==> HooksOk(Some([h.value]), |cells|)
    {
      assert LinkOk(fibers, wipFiber.value);
      var alt := fibers[wipFiber.value].alternate;
      if alt.Some? && fibers[alt.value].hooks.Some? && hookIndex < |fibers[alt.value].hooks.value| then
        assert HooksOk(fibers[alt.value].hooks, |cells|);
        Some(fibers[alt.value].hooks.value[hookIndex])
      else None
    }

    /** The hook list of the hooks' fiber. */
    function CurrentHooks(): Option<seq<Hook>>
      reads this
      requires Valid() && wipFiber.Some?
    {
      fibers[wipFiber.value].hooks
    }

    /**
     * The end of every hook call: when the hooks' fiber has a hook list,
     * the new record is pushed onto it and the hook index advances;
     * otherwise nothing changes.
     */
    method PushHook(h: Hook)
      requires Valid() && wipFiber.Some? && HooksOk(Some([h]), |cells|)
      modifies this
      ensures |fibers| == |old(fibers)| && wipFiber == old(wipFiber)
      ensures Valid()
      ensures old(CurrentHooks()).Some? ==>
        && fibers == old(fibers)[wipFiber.value := old(fibers)[wipFiber.value].(hooks := Some(old(CurrentHooks()).value + [h]))]
        && hookIndex == old(hookIndex) + 1
      ensures old(CurrentHooks()).None? ==> fibers == old(fibers) && hookIndex == old(hookIndex)
      ensures nodes == old(nodes) && cells == old(cells) && deletions == old(deletions)
      ensures wipRoot == old(wipRoot) && currentRoot == old(currentRoot) && nextUnitOfWork == old(nextUnitOfWork)
    {
      var w := wipFiber.value;
      if fibers[w].hooks.Some? {
        var hs := fibers[w].hooks.value + [h];
        var f := fibers[w].(hooks := Some(hs));
        assert LinkOk(fibers, w);
        SetKeepsLinked(fibers, w, f);
        assert HooksOk(fibers[w].hooks, |cells|);
        assert DomOk(fibers[w], |nodes|);
        assert forall j :: 0 <= j < |fibers| ==> DomOk(fibers[j], |nodes|) && HooksOk(fibers[j].hooks, |cells|);
        fibers := fibers[w := f];
        hookIndex := hookIndex + 1;
      }
    }
  }
}
