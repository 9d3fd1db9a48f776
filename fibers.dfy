/**
 * Fibers held in an arena (a sequence addressed by index), the shapes of the
 * walks the reconciler and the committer make over them, and the reference
 * definitions of what reconciling one fiber's children and committing a
 * tree do.
 */
module Fibers {
  import opened Wrappers
  import opened Values
  import opened Host

  datatype EffectTag = Placement | Update | Deletion

  /** One hook record; its kind depends on the hook that pushed it. */
  datatype Hook =
    | StateRecord(state: Value, queue: seq<Value -> Value>)
    | MemoRecord(value: Value, deps: Value)
    | EffectRecord(deps: Value)
    | RefRecord(cell: nat)

  /** A fiber; `parent`, `child`, `sibling` and `alternate` are arena indices. */
  datatype Fiber = Fiber(
    ftype: Option<FiberType>,
    props: Props,
    dom: Option<nat>,
    parent: Option<nat>,
    child: Option<nat>,
    sibling: Option<nat>,
    alternate: Option<nat>,
    effectTag: Option<EffectTag>,
    hooks: Option<seq<Hook>>)

  /** A root fiber `{ dom, props, alternate }` as `render` and `setState` build it. */
  function RootFiber(dom: Option<nat>, props: Props, alternate: Option<nat>): Fiber {
    Fiber(None, props, dom, None, None, None, alternate, None, None)
  }

  predicate InArena(fs: seq<Fiber>, n: Option<nat>) {
    n.Some? ==> n.value < |fs|
  }

  /**
   * The arena's shape: a parent comes before its children, a child and a
   * sibling after the fiber that points to them, and every link is in range.
   */
  predicate LinkOk(fs: seq<Fiber>, i: nat)
    requires i < |fs|
  {
    var f := fs[i];
    && (f.parent.Some? ==> f.parent.value < i)
    && (f.child.Some? ==> i < f.child.value < |fs|)
    && (f.sibling.Some? ==> i < f.sibling.value < |fs|)
    && InArena(fs, f.alternate)
  }

  predicate WellLinked(fs: seq<Fiber>) {
    forall i :: 0 <= i < |fs| ==> LinkOk(fs, i)
  }

  predicate HooksOk(hs: Option<seq<Hook>>, cells: nat) {
    hs.Some? ==> forall j :: 0 <= j < |hs.value| && hs.value[j].RefRecord? ==> hs.value[j].cell < cells
  }

  /** A fiber's host node exists. */
  predicate DomOk(f: Fiber, nodes: nat) {
    f.dom.Some? ==> f.dom.value < nodes
  }

  predicate DomsOk(fs: seq<Fiber>, nodes: nat) {
    forall i :: 0 <= i < |fs| ==> DomOk(fs[i], nodes)
  }

  /** Every ref cell a hook record names exists. */
  predicate RefsOk(fs: seq<Fiber>, cells: nat) {
    forall i :: 0 <= i < |fs| ==> HooksOk(fs[i].hooks, cells)
  }

  /** Ref cells named by hook records stay in range when cells are added. */
  lemma RefsOkGrow(fs: seq<Fiber>, cells: nat, cells': nat)
    requires RefsOk(fs, cells) && cells <= cells'
    ensures RefsOk(fs, cells')
  {
    forall i | 0 <= i < |fs| ensures HooksOk(fs[i].hooks, cells') {
      assert HooksOk(fs[i].hooks, cells);
    }
  }

  /** Replacing one fiber keeps the arena's shape when that fiber's own links do. */
  lemma SetKeepsLinked(fs: seq<Fiber>, i: nat, f: Fiber)
    requires WellLinked(fs) && i < |fs| && LinkOk(fs[i := f], i)
    ensures WellLinked(fs[i := f])
  {
    var fs' := fs[i := f];
    forall j | 0 <= j < |fs'| ensures LinkOk(fs', j) {
      if j != i { assert LinkOk(fs, j); }
    }
  }

  /** Appending a fiber keeps the arena's shape when the new fiber's links do. */
  lemma AppendKeepsLinked(fs: seq<Fiber>, f: Fiber)
    requires WellLinked(fs) && LinkOk(fs + [f], |fs|)
    ensures WellLinked(fs + [f])
  {
    var fs' := fs + [f];
    forall j | 0 <= j < |fs'| ensures LinkOk(fs', j) {
      if j < |fs| { assert LinkOk(fs, j); assert fs'[j] == fs[j]; }
    }
  }

  /** Two arenas whose fibers have the same links are shaped alike. */
  lemma SameLinksKeepLinked(fs: seq<Fiber>, r: seq<Fiber>)
    requires WellLinked(fs) && |r| == |fs|
    requires forall j :: 0 <= j < |fs| ==>
      (r[j].parent == fs[j].parent && r[j].child == fs[j].child
       && r[j].sibling == fs[j].sibling && r[j].alternate == fs[j].alternate)
    ensures WellLinked(r)
  {
    forall j | 0 <= j < |r| ensures LinkOk(r, j) {
      assert LinkOk(fs, j);
    }
  }

  // ---------------------------------------------------------------- chains

  /** The sibling chain that starts at `start`. */
  function Chain(fs: seq<Fiber>, start: Option<nat>): (c: seq<nat>)
    requires WellLinked(fs)
    decreases if start.Some? && start.value < |fs| then |fs| - start.value else 0
  {
    if start.Some? && start.value < |fs| then
      assert LinkOk(fs, start.value);
      [start.value] + Chain(fs, fs[start.value].sibling)
    else []
  }

  /** A chain is strictly increasing, starts at its start and stays in the arena. */
  lemma {:induction false} ChainIncreasing(fs: seq<Fiber>, start: Option<nat>)
    requires WellLinked(fs) && InArena(fs, start)
    ensures var c := Chain(fs, start);
      && (forall a :: 0 <= a < |c| ==> c[a] < |fs|)
      && (forall a, b :: 0 <= a < b < |c| ==> c[a] < c[b])
      && (start.None? <==> c == [])
      && (start.Some? ==> c[0] == start.value)
    decreases if start.Some? then |fs| - start.value else 0
  {
    if start.Some? {
      var i := start.value;
      assert LinkOk(fs, i);
      var sib := fs[i].sibling;
      ChainIncreasing(fs, sib);
      var rest := Chain(fs, sib);
      assert Chain(fs, start) == [i] + rest;
      assert forall a :: 0 <= a < |rest| ==> i < rest[a] by {
        if rest != [] {
          assert rest[0] == sib.value;
          forall a | 0 <= a < |rest| ensures i < rest[a] {
            if a > 0 { assert rest[0] < rest[a]; }
          }
        }
      }
    }
  }

  /** Each fiber of a chain links by `sibling` to the next one, and the last to none. */
  lemma {:induction false} ChainLinks(fs: seq<Fiber>, start: Option<nat>)
    requires WellLinked(fs) && InArena(fs, start)
    ensures var c := Chain(fs, start);
      forall a :: 0 <= a < |c| ==>
        && c[a] < |fs|
        && (a + 1 < |c| ==> fs[c[a]].sibling == Some(c[a + 1]))
        && (a + 1 == |c| ==> fs[c[a]].sibling.None?)
    decreases if start.Some? then |fs| - start.value else 0
  {
    if start.Some? {
      var i := start.value;
      assert LinkOk(fs, i);
      var sib := fs[i].sibling;
      ChainIncreasing(fs, sib);
      ChainLinks(fs, sib);
      var rest := Chain(fs, sib);
      assert Chain(fs, start) == [i] + rest;
    }
  }

  /** Fibers a, a+1, ..., b-1 linked by `sibling` in that order form one chain. */
  lemma {:induction false} ChainOfRun(fs: seq<Fiber>, a: nat, b: nat)
    requires WellLinked(fs) && a < b <= |fs|
    requires forall k :: a <= k < b ==> fs[k].sibling == (if k + 1 < b then Some(k + 1) else None)
    ensures Chain(fs, Some(a)) == seq(b - a, i requires 0 <= i < b - a => a + i)
    decreases b - a
  {
    if a + 1 < b {
      ChainOfRun(fs, a + 1, b);
    }
  }

  // ------------------------------------------------------ walks up and down

  /** Up follows `parent`, Down follows `child`. */
  datatype Dir = Up | Down

  function Step(fs: seq<Fiber>, i: nat, d: Dir): Option<nat>
    requires i < |fs|
  {
    if d == Up then fs[i].parent else fs[i].child
  }

  /** The fiber `k` steps from `n` in direction `d` (k = 0 is `n` itself). */
  function Walk(fs: seq<Fiber>, n: Option<nat>, d: Dir, k: nat): (r: Option<nat>)
    requires WellLinked(fs) && InArena(fs, n)
    ensures InArena(fs, r)
  {
    if k == 0 then n
    else
      var w := Walk(fs, n, d, k - 1);
      if w.Some? then assert LinkOk(fs, w.value); Step(fs, w.value, d) else None
  }

  function Measure(fs: seq<Fiber>, n: Option<nat>, d: Dir): nat {
    if n.None? || n.value >= |fs| then 0 else if d == Up then n.value + 1 else |fs| - n.value
  }

  /** The first fiber on the walk from `n` in direction `d` satisfying `p`. */
  function FirstOn(fs: seq<Fiber>, n: Option<nat>, d: Dir, p: Fiber -> bool): (r: Option<nat>)
    requires WellLinked(fs) && InArena(fs, n)
    ensures InArena(fs, r)
    ensures r.Some? ==> p(fs[r.value])
    decreases Measure(fs, n, d)
  {
    if n.None? then None
    else if p(fs[n.value]) then n
    else
      assert LinkOk(fs, n.value);
      FirstOn(fs, Step(fs, n.value, d), d, p)
  }

  predicate HasDom(f: Fiber) { f.dom.Some? }

  predicate HasSibling(f: Fiber) { f.sibling.Some? }

  /** Every fiber strictly before step `k` of the walk exists and fails `p`. */
  predicate ClearBefore(fs: seq<Fiber>, n: Option<nat>, d: Dir, p: Fiber -> bool, k: nat)
    requires WellLinked(fs) && InArena(fs, n)
  {
    forall j :: 0 <= j < k ==> Walk(fs, n, d, j).Some? && !p(fs[Walk(fs, n, d, j).value])
  }

  lemma {:induction false} WalkShift(fs: seq<Fiber>, i: nat, d: Dir, k: nat)
    requires WellLinked(fs) && i < |fs|
    ensures (assert LinkOk(fs, i); Walk(fs, Some(i), d, k + 1) == Walk(fs, Step(fs, i, d), d, k))
  {
    assert LinkOk(fs, i);
    if k > 0 {
      WalkShift(fs, i, d, k - 1);
    }
  }

  /**
   * `FirstOn` finds the nearest fiber on the walk that satisfies `p`: every
   * fiber before it fails `p`; when it finds none, no fiber on the walk
   * satisfies `p`.
   */
  lemma {:induction false} FirstOnSpec(fs: seq<Fiber>, n: Option<nat>, d: Dir, p: Fiber -> bool)
    requires WellLinked(fs) && InArena(fs, n)
    ensures var r := FirstOn(fs, n, d, p);
      && (r.Some? ==> p(fs[r.value]) && exists k: nat :: Walk(fs, n, d, k) == r && ClearBefore(fs, n, d, p, k))
      && (r.None? ==> forall k: nat :: Walk(fs, n, d, k).Some? ==> !p(fs[Walk(fs, n, d, k).value]))
    decreases Measure(fs, n, d)
  {
    if n.None? {
      forall k: nat ensures Walk(fs, n, d, k).None? {
        WalkNone(fs, d, k);
      }
    } else if p(fs[n.value]) {
      assert Walk(fs, n, d, 0) == n && ClearBefore(fs, n, d, p, 0);
    } else {
      var i := n.value;
      assert LinkOk(fs, i);
      var s := Step(fs, i, d);
      FirstOnSpec(fs, s, d, p);
      var r := FirstOn(fs, s, d, p);
      assert FirstOn(fs, n, d, p) == r;
      if r.Some? {
        var k: nat :| Walk(fs, s, d, k) == r && ClearBefore(fs, s, d, p, k);
        WalkShift(fs, i, d, k);
        forall j | 0 <= j < k + 1
          ensures Walk(fs, n, d, j).Some? && !p(fs[Walk(fs, n, d, j).value])
        {
          if j > 0 { WalkShift(fs, i, d, j - 1); }
        }
        assert ClearBefore(fs, n, d, p, k + 1);
      } else {
        forall k: nat | Walk(fs, n, d, k).Some? ensures !p(fs[Walk(fs, n, d, k).value]) {
          if k > 0 { WalkShift(fs, i, d, k - 1); }
        }
      }
    }
  }

  lemma {:induction false} WalkNone(fs: seq<Fiber>, d: Dir, k: nat)
    requires WellLinked(fs)
    ensures Walk(fs, None, d, k).None?
  {
    if k > 0 { WalkNone(fs, d, k - 1); }
  }

  /**
   * The unit of work after `f`: its child if any, otherwise the sibling of the
   * nearest ancestor-or-self that has one, otherwise none.
   */
  function Successor(fs: seq<Fiber>, f: nat): (r: Option<nat>)
    requires WellLinked(fs) && f < |fs|
    ensures InArena(fs, r)
  {
    assert LinkOk(fs, f);
    if fs[f].child.Some? then fs[f].child
    else
      var a := FirstOn(fs, Some(f), Up, HasSibling);
      if a.Some? then assert LinkOk(fs, a.value); fs[a.value].sibling else None
  }

  /**
   * `performUnitOfWork`'s answer: the child when there is one; else the
   * sibling of some ancestor-or-self `k` parent steps up, where no fiber
   * below it on the parent chain has a sibling; else none, and then no fiber
   * on the parent chain has a sibling.
   */
  lemma SuccessorSpec(fs: seq<Fiber>, f: nat)
    requires WellLinked(fs) && f < |fs|
    ensures var r := Successor(fs, f);
      && (fs[f].child.Some? ==> r == fs[f].child)
      && (fs[f].child.None? && r.Some? ==>
            exists k: nat :: Walk(fs, Some(f), Up, k).Some?
              && fs[Walk(fs, Some(f), Up, k).value].sibling == r
              && ClearBefore(fs, Some(f), Up, HasSibling, k))
      && (fs[f].child.None? && r.None? ==>
            forall k: nat :: Walk(fs, Some(f), Up, k).Some? ==> fs[Walk(fs, Some(f), Up, k).value].sibling.None?)
  {
    FirstOnSpec(fs, Some(f), Up, HasSibling);
  }

  // ------------------------------------------------------------------ commit

  /**
   * The host node `commitWork` inserts into: the dom of the nearest proper
   * ancestor that has one, every ancestor in between having none; none
   * exactly when no proper ancestor has a dom.
   */
  function HostParentDom(fs: seq<Fiber>, i: nat): (r: Option<nat>)
    requires WellLinked(fs) && i < |fs|
    ensures (assert LinkOk(fs, i);
      r.Some? ==> exists k: nat :: (Walk(fs, fs[i].parent, Up, k).Some?
        && fs[Walk(fs, fs[i].parent, Up, k).value].dom == r
        && ClearBefore(fs, fs[i].parent, Up, HasDom, k)))
    ensures (assert LinkOk(fs, i);
      r.None? ==> forall k: nat :: Walk(fs, fs[i].parent, Up, k).Some? ==> fs[Walk(fs, fs[i].parent, Up, k).value].dom.None?)
  {
    assert LinkOk(fs, i);
    FirstOnSpec(fs, fs[i].parent, Up, HasDom);
    var a := FirstOn(fs, fs[i].parent, Up, HasDom);
    if a.Some? then fs[a.value].dom else None
  }

  /**
   * The fiber whose dom `commitDeletion` removes: the first with a dom on the
   * first-child path from the fiber itself, every fiber before it having none;
   * none exactly when no fiber on that path has a dom.
   */
  function DeletionTarget(fs: seq<Fiber>, i: nat): (r: Option<nat>)
    requires WellLinked(fs) && i < |fs|
    ensures InArena(fs, r)
    ensures r.Some? ==> (fs[r.value].dom.Some?
      && exists k: nat :: Walk(fs, Some(i), Down, k) == r && ClearBefore(fs, Some(i), Down, HasDom, k))
    ensures r.None? ==> forall k: nat :: Walk(fs, Some(i), Down, k).Some? ==> fs[Walk(fs, Some(i), Down, k).value].dom.None?
  {
    FirstOnSpec(fs, Some(i), Down, HasDom);
    FirstOn(fs, Some(i), Down, HasDom)
  }

  /** `commitDeletion(domParent, fiber)` on the host. */
  ghost function CommitDeletionSpec(fs: seq<Fiber>, ns: seq<HostNode>, domParent: nat, i: nat): (r: seq<HostNode>)
    requires WellLinked(fs) && HostOk(ns) && DomsOk(fs, |ns|) && i < |fs| && domParent < |ns|
    ensures HostOk(r) && |r| == |ns|
  {
    var t := DeletionTarget(fs, i);
    if t.Some? then
      assert DomOk(fs[t.value], |ns|);
      RemoveChild(ns, domParent, fs[t.value].dom.value)
    else ns
  }

  /** What `commitWork` does for fiber `i` itself, before visiting its child and sibling. */
  ghost function CommitOne(fs: seq<Fiber>, ns: seq<HostNode>, i: nat): (r: seq<HostNode>)
    requires WellLinked(fs) && HostOk(ns) && DomsOk(fs, |ns|) && i < |fs|
    ensures HostOk(r) && |r| == |ns|
  {
    var f := fs[i];
    var dp := HostParentDom(fs, i);
    assert DomOk(f, |ns|);
    assert dp.Some? ==> dp.value < |ns| by {
      assert LinkOk(fs, i);
      var a := FirstOn(fs, fs[i].parent, Up, HasDom);
      if a.Some? { assert DomOk(fs[a.value], |ns|); }
    }
    if f.effectTag == Some(Placement) && f.dom.Some? && dp.Some? then
      AppendChild(ns, dp.value, f.dom.value)
    else if f.effectTag == Some(Update) && f.dom.Some? && f.alternate.Some? then
      assert LinkOk(fs, i);
      var d := f.dom.value;
      var r := ns[d := UpdatedNode(ns[d], fs[f.alternate.value].props.attrs, f.props.attrs)];
      assert forall j :: 0 <= j < |r| ==> r[j].children == ns[j].children && r[j].parent == ns[j].parent;
      assert forall j :: 0 <= j < |r| ==> NodeOk(ns[j], |ns|);
      r
    else if f.effectTag == Some(Deletion) && dp.Some? then
      CommitDeletionSpec(fs, ns, dp.value, i)
    else ns
  }

  /** `commitWork(fiber)`: the fiber's own effect, then its child's subtree, then its siblings'. */
  ghost function CommitWorkSpec(fs: seq<Fiber>, ns: seq<HostNode>, n: Option<nat>): (r: seq<HostNode>)
    requires WellLinked(fs) && HostOk(ns) && DomsOk(fs, |ns|) && InArena(fs, n)
    ensures HostOk(r) && |r| == |ns|
    decreases if n.Some? then |fs| - n.value else 0
  {
    if n.None? then ns
    else
      var i := n.value;
      assert LinkOk(fs, i);
      var ns1 := CommitOne(fs, ns, i);
      var ns2 := CommitWorkSpec(fs, ns1, fs[i].child);
      CommitWorkSpec(fs, ns2, fs[i].sibling)
  }

  /** `deletions.forEach(commitWork)`. */
  ghost function CommitAll(fs: seq<Fiber>, ns: seq<HostNode>, dels: seq<nat>): (r: seq<HostNode>)
    requires WellLinked(fs) && HostOk(ns) && DomsOk(fs, |ns|)
    requires forall j :: 0 <= j < |dels| ==> dels[j] < |fs|
    ensures HostOk(r) && |r| == |ns|
    decreases |dels|
  {
    if dels == [] then ns
    else CommitAll(fs, CommitWorkSpec(fs, ns, Some(dels[0])), dels[1..])
  }

  /**
   * A Placement fiber with a host node under a host ancestor: committing it
   * makes its node the last child of `HostParentDom`'s node, with that node
   * as parent, and no other node lists it; kinds and attributes stay.
   */
  lemma PlacementAppendsLast(fs: seq<Fiber>, ns: seq<HostNode>, i: nat)
    requires WellLinked(fs) && HostOk(ns) && DomsOk(fs, |ns|) && i < |fs| && ParentsAgree(ns)
    requires fs[i].effectTag == Some(Placement) && fs[i].dom.Some? && HostParentDom(fs, i).Some?
    requires HostParentDom(fs, i) != fs[i].dom
    ensures var r := CommitOne(fs, ns, i);
      var p, c := HostParentDom(fs, i).value, fs[i].dom.value;
      && p < |r| && c < |r|
      && r[c].parent == Some(p)
      && |r[p].children| > 0 && r[p].children[|r[p].children| - 1] == c
      && (forall j :: 0 <= j < |r| && j != p ==> c !in r[j].children)
      && (forall j :: 0 <= j < |r| ==> r[j].kind == ns[j].kind && r[j].attrs == ns[j].attrs)
  {
    var p, c := HostParentDom(fs, i).value, fs[i].dom.value;
    assert DomOk(fs[i], |ns|);
    assert p < |ns| by {
      assert LinkOk(fs, i);
      var a := FirstOn(fs, fs[i].parent, Up, HasDom);
      assert DomOk(fs[a.value], |ns|);
    }
    AppendChildPlacesLast(ns, p, c);
  }

  /**
   * A Deletion fiber under a host ancestor whose `DeletionTarget` node is a
   * child of that ancestor's node: committing it takes the node out of the
   * parent's children and leaves it without a parent; the parent's other
   * children stay.
   */
  lemma DeletionDetachesTarget(fs: seq<Fiber>, ns: seq<HostNode>, i: nat)
    requires WellLinked(fs) && HostOk(ns) && DomsOk(fs, |ns|) && i < |fs|
    requires fs[i].effectTag == Some(Deletion) && HostParentDom(fs, i).Some? && DeletionTarget(fs, i).Some?
    requires var p, t := HostParentDom(fs, i).value, DeletionTarget(fs, i).value;
      p < |ns| && fs[t].dom.value != p && fs[t].dom.value in ns[p].children
    ensures var r := CommitOne(fs, ns, i);
      var p, c := HostParentDom(fs, i).value, fs[DeletionTarget(fs, i).value].dom.value;
      && c < |r| && c !in r[p].children && r[c].parent.None?
      && (forall y :: y in ns[p].children && y != c ==> y in r[p].children)
  {
    var p, t := HostParentDom(fs, i).value, DeletionTarget(fs, i).value;
    assert DomOk(fs[t], |ns|);
    RemoveChildDetaches(ns, p, fs[t].dom.value);
  }

  /** Committing one fiber keeps child lists and parent links in agreement. */
  lemma CommitOneKeepsAgree(fs: seq<Fiber>, ns: seq<HostNode>, i: nat)
    requires WellLinked(fs) && HostOk(ns) && DomsOk(fs, |ns|) && i < |fs| && ParentsAgree(ns)
    ensures ParentsAgree(CommitOne(fs, ns, i))
  {
    var f := fs[i];
    var dp := HostParentDom(fs, i);
    assert DomOk(f, |ns|);
    assert dp.Some? ==> dp.value < |ns| by {
      assert LinkOk(fs, i);
      var a := FirstOn(fs, fs[i].parent, Up, HasDom);
      if a.Some? { assert DomOk(fs[a.value], |ns|); }
    }
    var r := CommitOne(fs, ns, i);
    if f.effectTag == Some(Placement) && f.dom.Some? && dp.Some? {
      AppendChildKeepsAgree(ns, dp.value, f.dom.value);
    } else if f.effectTag == Some(Update) && f.dom.Some? && f.alternate.Some? {
      assert forall j :: 0 <= j < |r| ==> r[j].children == ns[j].children && r[j].parent == ns[j].parent;
    } else if f.effectTag == Some(Deletion) && dp.Some? {
      var t := DeletionTarget(fs, i);
      if t.Some? {
        assert DomOk(fs[t.value], |ns|);
        RemoveChildKeepsAgree(ns, dp.value, fs[t.value].dom.value);
      }
    }
  }

  /** `commitWork` keeps child lists and parent links in agreement. */
  lemma {:induction false} CommitWorkKeepsAgree(fs: seq<Fiber>, ns: seq<HostNode>, n: Option<nat>)
    requires WellLinked(fs) && HostOk(ns) && DomsOk(fs, |ns|) && InArena(fs, n) && ParentsAgree(ns)
    ensures ParentsAgree(CommitWorkSpec(fs, ns, n))
    decreases if n.Some? then |fs| - n.value else 0
  {
    if n.Some? {
      var i := n.value;
      assert LinkOk(fs, i);
      CommitOneKeepsAgree(fs, ns, i);
      var ns1 := CommitOne(fs, ns, i);
      CommitWorkKeepsAgree(fs, ns1, fs[i].child);
      CommitWorkKeepsAgree(fs, CommitWorkSpec(fs, ns1, fs[i].child), fs[i].sibling);
    }
  }

  /** Committing the deletion queue keeps child lists and parent links in agreement. */
  lemma {:induction false} CommitAllKeepsAgree(fs: seq<Fiber>, ns: seq<HostNode>, dels: seq<nat>)
    requires WellLinked(fs) && HostOk(ns) && DomsOk(fs, |ns|) && ParentsAgree(ns)
    requires forall j :: 0 <= j < |dels| ==> dels[j] < |fs|
    ensures ParentsAgree(CommitAll(fs, ns, dels))
    decreases |dels|
  {
    if dels != [] {
      CommitWorkKeepsAgree(fs, ns, Some(dels[0]));
      CommitAllKeepsAgree(fs, CommitWorkSpec(fs, ns, Some(dels[0])), dels[1..]);
    }
  }

  /**
   * An old parent fiber 0 on host node 0 whose two children, fibers 1 and 2
   * on host nodes 1 and 2, are adjacent siblings both queued for deletion:
   * what reconciling `[A, B, C]` against `[A']` leaves of `B` and `C`.
   */
  function TwoDeletedSiblings(): (fs: seq<Fiber>)
    ensures WellLinked(fs) && DomsOk(fs, 3) && |fs| == 3
  {
    var none := Props(map[], []);
    [ Fiber(Some(HostKind("div")), none, Some(0), None, Some(1), None, None, None, None),
      Fiber(Some(HostKind("p")), none, Some(1), Some(0), None, Some(2), None, Some(Deletion), None),
      Fiber(Some(HostKind("p")), none, Some(2), Some(0), None, None, None, Some(Deletion), None) ]
  }

  /** Host node 0 with host nodes 1 and 2 as its children. */
  function TwoChildHost(): (ns: seq<HostNode>)
    ensures HostOk(ns) && ParentsAgree(ns) && |ns| == 3
  {
    [ HostNode(ElementNode("div"), map[], {}, [1, 2], None),
      HostNode(ElementNode("p"), map[], {}, [], Some(0)),
      HostNode(ElementNode("p"), map[], {}, [], Some(0)) ]
  }

  /**
   * `commitWork` on the first of two adjacent deleted siblings walks on to
   * the second and removes its host node too; so when the deletion queue
   * reaches the second, the node it removes from host node 0 is no longer
   * a child of it (where the DOM's `removeChild` throws).
   */
  lemma AdjacentDeletionsDetachEarly()
    ensures var fs, ns := TwoDeletedSiblings(), TwoChildHost();
      var ns1 := CommitWorkSpec(fs, ns, Some(1));
      && fs[1].effectTag == Some(Deletion) && fs[2].effectTag == Some(Deletion) && fs[1].sibling == Some(2)
      && HostParentDom(fs, 2) == Some(0) && DeletionTarget(fs, 2) == Some(2) && fs[2].dom == Some(2)
      && 2 in ns[0].children && 2 !in ns1[0].children
  {
    var fs, ns := TwoDeletedSiblings(), TwoChildHost();
    assert FirstOn(fs, Some(0), Up, HasDom) == Some(0);
    assert HostParentDom(fs, 1) == Some(0) && HostParentDom(fs, 2) == Some(0);
    assert DeletionTarget(fs, 1) == Some(1) && DeletionTarget(fs, 2) == Some(2);
    var a := RemoveChild(ns, 0, 1);
    assert a[0].children == [2] by {
      assert [1, 2][1..] == [2];
    }
    assert CommitOne(fs, ns, 1) == a;
    assert CommitWorkSpec(fs, a, None) == a;
    var b := RemoveChild(a, 0, 2);
    assert b[0].children == [];
    assert CommitOne(fs, a, 2) == b;
    assert CommitWorkSpec(fs, b, None) == b;
    assert CommitWorkSpec(fs, a, Some(2)) == b;
  }

  /** Every fiber `commitWork` visits from `n` is untagged or tagged Update. */
  predicate UpdatesOnly(fs: seq<Fiber>, n: Option<nat>)
    requires WellLinked(fs) && InArena(fs, n)
    decreases if n.Some? then |fs| - n.value else 0
  {
    n.Some? ==>
      assert LinkOk(fs, n.value);
      && (fs[n.value].effectTag.None? || fs[n.value].effectTag == Some(Update))
      && UpdatesOnly(fs, fs[n.value].child)
      && UpdatesOnly(fs, fs[n.value].sibling)
  }

  /** Two host trees with the same nodes, kinds, child lists and parents. */
  predicate SameShape(a: seq<HostNode>, b: seq<HostNode>) {
    |a| == |b|
    && forall j :: 0 <= j < |a| ==>
         a[j].kind == b[j].kind && a[j].children == b[j].children && a[j].parent == b[j].parent
  }

  /** Committing a tree of updates only rewrites attributes and listeners: no node moves. */
  lemma {:induction false} UpdatesKeepShape(fs: seq<Fiber>, ns: seq<HostNode>, n: Option<nat>)
    requires WellLinked(fs) && HostOk(ns) && DomsOk(fs, |ns|) && InArena(fs, n)
    requires UpdatesOnly(fs, n)
    ensures SameShape(CommitWorkSpec(fs, ns, n), ns)
    decreases if n.Some? then |fs| - n.value else 0
  {
    if n.Some? {
      var i := n.value;
      assert LinkOk(fs, i);
      var ns1 := CommitOne(fs, ns, i);
      assert SameShape(ns1, ns);
      UpdatesKeepShape(fs, ns1, fs[i].child);
      var ns2 := CommitWorkSpec(fs, ns1, fs[i].child);
      UpdatesKeepShape(fs, ns2, fs[i].sibling);
    }
  }

  // -------------------------------------------------------------- reconcile

  /** The previous generation's children of `wip`: the chain from `wip.alternate.child`. */
  function OldChildren(fs: seq<Fiber>, wip: nat): seq<nat>
    requires WellLinked(fs) && wip < |fs|
  {
    assert LinkOk(fs, wip);
    match fs[wip].alternate
    case None => []
    case Some(a) => Chain(fs, fs[a].child)
  }

  predicate ChainIn(fs: seq<Fiber>, prior: seq<nat>) {
    forall j :: 0 <= j < |prior| ==> prior[j] < |fs|
  }

  /** Position `i` keeps its fiber: an prior fiber there has the new element's type. */
  predicate SameTypeAt(fs: seq<Fiber>, es: seq<Element>, prior: seq<nat>, i: nat)
    requires ChainIn(fs, prior) && i < |prior|
  {
    i < |es| && fs[prior[i]].ftype == Some(es[i].etype)
  }

  /** The prior fibers among the first `j` positions that find no same-type element, in chain order. */
  function Unmatched(fs: seq<Fiber>, es: seq<Element>, prior: seq<nat>, j: nat): seq<nat>
    requires ChainIn(fs, prior) && j <= |prior|
  {
    if j == 0 then []
    else Unmatched(fs, es, prior, j - 1) + (if SameTypeAt(fs, es, prior, j - 1) then [] else [prior[j - 1]])
  }

  /** The fiber reconciliation builds for element `i`, with the given sibling link. */
  function NewFiber(fs: seq<Fiber>, wip: nat, es: seq<Element>, prior: seq<nat>, i: nat, sib: Option<nat>): Fiber
    requires ChainIn(fs, prior) && i < |es|
  {
    if i < |prior| && SameTypeAt(fs, es, prior, i) then
      Fiber(fs[prior[i]].ftype, es[i].props, fs[prior[i]].dom, Some(wip), None, sib, Some(prior[i]), Some(Update), None)
    else
      Fiber(Some(es[i].etype), es[i].props, None, Some(wip), None, sib, None, Some(Placement), None)
  }

  /**
   * Old fiber `k` once the first `j` prior positions are compared: tagged
   * Deletion when unmatched; and, for `wip` once the loop has started, its
   * child set to the first new fiber (or none when there are no elements).
   */
  function Retagged(fs: seq<Fiber>, wip: nat, es: seq<Element>, prior: seq<nat>, k: nat, j: nat, started: bool): Fiber
    requires ChainIn(fs, prior) && k < |fs| && j <= |prior|
  {
    var f := if k in Unmatched(fs, es, prior, j) then fs[k].(effectTag := Some(Deletion)) else fs[k];
    if k == wip && started then f.(child := if |es| > 0 then Some(|fs|) else None) else f
  }

  /**
   * Exactly the prior fibers at positions with no same-type element (every
   * position past the new list among them) are unmatched, and they are
   * listed in chain order, each once.
   */
  lemma {:induction false} UnmatchedExactly(fs: seq<Fiber>, es: seq<Element>, prior: seq<nat>, j: nat)
    requires ChainIn(fs, prior) && j <= |prior|
    requires forall a, b :: 0 <= a < b < |prior| ==> prior[a] < prior[b]
    ensures var u := Unmatched(fs, es, prior, j);
      && (forall i :: 0 <= i < j ==> (prior[i] in u <==> !SameTypeAt(fs, es, prior, i)))
      && (forall i :: |es| <= i < j ==> prior[i] in u)
      && (forall x :: x in u ==> x in prior[..j])
      && (forall a, b :: 0 <= a < b < |u| ==> u[a] < u[b])
  {
    if j > 0 {
      UnmatchedExactly(fs, es, prior, j - 1);
      var u0 := Unmatched(fs, es, prior, j - 1);
      forall x | x in u0 ensures x < prior[j - 1] {
        var i :| 0 <= i < j - 1 && prior[..j - 1][i] == x;
      }
      forall i | 0 <= i < j - 1 ensures prior[i] != prior[j - 1] {
      }
      var u := Unmatched(fs, es, prior, j);
      forall a, b | 0 <= a < b < |u| ensures u[a] < u[b] {
        if b >= |u0| {
          assert u[a] == u0[a] && u0[a] in u0;
        }
      }
    }
  }

  /** Re-reconciling the same types position by position deletes nothing and updates every fiber. */
  lemma {:induction false} SameTypesDeleteNothing(fs: seq<Fiber>, wip: nat, es: seq<Element>, prior: seq<nat>, j: nat)
    requires ChainIn(fs, prior) && j <= |prior| && |es| == |prior|
    requires forall i :: 0 <= i < |prior| ==> fs[prior[i]].ftype == Some(es[i].etype)
    ensures Unmatched(fs, es, prior, j) == []
    ensures forall i, sib :: 0 <= i < |es| ==> NewFiber(fs, wip, es, prior, i, sib).effectTag == Some(Update)
  {
    if j > 0 {
      SameTypesDeleteNothing(fs, wip, es, prior, j - 1);
    }
  }
}
