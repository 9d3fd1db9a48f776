# A Dafny model of the Didact fiber reconciler and its hooks

Didact is a small React-like library. Application code describes a UI as a
tree of elements (`createElement`, `createTextElement`, `toChildArray`).
`render` installs a work-in-progress root fiber. `workLoop` then performs one
unit of work at a time until the host's idle deadline runs out.

- A unit of work (`performUnitOfWork`) handles one fiber:
  - a function-component fiber is rendered (`updateFunctionComponent`);
  - any other fiber gets a host node (`updateHostComponent`, `createDom`).
- Each unit reconciles the fiber's children against the previous
  generation (`reconcileChildren`). Matching is by position and type. Each new
  fiber is tagged Placement or Update, and the old fibers that found no match
  are queued for deletion.
- The unit then returns the depth-first successor.
- Once no work is left, `commitRoot` commits the tree:
  - it applies the queued deletions;
  - it applies the new tree's effects to the host tree (`commitWork`,
    `commitDeletion`, `updateDom`).
- Function components keep state across renders in positional hook records:
  `useState`, `useMemo`, `useEffect`, `useRef` and `useCallback`.

## How the model is built

- Fibers live in an arena `seq<Fiber>` addressed by index. Their `parent`,
  `child`, `sibling` and `alternate` links are `Option<nat>`. The arena
  invariant `Fibers.WellLinked` says:
  - a parent comes before its children;
  - a child and a sibling come after the fiber that points to them.
  This gives termination of every walk and every recursion over the tree.
- The singleton `DidactState` is the class `Core.DidactState`. Besides the
  source's fields it holds three arenas:
  - `fibers`;
  - `nodes`, an abstract host tree of nodes with a kind, an attribute map, a
    listener set, a child list and a parent;
  - `cells`, the `{ current }` objects of `useRef`.
- Each method that changes state is proved to keep `Valid()`: the arena
  invariant plus every index in range. It gives its new state either field by
  field or as a ghost function of the old state:
  - a unit of work gives `UnitSpec` of the old snapshot (fibers, host nodes,
    deletion queue, hooks' fiber and hook index) and the successor;
  - a commit gives `CommitRootSpec` and its parts.
- Every loop of the source is a `while` loop. Most are proved against a
  reference function; `workLoop`'s loop is proved against a trace:
  - `workLoop`'s loop against `Traced`, a ghost trace of the units run. Each
    snapshot is `UnitSpec` of the one before and each unit is the `Successor`
    of the one before;
  - `reconcileChildren` against `Reconciled`;
  - the successor search against `Successor`;
  - the host-parent climb against `HostParentDom`;
  - the four `updateDom` passes against `UpdatedNode`;
  - `toChildArray` against `Flatten`;
  - the `useState` replay against `Replay`;
  - `commitRoot`'s deletion loop against `CommitAll`.
- The recursive commits are proved against recursive ghost functions
  (`CommitWorkSpec`, `CommitDeletionSpec`).
- The quirks of the code are kept:
  - `commitWork` looks for the host parent starting at the fiber's parent.
  - `commitDeletion` follows only first children.
  - `commitWork` still descends into the child and the sibling of a
    Deletion-tagged fiber, which are old fibers. So of two adjacent deleted
    siblings the second is detached while the first is committed, and its own
    queue entry then removes a node that is no longer a child
    (`Fibers.AdjacentDeletionsDetachEarly`; see `Host.RemoveChild` under
    "Left out").
  - `commitRoot` makes the root current only when it has a child.
  - `commitRoot` leaves the deletion queue as it is; the code clears only the
    root.
- Every commit keeps the host tree's links in range (`HostOk`). The commit
  lemmas also show that a commit keeps `ParentsAgree`: every child list agrees
  with the parent links.

## Model

| member | source | states |
|---|---|---|
| `Helper.Get` | src/Helper.ts:3 | `obj[key]` is the stored value for a present key and `undefined` for an absent one |
| `Helper.IsNew` | src/Helper.ts:3 | a key in both maps is new exactly when its values differ; a key on one side only is new exactly when its value there is not `undefined`; a key in neither is not new |
| `Helper.IsGone` | src/Helper.ts:4 | a gone key reads as `undefined` in `next`; a key that is not gone is a key of `next` |
| `Helper.IsEvent` | src/Helper.ts:1 | a key is an event key exactly when it is `"on"` followed by some string |
| `Helper.IsProperty` | src/Helper.ts:2 | a key is a plain property exactly when it is not `"children"` and not an event key |
| `Helper.EventAndPropertyDisjoint` | src/Helper.ts:1-2 | no key is both an event and a property; `"children"` is neither |
| `Helper.AbsentThenDefinedIsNew` | src/Helper.ts:3 | a key missing from `prev` and defined in `next` counts as new |
| `Helper.SameValueIsNotNew` | src/Helper.ts:3 | a key with the same value in both maps is not new |
| `Helper.GoneIgnoresValues` | src/Helper.ts:4 | `isGone` depends only on the key set of `next`, not on any value and not on `prev` |
| `Elements.Flatten` | src/core.ts:17-28 | flattening leaves only leaves: no null, undefined, boolean or array survives |
| `Elements.FlattenAll` | src/core.ts:20-23 | flattening every member of an array leaves only leaves |
| `Elements.FlattenAllAppend` | src/core.ts:21-23 | flattening a concatenation is the concatenation of the flattenings, so left-to-right order is kept |
| `Elements.FlattenOfLeaves` | src/core.ts:24-26 | a list of leaves flattens to itself |
| `Elements.FlattenIdempotent` | src/core.ts:17-28 | flattening twice gives the same list as flattening once |
| `Elements.ToChildArray` | src/core.ts:17-28 | the recursive loop appends to `out` exactly the flattening of `children` |
| `Elements.CreateTextElement` | src/core.ts:47-55 | a text element with `nodeValue` equal to the text and no children |
| `Elements.CreateElement` | src/core.ts:30-45 | the element keeps the type and every attribute except `children`; its children are the flattened children in order, an element child is kept as is and any other leaf is wrapped in a text element |
| `Host.AppendChild` | src/core.ts:148 | `appendChild` keeps the host tree's links in range and its size |
| `Host.AppendChildPlacesLast` | src/core.ts:148 | the appended node becomes the last child of the new parent and no other parent's child; kinds and attributes are unchanged |
| `Host.RemoveChild` | src/core.ts:169 | `removeChild` keeps the host tree's links in range and its size |
| `Host.RemoveChildDetaches` | src/core.ts:169 | the removed node leaves the parent's child list and has no parent; the other children stay |
| `Host.AppendChildKeepsAgree` | src/core.ts:148 | `appendChild` keeps every child list in agreement with the parent links |
| `Host.RemoveChildKeepsAgree` | src/core.ts:169 | `removeChild` keeps every child list in agreement with the parent links |
| `Host.EventType` | src/core.ts:77-79 | the event type of an `on*` key is the key without its first two characters, lower-cased: same length, each character the lower-case of the key's character two places on, and no upper-case letter left |
| `Host.AddListener` | src/core.ts:110-113 | `addEventListener` adds the registration, except that a null or undefined callback is ignored |
| `Host.RemoveOldListeners` | src/core.ts:68-84 | the first pass leaves exactly the registrations minus those of the `on*` keys of `prev` that are gone or changed |
| `Host.ClearOldProperties` | src/core.ts:86-92 | the second pass sets to `""` exactly the plain attributes of `prev` missing from `next` |
| `Host.SetNewProperties` | src/core.ts:94-100 | the third pass writes exactly the new or changed plain attributes of `next` |
| `Host.AddNewListeners` | src/core.ts:102-114 | the fourth pass adds exactly the registrations of the new or changed `on*` keys of `next` |
| `Host.UpdateDomNode` | src/core.ts:67-115 | the four passes in sequence produce the node `UpdatedNode` describes |
| `Host.ListenersCoverNext` | src/core.ts:102-114 | starting from the registrations of `prev`, every registrable `on*` entry of `next` is registered after the two listener passes |
| `Host.ListenersWithinNext` | src/core.ts:68-84 | starting from the registrations of `prev`, no registration outside the `on*` entries of `next` remains after the two listener passes |
| `Host.UpdatedAttributes` | src/core.ts:86-100 | per plain key, from a node reflecting `prev`: a key of `next` holds its `next` value, a key only of `prev` holds `""`, a key of neither stays undefined |
| `Host.UpdateDomMeetsNext` | src/core.ts:67-115 | from a node reflecting `prev`: plain keys of `next` hold their values, keys only in `prev` hold `""`, keys in neither stay undefined, the listeners are exactly the `on*` entries of `next`, and the kind, children and parent do not change |
| `Host.CreatedNodeReflects` | src/core.ts:57-65 | a fresh node updated from `{}` to `props` reflects exactly `props` and has no children and no parent |
| `Fibers.ChainIncreasing` | src/core.ts:241-242 | a sibling chain is strictly increasing in the arena, starts at its start and is empty exactly when there is no start |
| `Fibers.ChainOfRun` | src/core.ts:285-291 | fibers `a..b-1` linked each to the next form the chain `a, a+1, …, b-1` |
| `Fibers.FirstOnSpec` | src/core.ts:133-135 | the walk search returns the nearest fiber on the walk that satisfies the test; when it returns none, no fiber on the walk satisfies it |
| `Fibers.HostParentDom` | src/core.ts:131-141 | the host parent of a fiber is the host node of the nearest fiber with one on the parent chain starting at its parent; it is none exactly when no fiber on that chain has a host node |
| `Fibers.DeletionTarget` | src/core.ts:168-171 | the fiber whose node a deletion removes is the nearest fiber with a host node on the first-child path starting at the fiber itself; it is none exactly when no fiber on that path has one |
| `Fibers.Successor` | src/core.ts:211-221 | the next unit of work is a fiber of the arena or none |
| `Fibers.SuccessorSpec` | src/core.ts:211-221 | the next unit is the child when there is one; otherwise it is the sibling of an ancestor-or-self below which no fiber on the parent chain has a sibling; it is none only when no fiber on the parent chain has a sibling |
| `Fibers.CommitDeletionSpec` | src/core.ts:167-173 | committing a deletion keeps the host tree's links in range and its size |
| `Fibers.CommitOne` | src/core.ts:143-161 | a fiber's own effect keeps the host tree's links in range and its size |
| `Fibers.CommitWorkSpec` | src/core.ts:126-165 | committing a tree keeps the host tree's links in range and its size |
| `Fibers.CommitAll` | src/core.ts:118 | committing every queued deletion keeps the host tree's links in range and its size |
| `Fibers.PlacementAppendsLast` | src/core.ts:143-148 | committing a Placement fiber with a node under a host parent makes its node the last child of the parent node, its parent that node and no other node's child; kinds and attributes do not change |
| `Fibers.DeletionDetachesTarget` | src/core.ts:159-171 | committing a Deletion fiber under a host parent whose target node is a child of the parent node takes that node out of the parent's children and leaves it without a parent; the parent's other children stay |
| `Fibers.CommitOneKeepsAgree` | src/core.ts:143-161 | a fiber's own effect keeps every child list in agreement with the parent links |
| `Fibers.CommitWorkKeepsAgree` | src/core.ts:126-165 | committing a tree keeps every child list in agreement with the parent links |
| `Fibers.CommitAllKeepsAgree` | src/core.ts:118 | committing every queued deletion keeps every child list in agreement with the parent links |
| `Fibers.AdjacentDeletionsDetachEarly` | src/core.ts:118-171 | with two adjacent deleted sibling fibers under one host node, committing the first also detaches the second one's node, so the second queue entry finds its node no longer a child of the parent node |
| `Fibers.UpdatesKeepShape` | src/core.ts:149-158 | committing a tree of Update and untagged fibers moves no node: kinds, child lists and parents are unchanged |
| `Fibers.UnmatchedExactly` | src/core.ts:276-279 | a prior fiber is unmatched exactly when the element at its position is missing or of another type; every position past the new list is unmatched; the unmatched fibers are listed in chain order |
| `Fibers.SameTypesDeleteNothing` | src/core.ts:251-279 | re-reconciling elements of the same types position by position queues no deletion and tags every new fiber Update |
| `Core.AppendStep` | src/core.ts:251-275 | a loop step's new fiber: an Update reusing the old fiber's type and dom, a Placement for an element without a same-type old fiber, or none past the end of the elements |
| `Core.TagStep` | src/core.ts:276-279 | an old fiber without a same-type element is tagged Deletion and pushed onto the deletion queue |
| `Core.LinkStep` | src/core.ts:285-289 | the new fiber becomes the parent's child at position 0, or the sibling of the previous new fiber |
| `Core.StepReconciled` | src/core.ts:245-293 | one iteration takes the loop invariant from position `index` to `index + 1` |
| `Core.ReconcileStep` | src/core.ts:248-292 | one loop iteration keeps the invariant and advances `oldFiber` and `prevSibling` |
| `Core.ReconcileFibers` | src/core.ts:239-294 | the arena and queue after the loop are as `Reconciled` describes; with elements, the child chain of `wip` is the new fibers in element order |
| `Core.ReconciledChildren` | src/core.ts:245-292 | one new fiber per element, parented to `wip`, with the element's props. It is an Update exactly when the prior fiber at that position has the element's type, and then reuses that fiber's type and dom with it as alternate; otherwise it is a Placement with no dom and no alternate. Each new fiber links to the next and the last to none, and `wip`'s child is the first |
| `Core.ReconciledDeletions` | src/core.ts:276-283 | the deletion queue keeps its earlier entries and gains exactly the prior fibers with no same-type element at their position, in chain order, each tagged Deletion |
| `Core.ReconciledIsRendered` | src/core.ts:239-294 | an arena and a queue are what `reconcileChildren` leaves (`Reconciled`) exactly when they are `Rendered` and `DeletionsAfter` of the arena and the queue it starts from |
| `Core.Housed` | src/core.ts:233-235 | giving a fiber a host node keeps the arena's shape |
| `Core.Hooked` | src/core.ts:227 | resetting a fiber's hook list to empty keeps the arena's shape |
| `Core.NextUnit` | src/core.ts:211-221 | the successor loop returns `Successor` |
| `Core.HostParentOf` | src/core.ts:131-141 | the climb to the nearest ancestor, not self, with a host node returns that node |
| `Core.CommitRootSpec` | src/core.ts:117-124 | committing the queue and the root's child tree keeps the host tree's links in range and its size |
| `Core.CommitRootKeepsAgree` | src/core.ts:117-124 | `commitRoot` keeps every child list in agreement with the parent links |
| `Core.UnchangedCommitKeepsShape` | src/core.ts:117-158 | committing, with an empty deletion queue, a root whose tree holds only Update and untagged fibers moves no node: kinds, child lists and parents are unchanged |
| `Core.UnitReconciles` | src/core.ts:203-237 | after a unit of work, a component fiber is the hooks' fiber at index 0 and its rendered element is reconciled as its child with the host nodes unchanged; any other fiber has a new node of its kind reflecting its props when it had none, and its children are reconciled |
| `Core.TracedStep` | src/core.ts:189-192 | one more unit, performed on the last state and followed by its successor, extends a trace of the loop |
| `Core.TracedUnits` | src/core.ts:189-191 | in a trace of the loop, each unit takes the state before it to the state after it as a unit of work does |
| `Core.TracedOrder` | src/core.ts:189-191 | a trace of the loop starts at the first unit, each later unit is the successor of the one before it in the arena that one left, and the pending unit is the successor of the last |
| `Core.KindOf` | src/core.ts:58-61 | a fiber gets a text node exactly when its type is the text element; a host tag gives an element of that tag; no type gives the element `"undefined"` |
| `Core.DidactState.constructor` | src/DidactState.ts:3-17 | the state before the first render: no fibers, no cells, every pointer unset |
| `Core.DidactState.Render` | src/core.ts:175-185 | a new root with the container as dom, `[element]` as children and the current root as alternate becomes the work-in-progress root and the next unit; deletions restart |
| `Core.DidactState.ReconcileChildren` | src/core.ts:239-294 | the arena and the deletion queue become what `Reconciled` describes; nothing else changes |
| `Core.DidactState.UpdateDom` | src/core.ts:67-115 | node `d` becomes `UpdatedNode` of itself; nothing else changes |
| `Core.DidactState.CreateDom` | src/core.ts:57-65 | a new node of the fiber's kind, updated from `{}` to the fiber's props, is appended to the host arena |
| `Core.DidactState.UpdateHostComponent` | src/core.ts:232-237 | a fiber without a host node gets a new one; its children are reconciled |
| `Core.DidactState.UpdateFunctionComponent` | src/core.ts:224-230 | the fiber becomes the hooks' fiber with index 0 and an empty hook list; the element its component renders is reconciled as its only child |
| `Core.DidactState.PerformUnitOfWork` | src/core.ts:203-222 | the state it leaves (fibers, host nodes, deletion queue, hooks' fiber, hook index) is `UnitSpec` of the state it started from, so a host fiber without a node gains one appended to the host nodes; the answer is `Successor` in the new arena; the roots, the next unit and the ref cells do not change |
| `Core.DidactState.CommitDeletion` | src/core.ts:167-173 | the host tree becomes `CommitDeletionSpec`: the first host node on the first-child path is removed from the parent |
| `Core.DidactState.CommitEffect` | src/core.ts:131-161 | the host tree becomes `CommitOne`: place, update or delete under the nearest host ancestor's node |
| `Core.DidactState.CommitWork` | src/core.ts:126-165 | the host tree becomes `CommitWorkSpec`; the fibers do not change |
| `Core.DidactState.CommitRoot` | src/core.ts:117-124 | the host tree becomes `CommitRootSpec`; the root becomes current only when it has a child; the work-in-progress root is cleared |
| `Core.DidactState.Turn` | src/core.ts:190 | one loop iteration performs the next unit and moves the next unit to its successor, extending the trace by that unit |
| `Core.DidactState.RunUnits` | src/core.ts:188-192 | the loop runs units only while work remains and stops on the first probe below 1; its units form a trace from the state and the next unit it started with to the state and the next unit it leaves |
| `Core.DidactState.WorkLoop` | src/core.ts:187-199 | units run only while work remains; every probe before the last reported at least 1; leftover work means the last probe reported less than 1. The units form a trace from the old state whose fibers, deletion queue, hooks' fiber and hook index are the new ones. The tree is committed exactly when no work is left and a root is in progress: then the host nodes are `CommitRootSpec` of the traced nodes, the root becomes current when it has a child and the work-in-progress root is cleared; otherwise the host nodes and both roots are as traced |
| `Core.DidactState.OldHook` | src/useState.ts:4-7 | the previous render's record at the current hook index, when the alternate has one; its ref cell exists |
| `Core.DidactState.PushHook` | src/useState.ts:29-32 | when the hooks' fiber has a hook list, the record is appended and the index advances by one; otherwise nothing changes |
| `StateHook.ReplayAppend` | src/useState.ts:13-16 | replaying two queues one after the other is replaying their concatenation |
| `StateHook.ReplaySnoc` | src/useState.ts:13-16 | replaying one more action applies it to the state replayed so far |
| `StateHook.ReplayIncrements` | src/useState.ts:13-16 | `n` queued increments take a count `c` to `c + n` |
| `StateHook.UseState` | src/useState.ts:3-34 | the state is `initial` without a previous record, else the previous state with its queue replayed in order; one record with an empty queue is pushed; the setter names that record |
| `StateHook.Queued` | src/useState.ts:19 | queueing an action keeps the arena's size |
| `StateHook.QueuedThenReplayed` | src/useState.ts:13-19 | queueing an action on a record appends it to that record's queue only, and the next replay gives the action applied to the state that would otherwise have been replayed |
| `StateHook.SetState` | src/useState.ts:18-27 | the action is queued on the setter's record; a new root copying the current root's dom and props, with the current root as alternate, becomes the work-in-progress root and the next unit; deletions restart |
| `MemoHook.UseMemo` | src/useMemo.ts:4-31 | the previous value when there is a previous record with equal deps, `compute()` otherwise; one record of the value and the deps is pushed |
| `EffectHook.UseEffect` | src/useEffect.ts:4-27 | the callback runs exactly when there is no previous record or its deps differ; one record of the deps is pushed |
| `RefHook.UseRef` | src/useRef.ts:3-19 | the previous record's cell when there is one, `initial` unused; otherwise a new cell holding `initial`; one record of the cell is pushed |
| `RefHook.SetCurrent` | src/useRef.ts:18 | assigning `current` changes that one cell |
| `CallbackHook.UseCallback` | src/useCallback.ts:3-5 | the previous callback when the deps are equal, this call's callback otherwise; one record is pushed |

## Left out

- The idle-callback scheduler (`requestIdleCallback`) is left out as host I/O. The deadline is the parameter `timeRemaining`: a list of the values `timeRemaining()` reports after each unit, with 0 past its end. Rescheduling the loop is the host's job.
- The DOM (`document.createElement`, `createTextNode`, `appendChild`, `removeChild`, `addEventListener`, `removeEventListener`) is replaced by an abstract host tree. `removeChild` of a node that is not a child throws in the DOM and is a no-op in the model (see `Host.RemoveChild` below).
- Host.RemoveChild: removing a node that is not a child of the parent is a no-op here, whereas the DOM throws `NotFoundError`. This case is reached: when a render drops two adjacent siblings, committing the first queued deletion also walks to the second and detaches it (`Fibers.AdjacentDeletionsDetachEarly`), so the second queue entry removes a detached node. In the source `commitRoot` then throws: the work-in-progress root is never cleared, the current root is not updated and `workLoop` never reaches `requestIdleCallback`, so rendering stops. The model does not raise the exception and commits on.
- Host.AppendChild: appending a node under itself or under one of its descendants (a `HierarchyRequestError` in the DOM) is not modelled as an error; `Fibers.PlacementAppendsLast` excludes the node itself as parent.
- Event listeners are a set of (event type, callback) pairs. `addEventListener` ignores a null or undefined callback.
- `Host.ListenersCoverNext` and `Host.UpdateDomMeetsNext` assume that no two `on*` keys of the two prop maps lower-case to the same event type. Without that, removing one key's listener or adding another's can collide.
- Lower-casing covers ASCII letters only. There is no Unicode case mapping.
- `console.log` in `createElement` is left out as debug output.
- `Fragment` is left out. It returns an array of elements, while a component in the model renders one element.
- A component that returns `null` is left out for the same reason.
- Component bodies, `compute` thunks and effect callbacks are user code.
  - Components are one abstract deterministic function `Components` from a component id and props to one element.
  - Hook calls are modelled as separate operations on the state. They are not traced inside a component body during `performUnitOfWork`.
  - `EffectHook.UseEffect` reports whether the callback runs instead of running it; its side effects are not modelled.
- `isEqual` from lodash and `===` are structural equality on the value datatype `Values.Value`.
- Numbers are unbounded integers: no floating point, no `NaN`.
- A hook call must find, at its slot, a record of its own kind. A different kind (hooks called in a different order) makes the source read missing fields; the model takes this as a precondition.
- Hooks require a hooks' fiber, since the source dereferences it unguarded. The setter requires a current root, since before the first commit the source dereferences it unguarded.
- `src/didact.ts` (the export object), `src/Fiber.ts` and `src/DidactState.ts` (type declarations) and `webpack.config.js` are not part of this model beyond the datatypes and the class they declare.
- Fibers are never freed. The arena only grows, and the previous generation stays reachable through `alternate` as in the source.
