/**
 * The abstract host tree that stands in for the DOM: an arena of nodes, each
 * with a kind, an attribute map, a set of registered listeners, a child list
 * and a parent link; plus the prop diff `updateDom` performs on one node.
 */
module Host {
  import opened Wrappers
  import opened Values
  import opened Helper

  datatype NodeKind = ElementNode(tag: string) | TextNode

  /** A listener registration: the event type and the handler value. */
  type Listener = (string, Value)

  datatype HostNode = HostNode(
    kind: NodeKind,
    attrs: map<string, Value>,
    listeners: set<Listener>,
    children: seq<nat>,
    parent: Option<nat>)

  /** A freshly created node: no attributes, listeners, children or parent. */
  function NewNode(kind: NodeKind): HostNode {
    HostNode(kind, map[], {}, [], None)
  }

  predicate NodeOk(n: HostNode, count: nat) {
    (forall j :: 0 <= j < |n.children| ==> n.children[j] < count)
    && (n.parent.Some? ==> n.parent.value < count)
  }

  /** Every link of every node stays inside the arena. */
  predicate HostOk(ns: seq<HostNode>) {
    forall i :: 0 <= i < |ns| ==> NodeOk(ns[i], |ns|)
  }

  /** `s` with every occurrence of `x` removed, order kept. */
  function Without(s: seq<nat>, x: nat): (r: seq<nat>)
    ensures forall y :: y in r <==> y in s && y != x
    ensures forall j :: 0 <= j < |r| ==> r[j] in s
    ensures |r| <= |s|
  {
    if s == [] then [] else (if s[0] == x then [] else [s[0]]) + Without(s[1..], x)
  }

  /**
   * `parent.appendChild(child)`: the child leaves its current parent, if any,
   * and becomes the last child of `p`.
   */
  function AppendChild(ns: seq<HostNode>, p: nat, c: nat): (r: seq<HostNode>)
    requires HostOk(ns) && p < |ns| && c < |ns|
    ensures HostOk(r) && |r| == |ns|
  {
    var detached :=
      if ns[c].parent.Some? then
        var q := ns[c].parent.value;
        ns[q := ns[q].(children := Without(ns[q].children, c))]
      else ns;
    var attached := detached[p := detached[p].(children := detached[p].children + [c])];
    attached[c := attached[c].(parent := Some(p))]
  }

  /**
   * `parent.removeChild(child)`: detaches `c` from `p` when it is one of its
   * children. (The DOM throws otherwise; here nothing changes.)
   */
  function RemoveChild(ns: seq<HostNode>, p: nat, c: nat): (r: seq<HostNode>)
    requires HostOk(ns) && p < |ns| && c < |ns|
    ensures HostOk(r) && |r| == |ns|
  {
    if c in ns[p].children then
      var detached := ns[p := ns[p].(children := Without(ns[p].children, c))];
      detached[c := detached[c].(parent := None)]
    else ns
  }

  lemma AppendChildPlacesLast(ns: seq<HostNode>, p: nat, c: nat)
    requires HostOk(ns) && p < |ns| && c < |ns| && p != c
    requires forall i :: 0 <= i < |ns| && c in ns[i].children ==> ns[c].parent == Some(i)
    ensures var r := AppendChild(ns, p, c);
      && r[c].parent == Some(p)
      && |r[p].children| > 0 && r[p].children[|r[p].children| - 1] == c
      && (forall i :: 0 <= i < |ns| && i != p ==> c !in r[i].children)
      && (forall i :: 0 <= i < |ns| ==> r[i].kind == ns[i].kind && r[i].attrs == ns[i].attrs)
  {
  }

  lemma RemoveChildDetaches(ns: seq<HostNode>, p: nat, c: nat)
    requires HostOk(ns) && p < |ns| && c < |ns| && p != c
    requires c in ns[p].children
    ensures var r := RemoveChild(ns, p, c);
      && c !in r[p].children && r[c].parent.None?
      && (forall y :: y in ns[p].children && y != c ==> y in r[p].children)
  {
  }

  /** Every node that lists `c` as a child is `c`'s parent: the child lists and parent links agree. */
  predicate ParentsAgree(ns: seq<HostNode>) {
    forall i, c :: 0 <= i < |ns| && c in ns[i].children ==> c < |ns| && ns[c].parent == Some(i)
  }

  /** `appendChild` keeps child lists and parent links in agreement. */
  lemma AppendChildKeepsAgree(ns: seq<HostNode>, p: nat, c: nat)
    requires HostOk(ns) && p < |ns| && c < |ns| && ParentsAgree(ns)
    ensures ParentsAgree(AppendChild(ns, p, c))
  {
    var r := AppendChild(ns, p, c);
    forall i, y | 0 <= i < |r| && y in r[i].children ensures y < |r| && r[y].parent == Some(i) {
      if y != c {
        assert y in ns[i].children;
      }
    }
  }

  /** `removeChild` keeps child lists and parent links in agreement. */
  lemma RemoveChildKeepsAgree(ns: seq<HostNode>, p: nat, c: nat)
    requires HostOk(ns) && p < |ns| && c < |ns| && ParentsAgree(ns)
    ensures ParentsAgree(RemoveChild(ns, p, c))
  {
    var r := RemoveChild(ns, p, c);
    forall i, y | 0 <= i < |r| && y in r[i].children ensures y < |r| && r[y].parent == Some(i) {
      assert y in ns[i].children;
    }
  }

  /** ASCII `toLowerCase` on one character. */
  function LowerChar(ch: char): char {
    if 'A' <= ch <= 'Z' then (ch as int + 32) as char else ch
  }

  function ToLower(s: string): (r: string)
    ensures |r| == |s|
  {
    seq(|s|, i requires 0 <= i < |s| => LowerChar(s[i]))
  }

  /**
   * `name.toLowerCase().substring(2)`: "onClick" names the event "click";
   * the name past its first two characters, lower-cased.
   */
  function EventType(k: string): (r: string)
    ensures |r| == if |k| >= 2 then |k| - 2 else 0
    ensures forall j :: 0 <= j < |r| ==> r[j] == LowerChar(k[j + 2]) && !('A' <= r[j] <= 'Z')
  {
    if |k| >= 2 then ToLower(k)[2..] else ""
  }

  /** `addEventListener` ignores a null or undefined callback. */
  predicate Registrable(v: Value) {
    !(v.Undefined? || v.Null?)
  }

  /** The registrations a prop map asks for: one per `on*` key with a callback. */
  ghost function EventPairs(p: map<string, Value>): set<Listener> {
    set k | k in p.Keys && IsEvent(k) && Registrable(p[k]) :: (EventType(k), p[k])
  }

  /**
   * `updateDom(dom, prevProps, nextProps)` on one node, as its four passes
   * leave it: listeners of removed or changed `on*` keys are unregistered,
   * plain attributes missing from `next` are set to "", new or changed plain
   * attributes take their `next` value, and new or changed `on*` keys are
   * registered.
   */
  ghost function UpdatedNode(n: HostNode, prev: map<string, Value>, next: map<string, Value>): HostNode {
    n.(attrs := n.attrs + ClearedFrom(prev, next, prev.Keys) + WrittenFrom(prev, next, next.Keys),
       listeners := (n.listeners - RemovedPairs(prev, next)) + AddedPairs(prev, next))
  }

  /** The registrations the first pass removes, among the keys `keys`. */
  ghost function RemovedFrom(prev: map<string, Value>, next: map<string, Value>, keys: set<string>): set<Listener> {
    set k | k in keys && k in prev && IsEvent(k) && (k !in next || IsNew(prev, next, k)) :: (EventType(k), prev[k])
  }

  /** The attributes the second pass clears, among the keys `keys`. */
  ghost function ClearedFrom(prev: map<string, Value>, next: map<string, Value>, keys: set<string>): map<string, Value> {
    map k | k in keys && IsProperty(k) && IsGone(prev, next, k) :: Str("")
  }

  /** The attributes the third pass writes, among the keys `keys`. */
  ghost function WrittenFrom(prev: map<string, Value>, next: map<string, Value>, keys: set<string>): map<string, Value> {
    map k | k in keys && k in next && IsProperty(k) && IsNew(prev, next, k) :: next[k]
  }

  /** The registrations the fourth pass adds, among the keys `keys`. */
  ghost function AddedFrom(prev: map<string, Value>, next: map<string, Value>, keys: set<string>): set<Listener> {
    set k | k in keys && k in next && IsEvent(k) && IsNew(prev, next, k) && Registrable(next[k]) :: (EventType(k), next[k])
  }

  lemma RemovedFromStep(ls: set<Listener>, prev: map<string, Value>, next: map<string, Value>, keys: set<string>, k: string)
    requires k in prev
    ensures ls - RemovedFrom(prev, next, keys + {k}) ==
      if IsEvent(k) && (k !in next || IsNew(prev, next, k)) then (ls - RemovedFrom(prev, next, keys)) - {(EventType(k), prev[k])}
      else ls - RemovedFrom(prev, next, keys)
  {
    assert RemovedFrom(prev, next, keys + {k}) == RemovedFrom(prev, next, keys)
      + (if IsEvent(k) && (k !in next || IsNew(prev, next, k)) then {(EventType(k), prev[k])} else {});
  }

  lemma AddedFromStep(ls: set<Listener>, prev: map<string, Value>, next: map<string, Value>, keys: set<string>, k: string)
    requires k in next
    ensures ls + AddedFrom(prev, next, keys + {k}) ==
      if IsEvent(k) && IsNew(prev, next, k) then AddListener(ls + AddedFrom(prev, next, keys), EventType(k), next[k])
      else ls + AddedFrom(prev, next, keys)
  {
    assert AddedFrom(prev, next, keys + {k}) == AddedFrom(prev, next, keys)
      + (if IsEvent(k) && IsNew(prev, next, k) && Registrable(next[k]) then {(EventType(k), next[k])} else {});
  }

  lemma ClearedFromStep(attrs: map<string, Value>, prev: map<string, Value>, next: map<string, Value>, keys: set<string>, k: string)
    ensures attrs + ClearedFrom(prev, next, keys + {k}) ==
      if IsProperty(k) && IsGone(prev, next, k) then (attrs + ClearedFrom(prev, next, keys))[k := Str("")]
      else attrs + ClearedFrom(prev, next, keys)
  {
  }

  lemma WrittenFromStep(attrs: map<string, Value>, prev: map<string, Value>, next: map<string, Value>, keys: set<string>, k: string)
    requires k in next
    ensures attrs + WrittenFrom(prev, next, keys + {k}) ==
      if IsProperty(k) && IsNew(prev, next, k) then (attrs + WrittenFrom(prev, next, keys))[k := next[k]]
      else attrs + WrittenFrom(prev, next, keys)
  {
  }

  /** `addEventListener(type, callback)`: a registration; a null or undefined callback is ignored. */
  function AddListener(ls: set<Listener>, eventType: string, callback: Value): (r: set<Listener>)
    ensures Registrable(callback) ==> r == ls + {(eventType, callback)}
    ensures !Registrable(callback) ==> r == ls
  {
    if Registrable(callback) then ls + {(eventType, callback)} else ls
  }

  /** `updateDom`'s first pass: unregister the listeners of removed or changed `on*` keys. */
  method RemoveOldListeners(ls: set<Listener>, prev: map<string, Value>, next: map<string, Value>) returns (r: set<Listener>)
    ensures r == ls - RemovedPairs(prev, next)
  {
    r := ls;
    var todo := prev.Keys;
    ghost var done: set<string> := {};
    while todo != {}
      invariant todo + done == prev.Keys && todo !! done
      invariant r == ls - RemovedFrom(prev, next, done)
      decreases |todo|
    {
      var k :| k in todo;
      RemovedFromStep(ls, prev, next, done, k);
      if IsEvent(k) && (k !in next || IsNew(prev, next, k)) {
        r := r - {(EventType(k), prev[k])};
      }
      todo := todo - {k};
      done := done + {k};
    }
  }

  /** `updateDom`'s second pass: plain attributes missing from `next` are set to "". */
  method ClearOldProperties(attrs: map<string, Value>, prev: map<string, Value>, next: map<string, Value>)
    returns (r: map<string, Value>)
    ensures r == attrs + ClearedFrom(prev, next, prev.Keys)
  {
    r := attrs;
    var todo := prev.Keys;
    ghost var done: set<string> := {};
    while todo != {}
      invariant todo + done == prev.Keys && todo !! done
      invariant r == attrs + ClearedFrom(prev, next, done)
      decreases |todo|
    {
      var k :| k in todo;
      ClearedFromStep(attrs, prev, next, done, k);
      if IsProperty(k) && IsGone(prev, next, k) {
        r := r[k := Str("")];
      }
      todo := todo - {k};
      done := done + {k};
    }
  }

  /** `updateDom`'s third pass: new or changed plain attributes take their `next` value. */
  method SetNewProperties(attrs: map<string, Value>, prev: map<string, Value>, next: map<string, Value>)
    returns (r: map<string, Value>)
    ensures r == attrs + WrittenFrom(prev, next, next.Keys)
  {
    r := attrs;
    var todo := next.Keys;
    ghost var done: set<string> := {};
    while todo != {}
      invariant todo + done == next.Keys && todo !! done
      invariant r == attrs + WrittenFrom(prev, next, done)
      decreases |todo|
    {
      var k :| k in todo;
      WrittenFromStep(attrs, prev, next, done, k);
      if IsProperty(k) && IsNew(prev, next, k) {
        r := r[k := next[k]];
      }
      todo := todo - {k};
      done := done + {k};
    }
  }

  /** `updateDom`'s fourth pass: register the listeners of new or changed `on*` keys. */
  method AddNewListeners(ls: set<Listener>, prev: map<string, Value>, next: map<string, Value>) returns (r: set<Listener>)
    ensures r == ls + AddedPairs(prev, next)
  {
    r := ls;
    var todo := next.Keys;
    ghost var done: set<string> := {};
    while todo != {}
      invariant todo + done == next.Keys && todo !! done
      invariant r == ls + AddedFrom(prev, next, done)
      decreases |todo|
    {
      var k :| k in todo;
      AddedFromStep(ls, prev, next, done, k);
      if IsEvent(k) && IsNew(prev, next, k) {
        r := AddListener(r, EventType(k), next[k]);
      }
      todo := todo - {k};
      done := done + {k};
    }
  }

  /**
   * `updateDom(dom, prev, next)` as the source runs it: four passes, each
   * walking the keys of one prop map and changing the node one key at a
   * time. The result is the node `UpdatedNode` describes.
   */
  method UpdateDomNode(n: HostNode, prev: map<string, Value>, next: map<string, Value>) returns (r: HostNode)
    ensures r == UpdatedNode(n, prev, next)
  {
    var listeners := RemoveOldListeners(n.listeners, prev, next);
    var attrs := ClearOldProperties(n.attrs, prev, next);
    attrs := SetNewProperties(attrs, prev, next);
    listeners := AddNewListeners(listeners, prev, next);
    r := n.(attrs := attrs, listeners := listeners);
  }

  /** The node shows exactly the plain attributes and the listeners of `p`. */
  ghost predicate Reflects(n: HostNode, p: map<string, Value>) {
    (forall k :: IsProperty(k) ==> Get(n.attrs, k) == Get(p, k))
    && n.listeners == EventPairs(p)
  }

  /** No two distinct `on*` keys of the two maps name the same event type. */
  ghost predicate DistinctEventTypes(prev: map<string, Value>, next: map<string, Value>) {
    forall k1, k2 ::
      (k1 in prev.Keys + next.Keys && k2 in prev.Keys + next.Keys && IsEvent(k1) && IsEvent(k2) && k1 != k2)
      ==> EventType(k1) != EventType(k2)
  }

  ghost function RemovedPairs(prev: map<string, Value>, next: map<string, Value>): set<Listener> {
    RemovedFrom(prev, next, prev.Keys)
  }

  ghost function AddedPairs(prev: map<string, Value>, next: map<string, Value>): set<Listener> {
    AddedFrom(prev, next, next.Keys)
  }

  lemma UpdatedListeners(n: HostNode, prev: map<string, Value>, next: map<string, Value>)
    ensures UpdatedNode(n, prev, next).listeners == (n.listeners - RemovedPairs(prev, next)) + AddedPairs(prev, next)
  {
  }

  /** Every registration `next` asks for is present after the diff. */
  lemma ListenersCoverNext(prev: map<string, Value>, next: map<string, Value>)
    requires DistinctEventTypes(prev, next)
    ensures EventPairs(next) <= (EventPairs(prev) - RemovedPairs(prev, next)) + AddedPairs(prev, next)
  {
    forall l | l in EventPairs(next)
      ensures l in (EventPairs(prev) - RemovedPairs(prev, next)) + AddedPairs(prev, next)
    {
      var k :| k in next.Keys && IsEvent(k) && Registrable(next[k]) && l == (EventType(k), next[k]);
      if IsNew(prev, next, k) {
        assert l in AddedPairs(prev, next);
      } else {
        assert Get(prev, k) == next[k];
        assert k in prev && prev[k] == next[k];
        assert l in EventPairs(prev);
      }
    }
  }

  /** Nothing but what `next` asks for is present after the diff. */
  lemma ListenersWithinNext(prev: map<string, Value>, next: map<string, Value>)
    ensures (EventPairs(prev) - RemovedPairs(prev, next)) + AddedPairs(prev, next) <= EventPairs(next)
  {
    forall l | l in (EventPairs(prev) - RemovedPairs(prev, next)) + AddedPairs(prev, next)
      ensures l in EventPairs(next)
    {
      if l !in AddedPairs(prev, next) {
        var k :| k in prev.Keys && IsEvent(k) && Registrable(prev[k]) && l == (EventType(k), prev[k]);
        assert l !in RemovedPairs(prev, next);
        assert !(k !in next || IsNew(prev, next, k));
        assert l == (EventType(k), next[k]);
      }
    }
  }

  /** Plain attributes after the diff, for a node that reflected `prev`. */
  lemma UpdatedAttributes(n: HostNode, prev: map<string, Value>, next: map<string, Value>, k: string)
    requires Reflects(n, prev)
    requires IsProperty(k)
    ensures var r := UpdatedNode(n, prev, next);
      && (k in next ==> Get(r.attrs, k) == next[k])
      && (k in prev && k !in next ==> Get(r.attrs, k) == Str(""))
      && (k !in prev && k !in next ==> Get(r.attrs, k) == Undefined)
  {
    assert Get(n.attrs, k) == Get(prev, k);
  }

  /**
   * If the node reflected `prev`, then after the diff every plain attribute
   * of `next` holds its `next` value, every plain attribute found only in
   * `prev` holds "", no other plain attribute appears, the node's place in
   * the tree is unchanged, and the registered listeners are exactly the
   * `on*` entries of `next`.
   */
  lemma UpdateDomMeetsNext(n: HostNode, prev: map<string, Value>, next: map<string, Value>)
    requires Reflects(n, prev)
    requires DistinctEventTypes(prev, next)
    ensures var r := UpdatedNode(n, prev, next);
      && (forall k :: k in next && IsProperty(k) ==> Get(r.attrs, k) == next[k])
      && (forall k :: k in prev && k !in next && IsProperty(k) ==> Get(r.attrs, k) == Str(""))
      && (forall k :: IsProperty(k) && k !in prev && k !in next ==> Get(r.attrs, k) == Undefined)
      && r.listeners == EventPairs(next)
      && r.kind == n.kind && r.children == n.children && r.parent == n.parent
  {
    var r := UpdatedNode(n, prev, next);
    forall k | IsProperty(k)
      ensures (k in next ==> Get(r.attrs, k) == next[k])
      ensures (k in prev && k !in next ==> Get(r.attrs, k) == Str(""))
      ensures (k !in prev && k !in next ==> Get(r.attrs, k) == Undefined)
    {
      UpdatedAttributes(n, prev, next, k);
    }
    UpdatedListeners(n, prev, next);
    ListenersCoverNext(prev, next);
    ListenersWithinNext(prev, next);
  }

  /**
   * `createDom`: a fresh node of the given kind, updated from no props to
   * `p`, carries exactly `p`'s plain attributes and `p`'s listeners, and
   * has no children and no parent yet.
   */
  lemma CreatedNodeReflects(kind: NodeKind, p: map<string, Value>)
    ensures var r := UpdatedNode(NewNode(kind), map[], p);
      Reflects(r, p) && r.kind == kind && r.children == [] && r.parent.None?
  {
    var n := NewNode(kind);
    var r := UpdatedNode(n, map[], p);
    assert EventPairs(map[]) == {};
    assert Reflects(n, map[]);
    forall k | IsProperty(k) ensures Get(r.attrs, k) == Get(p, k) {
      UpdatedAttributes(n, map[], p, k);
    }
    UpdatedListeners(n, map[], p);
    assert RemovedPairs(map[], p) == {};
    forall l | l in EventPairs(p) ensures l in AddedPairs(map[], p) {
      var k :| k in p.Keys && IsEvent(k) && Registrable(p[k]) && l == (EventType(k), p[k]);
      assert IsNew(map[], p, k);
    }
    ListenersWithinNext(map[], p);
  }
}
