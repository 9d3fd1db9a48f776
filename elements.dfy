/**
 * Building element descriptions: flattening nested child arrays
 * (`toChildArray`), `createElement` and `createTextElement`.
 */
module Elements {
  import opened Values

  /** A child that survives flattening: not null/undefined, not a boolean, not an array. */
  predicate IsLeaf(v: Value) {
    !(v.Undefined? || v.Null? || v.Bool? || v.Arr?)
  }

  /** The children `toChildArray(v, [])` collects, left to right. */
  function Flatten(v: Value): (r: seq<Value>)
    ensures forall i :: 0 <= i < |r| ==> IsLeaf(r[i])
    decreases v, 1
  {
    match v
    case Undefined => []
    case Null => []
    case Bool(_) => []
    case Arr(items) => FlattenAll(items)
    case _ => [v]
  }

  /** Flattening of every member of an array, concatenated in order. */
  function FlattenAll(vs: seq<Value>): (r: seq<Value>)
    ensures forall i :: 0 <= i < |r| ==> IsLeaf(r[i])
    decreases vs, 0
  {
    if vs == [] then [] else Flatten(vs[0]) + FlattenAll(vs[1..])
  }

  /** Flattening distributes over concatenation: order is kept, left to right. */
  lemma {:induction false} FlattenAllAppend(a: seq<Value>, b: seq<Value>)
    ensures FlattenAll(a + b) == FlattenAll(a) + FlattenAll(b)
  {
    if a == [] {
      assert a + b == b;
    } else {
      assert (a + b)[0] == a[0];
      assert (a + b)[1..] == a[1..] + b;
      FlattenAllAppend(a[1..], b);
    }
  }

  /** A list that is already flat is its own flattening. */
  lemma {:induction false} FlattenOfLeaves(vs: seq<Value>)
    requires forall i :: 0 <= i < |vs| ==> IsLeaf(vs[i])
    ensures FlattenAll(vs) == vs
  {
    if vs != [] {
      FlattenOfLeaves(vs[1..]);
    }
  }

  /** Flattening twice is flattening once. */
  lemma FlattenIdempotent(vs: seq<Value>)
    ensures FlattenAll(FlattenAll(vs)) == FlattenAll(vs)
  {
    FlattenOfLeaves(FlattenAll(vs));
  }

  /**
   * `toChildArray(children, out)`: appends to `out` every leaf of the nested
   * `children`, left to right, dropping null, undefined and booleans.
   */
  method ToChildArray(children: Value, out: seq<Value>) returns (r: seq<Value>)
    ensures r == out + Flatten(children)
    decreases children
  {
    if children.Undefined? || children.Null? || children.Bool? {
      r := out;
    } else if children.Arr? {
      var items := children.items;
      r := out;
      var i := 0;
      while i < |items|
        invariant 0 <= i <= |items|
        invariant r == out + FlattenAll(items[..i])
      {
        r := ToChildArray(items[i], r);
        assert items[..i + 1] == items[..i] + [items[i]];
        FlattenAllAppend(items[..i], [items[i]]);
        assert FlattenAll([items[i]]) == Flatten(items[i]) + FlattenAll([]);
        i := i + 1;
      }
      assert items[..i] == items;
    } else {
      r := out + [children];
    }
  }

  /** `createTextElement(text)`: a text element whose `nodeValue` is the text. */
  function CreateTextElement(text: Value): (e: Element)
    ensures e.etype == TextElement && e.props.children == []
    ensures e.props.attrs == map["nodeValue" := text]
  {
    Element(TextElement, Props(map["nodeValue" := text], []))
  }

  /** An object child is kept as is; any other child becomes a text element. */
  function AsElement(v: Value): Element {
    if v.Elem? then v.e else CreateTextElement(v)
  }

  /**
   * `createElement(type, props, ...children)`: the element keeps its type and
   * attributes; its children are the flattened children in order, each
   * element child unchanged and every other leaf (string, number, function)
   * wrapped in a text element.
   */
  function CreateElement(t: FiberType, attrs: map<string, Value>, children: seq<Value>): (e: Element)
    ensures var flat := FlattenAll(children);
      && e.etype == t
      && (forall k :: k in attrs && k != "children" ==> k in e.props.attrs && e.props.attrs[k] == attrs[k])
      && e.props.attrs.Keys == attrs.Keys - {"children"}
      && |e.props.children| == |flat|
      && (forall i :: 0 <= i < |flat| && flat[i].Elem? ==> e.props.children[i] == flat[i].e)
      && (forall i :: 0 <= i < |flat| && !flat[i].Elem? ==>
            e.props.children[i].etype == TextElement
            && e.props.children[i].props == Props(map["nodeValue" := flat[i]], []))
  {
    var flat := FlattenAll(children);
    Element(t, Props(attrs - {"children"}, seq(|flat|, i requires 0 <= i < |flat| => AsElement(flat[i]))))
  }
}
