/**
 * The values a Didact program manipulates: JavaScript values as they occur in
 * props, children and hook state, element descriptions, and fiber types.
 */
module Values {

  /** A JavaScript value. Functions are identified by an id (their identity). */
  datatype Value =
    | Undefined
    | Null
    | Bool(b: bool)
    | Num(n: int)
    | Str(s: string)
    | Fn(id: nat)
    | Arr(items: seq<Value>)
    | Elem(e: Element)

  /**
   * The `type` of an element or fiber: a host tag such as "div", the reserved
   * text-element marker, or a function component (by identity).
   */
  datatype FiberType = HostKind(tag: string) | TextElement | Component(id: nat)

  /** An element's props: its attributes and the reserved `children` entry. */
  datatype Props = Props(attrs: map<string, Value>, children: seq<Element>)

  /** A declarative element description `{ type, props }`. */
  datatype Element = Element(etype: FiberType, props: Props)
}
