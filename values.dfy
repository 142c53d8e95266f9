/** The JavaScript values the handle deals with: what `#parseSelector` tells apart
    with `typeof` and `instanceof`, what the handle holds as its items, and what the
    event registry uses as keys, handlers and selectors. */
module JsValues {

  datatype Option<T> = None | Some(value: T)

  /** The exceptions the modelled code lets escape to its caller. */
  datatype JsError = SyntaxError | RangeError | TypeError

  datatype Result<T> = Ok(value: T) | Err(error: JsError)

  /** A node of the document. `html` tells whether it is an instance of
      `HTMLElement`; text nodes, comments and SVG elements are not. */
  datatype Node = Node(id: nat, html: bool)

  /** A JavaScript value. Dafny equality on values stands for `===`: for the object
      cases it compares identities (`id`s, or contents for `NodeList` and `Array`). */
  datatype Value =
    | Str(s: string)
    | Num(n: int)
    | Bool(b: bool)
    | Null
    | Undefined
    | DomNode(node: Node)
    | NodeList(nodes: seq<Node>)
    | Array(elems: seq<Value>)
    | Function(fid: nat)
    | Object(oid: nat)

  /** Values a `WeakMap` accepts as keys. */
  predicate IsObject(v: Value)
  {
    v.DomNode? || v.NodeList? || v.Array? || v.Function? || v.Object?
  }

  /** JavaScript truthiness, as `event ? … : …` tests it. */
  predicate Truthy(v: Value)
  {
    match v
    case Str(s) => s != ""
    case Num(n) => n != 0
    case Bool(b) => b
    case Null => false
    case Undefined => false
    case _ => true
  }

  /** The node list `[...nodes]` as values. */
  function Wrap(nodes: seq<Node>): (r: seq<Value>)
    ensures |r| == |nodes|
    ensures forall i :: 0 <= i < |nodes| ==> r[i] == DomNode(nodes[i])
  {
    seq(|nodes|, i requires 0 <= i < |nodes| => DomNode(nodes[i]))
  }
}
