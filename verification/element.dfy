/**
 The element trees the page components build and rewrite, reduced to what
 their logic inspects: an element's type, its props, and its children.
 */
module Element {

  /** An element's `type`: a host tag such as `"td"`, a fragment, or a component. */
  datatype Kind = Host(tag: string) | Fragment | Component(name: string)

  /** A CSS property value: React writes numbers and strings. */
  datatype Css = CssNum(n: int) | CssStr(s: string)

  /** A prop value. */
  datatype Prop = PStr(s: string) | PNum(n: int) | PBool(b: bool) | PStyle(style: map<string, Css>)

  /**
   A child or a tree: `null`/`undefined`, a text or number child, a boolean
   child (what `cond && <X />` leaves when `cond` fails), an element whose
   `children` prop is itself a node (`Null` when absent), or an array of nodes.
   */
  datatype Node =
    | Null
    | Leaf(text: string)
    | Bool(b: bool)
    | Elem(kind: Kind, props: map<string, Prop>, children: Node)
    | Arr(items: seq<Node>)

  /** JavaScript truthiness of a node used as a value. */
  predicate Truthy(n: Node) {
    match n
    case Null => false
    case Leaf(t) => t != ""
    case Bool(b) => b
    case _ => true
  }

  /** JavaScript truthiness of a prop value. */
  predicate PropTruthy(p: Prop) {
    match p
    case PStr(s) => s != ""
    case PNum(n) => n != 0
    case PBool(b) => b
    case PStyle(_) => true
  }

  /** `n.type === tag` for a host tag. */
  predicate IsHost(n: Node, tag: string) {
    n.Elem? && n.kind == Host(tag)
  }

  /** `<tag {...props}>{children}</tag>`. */
  function El(tag: string, props: map<string, Prop>, children: Node): Node {
    Elem(Host(tag), props, children)
  }

  /** `<></>`: a fragment with no props and no children. */
  const EmptyFragment: Node := Elem(Fragment, map[], Null)
}
