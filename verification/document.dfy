/**
 The custom document of `pages/_document.tsx`: the head rewrite that drops
 every `<link rel="preload">`, and the rule that leaves the client script
 out of pages served without React.
 */
module Document {
  import opened Element

  /** A preload link: a `link` element whose `rel` prop is the string `preload`. */
  predicate IsPreload(n: Node) {
    n.Elem? && n.kind == Host("link") && "rel" in n.props && n.props["rel"] == PStr("preload")
  }

  /** The `transform` closure inside `CustomHead.render`. */
  function Transform(n: Node): (r: Node)
    ensures IsPreload(n) ==> r == EmptyFragment
    ensures n.Elem? && !IsPreload(n) && Truthy(n.children) ==>
      r.Elem? && r.kind == n.kind && r.props == n.props
    ensures n.Elem? && !IsPreload(n) && Truthy(n.children) && n.children.Arr? ==>
      r.children.Arr? && |r.children.items| == |n.children.items|
    ensures n.Arr? ==>
              r.Elem? && r.kind == Fragment && r.props == map[] &&
              r.children.Arr? && |r.children.items| == |n.items|
    ensures !Truthy(n) || n.Leaf? || n.Bool? ==> r == n
    ensures n.Elem? && !IsPreload(n) && !Truthy(n.children) ==> r == n
    decreases n
  {
    if n.Elem? then
      if IsPreload(n) then EmptyFragment
      else if !Truthy(n.children) then n
      else if n.children.Arr? then
        var xs := n.children.items;
        Elem(n.kind, n.props, Arr(seq(|xs|, i requires 0 <= i < |xs| => Transform(xs[i]))))
      else Elem(n.kind, n.props, Transform(n.children))
    else if n.Arr? then
      Elem(Fragment, map[], Arr(seq(|n.items|, i requires 0 <= i < |n.items| => Transform(n.items[i]))))
    else n
  }

  /** Array children, and a bare array, are rewritten position by position. */
  lemma TransformIsPositional(n: Node)
    ensures n.Elem? && !IsPreload(n) && Truthy(n.children) && n.children.Arr? ==>
      forall i :: 0 <= i < |n.children.items| ==>
        Transform(n).children.items[i] == Transform(n.children.items[i])
    ensures n.Elem? && !IsPreload(n) && Truthy(n.children) && !n.children.Arr? ==>
      Transform(n).children == Transform(n.children)
    ensures n.Arr? ==>
      forall i :: 0 <= i < |n.items| ==> Transform(n).children.items[i] == Transform(n.items[i])
  {
  }

  /** No preload link is reachable through children or array entries. */
  predicate NoPreload(n: Node)
    decreases n
  {
    match n
    case Null => true
    case Leaf(_) => true
    case Bool(_) => true
    case Elem(_, _, children) => !IsPreload(n) && NoPreload(children)
    case Arr(xs) => forall i :: 0 <= i < |xs| ==> NoPreload(xs[i])
  }

  /** After the rewrite no preload link is left anywhere in the tree. */
  lemma {:induction false} TransformRemovesPreloads(n: Node)
    ensures NoPreload(Transform(n))
    decreases n
  {
    if n.Elem? && !IsPreload(n) && Truthy(n.children) {
      if n.children.Arr? {
        var xs := n.children.items;
        forall i | 0 <= i < |xs|
          ensures NoPreload(Transform(xs[i]))
        {
          TransformRemovesPreloads(xs[i]);
        }
        assert NoPreload(Transform(n).children);
      } else {
        TransformRemovesPreloads(n.children);
      }
    } else if n.Arr? {
      forall i | 0 <= i < |n.items|
        ensures NoPreload(Transform(n.items[i]))
      {
        TransformRemovesPreloads(n.items[i]);
      }
      assert NoPreload(Transform(n).children);
    }
  }

  /** Rewriting an already rewritten tree changes nothing. */
  lemma {:induction false} TransformIdempotent(n: Node)
    ensures Transform(Transform(n)) == Transform(n)
    decreases n
  {
    if n.Elem? && !IsPreload(n) && Truthy(n.children) {
      if n.children.Arr? {
        var xs := n.children.items;
        var ys := seq(|xs|, i requires 0 <= i < |xs| => Transform(xs[i]));
        forall i | 0 <= i < |xs|
          ensures Transform(ys[i]) == ys[i]
        {
          TransformIdempotent(xs[i]);
        }
        assert Transform(n) == Elem(n.kind, n.props, Arr(ys));
        assert Transform(Elem(n.kind, n.props, Arr(ys))) == Elem(n.kind, n.props, Arr(ys));
      } else {
        TransformIdempotent(n.children);
        TransformKeepsTruthy(n.children);
      }
    } else if n.Arr? {
      var xs := n.items;
      var ys := seq(|xs|, i requires 0 <= i < |xs| => Transform(xs[i]));
      forall i | 0 <= i < |xs|
        ensures Transform(ys[i]) == ys[i]
      {
        TransformIdempotent(xs[i]);
      }
      assert Transform(Elem(Fragment, map[], Arr(ys))) == Elem(Fragment, map[], Arr(ys));
    }
  }

  /** The rewrite of a truthy node is truthy. */
  lemma TransformKeepsTruthy(n: Node)
    requires Truthy(n)
    ensures Truthy(Transform(n))
  {
  }

  /** `pagesWithoutReact`: the pages rendered without the client script. */
  const PagesWithoutReact: seq<string> := ["/"]

  const MainScript: Node := Elem(Component("Main"), map[], Null)
  const NextScript: Node := Elem(Component("NextScript"), map[], Null)

  /**
   The `<body>` of `StaticDocument.render`: `<Main />`, then `<NextScript />`
   unless the page is listed in `pagesWithoutReact`, in which case the
   `&&` leaves a `false` child that renders nothing.
   */
  function StaticBody(page: string): (r: Node)
    ensures r.Elem? && r.kind == Host("body") && r.children.Arr?
    ensures NextScript in r.children.items <==> page != "/"
    ensures MainScript in r.children.items
  {
    var withScript := page !in PagesWithoutReact;
    El("body", map[], Arr([MainScript, if withScript then NextScript else Bool(false)]))
  }
}
