/**
 The table-layout helpers of `pages/index.tsx`: `Table`, `Trs`, `Tr`,
 `Image`, `Link` and `Paragraph`. Each maps its props to one element tree;
 `Table` and `Trs` read `child.type` on every array entry, which throws on a
 `null` entry, so they return `None` there.
 */
module Layout {
  import opened Wrappers
  import opened Element

  type Style = map<string, Css>
  type Attrs = map<string, Prop>

  /** A default style spread under the caller's style: the caller's keys override the defaults. */
  function MergeStyle(defaults: Style, style: Style): (r: Style)
    ensures r.Keys == defaults.Keys + style.Keys
    ensures forall k :: k in style ==> r[k] == style[k]
    ensures forall k :: k in defaults && k !in style ==> r[k] == defaults[k]
  {
    defaults + style
  }

  /** The `tr` prop of `Table`: absent or `false`, `true`, or an attribute object. */
  datatype RowOption = NoRow | Row | RowWith(attrs: Attrs)

  /** `tr` as a condition: an object is truthy even when it is empty. */
  predicate RowTruthy(tr: RowOption) {
    !tr.NoRow?
  }

  /** The attributes a wrapping row receives: those of an attribute object, none otherwise. */
  function TrAttrs(tr: RowOption): (r: Attrs)
    ensures tr.RowWith? ==> r == tr.attrs
    ensures !tr.RowWith? ==> r == map[]
  {
    match tr
    case RowWith(attrs) => attrs
    case _ => map[]
  }

  /** The props of `Table` after the destructuring; `rest` is the `...props` spread. */
  datatype TableProps = TableProps(
    children: Node,
    style: Style,
    cellSpacing: Option<Prop>,
    cellPadding: Option<Prop>,
    tr: RowOption,
    trs: bool,
    rest: Attrs)

  const TableDefaults: Style := map["margin" := CssNum(0), "padding" := CssNum(0), "border" := CssNum(0)]

  /** A falsy or missing value falls back to 0. */
  function OrZero(value: Option<Prop>): (r: Prop)
    ensures value.Some? && PropTruthy(value.value) ==> r == value.value
    ensures !(value.Some? && PropTruthy(value.value)) ==> r == PNum(0)
  {
    if value.Some? && PropTruthy(value.value) then value.value else PNum(0)
  }

  predicate IsSection(n: Node) {
    IsHost(n, "thead") || IsHost(n, "tfoot") || IsHost(n, "tbody")
  }

  predicate IsRowOrStyle(n: Node) {
    IsHost(n, "tr") || IsHost(n, "style")
  }

  /** One entry of the array branch: rows and styles pass, anything else becomes a row. */
  function BodyRow(child: Node, trs: bool): (r: Node)
    ensures IsRowOrStyle(r)
    ensures IsRowOrStyle(child) <==> r == child
    ensures !IsRowOrStyle(child) ==> IsHost(r, "tr") && r.props == map[] && IsHost(r.children, "td")
    ensures !IsRowOrStyle(child) && trs && IsHost(child, "td") ==> r.children == child
    ensures !IsRowOrStyle(child) && !(trs && IsHost(child, "td")) ==> r.children.props == map[] && r.children.children == child
  {
    if IsRowOrStyle(child) then child
    else El("tr", map[], if trs && IsHost(child, "td") then child else El("td", map[], child))
  }

  /** `handleWrappingInTr`: rows and styles pass, the rest gets a row when `tr` is truthy. */
  function WrapInTr(children: Node, tr: RowOption): (r: Node)
    ensures r == children || (IsHost(r, "tr") && r.props == TrAttrs(tr) && r.children == children)
    ensures r != children <==> RowTruthy(tr) && !(children.Elem? && IsRowOrStyle(children))
    ensures RowTruthy(tr) ==> r.Elem? && IsRowOrStyle(r)
  {
    if children.Elem? && IsRowOrStyle(children) then children
    else if RowTruthy(tr) then El("tr", TrAttrs(tr), children)
    else children
  }

  /** `renderBasedOnElementType`: what goes inside the `<table>`. */
  function TableBody(children: Node, tr: RowOption, trs: bool): (r: Option<Node>)
    ensures r.None? <==> !RowTruthy(tr) && children.Arr? && Null in children.items
    ensures r.Some? ==> IsSection(r.value) || (children.Arr? && !RowTruthy(tr))
  {
    if !RowTruthy(tr) && children.Arr? then
      var xs := children.items;
      if Null in xs then None
      else Some(El("tbody", map[], Arr(seq(|xs|, i requires 0 <= i < |xs| => BodyRow(xs[i], trs)))))
    else if children.Null? || children.Leaf? || children.Bool? then
      Some(El("tbody", map[], El("tr", TrAttrs(tr), El("td", map[], children))))
    else if children.Elem? && IsSection(children) then
      Some(children)
    else
      Some(El("tbody", map[], WrapInTr(children, tr)))
  }

  /**
   `Table`: a `<table>` with `cellSpacing`/`cellPadding` defaulting to 0, a
   style merged over the zero margin, padding and border, the remaining props
   spread last, and the body chosen by the shape of `children`.
   */
  function Table(p: TableProps): (r: Option<Node>)
    ensures r.None? <==> TableBody(p.children, p.tr, p.trs).None?
    ensures r.Some? ==> IsHost(r.value, "table") && Some(r.value.children) == TableBody(p.children, p.tr, p.trs)
    ensures r.Some? ==> forall k :: k in p.rest ==> k in r.value.props && r.value.props[k] == p.rest[k]
    ensures r.Some? && "style" !in p.rest ==>
      "style" in r.value.props && r.value.props["style"] == PStyle(MergeStyle(TableDefaults, p.style))
    ensures r.Some? && "cellSpacing" !in p.rest ==>
      "cellSpacing" in r.value.props && r.value.props["cellSpacing"] == OrZero(p.cellSpacing)
    ensures r.Some? && "cellPadding" !in p.rest ==>
      "cellPadding" in r.value.props && r.value.props["cellPadding"] == OrZero(p.cellPadding)
  {
    match TableBody(p.children, p.tr, p.trs)
    case None => None
    case Some(body) =>
      var attrs := map["cellSpacing" := OrZero(p.cellSpacing),
                       "cellPadding" := OrZero(p.cellPadding),
                       "style" := PStyle(MergeStyle(TableDefaults, p.style))] + p.rest;
      Some(El("table", attrs, body))
  }

  /**
   Array children with a falsy `tr`: one `tbody` with one entry per child, in
   order; rows and styles unchanged; every other child in a row of its own,
   directly when it is a cell and `trs` is set, otherwise inside a new cell.
   */
  lemma TableArrayRows(xs: seq<Node>, tr: RowOption, trs: bool)
    requires !RowTruthy(tr) && Null !in xs
    ensures TableBody(Arr(xs), tr, trs).Some?
    ensures var b := TableBody(Arr(xs), tr, trs).value;
      IsHost(b, "tbody") && b.children.Arr? && |b.children.items| == |xs| &&
      forall i :: 0 <= i < |xs| ==>
        && IsRowOrStyle(b.children.items[i])
        && (IsRowOrStyle(xs[i]) ==> b.children.items[i] == xs[i])
        && (!IsRowOrStyle(xs[i]) && trs && IsHost(xs[i], "td") ==> b.children.items[i] == El("tr", map[], xs[i]))
        && (!IsRowOrStyle(xs[i]) && !(trs && IsHost(xs[i], "td")) ==>
              b.children.items[i] == El("tr", map[], El("td", map[], xs[i])))
  {
  }

  /** A text, number, boolean or missing child ends up in exactly one row and one cell. */
  lemma TableScalarCell(c: Node, tr: RowOption, trs: bool)
    requires c.Null? || c.Leaf? || c.Bool?
    ensures TableBody(c, tr, trs) == Some(El("tbody", map[], El("tr", TrAttrs(tr), El("td", map[], c))))
  {
  }

  /** A lone `thead`, `tfoot` or `tbody` is the body itself. */
  lemma TableSectionPassesThrough(c: Node, tr: RowOption, trs: bool)
    requires IsSection(c)
    ensures TableBody(c, tr, trs) == Some(c)
  {
  }

  /**
   Any other child goes in a `tbody`; a row or style element as it is, the
   rest inside one row when `tr` is truthy. An array with a truthy `tr` thus
   becomes one row holding all of its entries.
   */
  lemma TableWrapsOther(c: Node, tr: RowOption, trs: bool)
    requires c.Elem? || c.Arr?
    requires !IsSection(c)
    requires c.Arr? ==> RowTruthy(tr)
    ensures IsRowOrStyle(c) ==> TableBody(c, tr, trs) == Some(El("tbody", map[], c))
    ensures !IsRowOrStyle(c) && RowTruthy(tr) ==>
      TableBody(c, tr, trs) == Some(El("tbody", map[], El("tr", TrAttrs(tr), c)))
    ensures !IsRowOrStyle(c) && !RowTruthy(tr) ==> TableBody(c, tr, trs) == Some(El("tbody", map[], c))
  {
  }

  /**
   Handing a rendered body to another `Table`, with any `tr` and `trs`,
   gives back the same body: a table body is never wrapped twice.
   */
  lemma TableBodyStable(children: Node, tr: RowOption, trs: bool, tr': RowOption, trs': bool)
    requires TableBody(children, tr, trs).Some?
    ensures TableBody(TableBody(children, tr, trs).value, tr', trs') == TableBody(children, tr, trs)
  {
  }

  /** A cell as it is, or anything else inside a new cell carrying the shared `td` attributes. */
  function Cell(child: Node, td: Attrs): (r: Node)
    ensures IsHost(r, "td")
    ensures IsHost(child, "td") ==> r == child
    ensures !IsHost(child, "td") ==> r.props == td && r.children == child
  {
    if IsHost(child, "td") then child else El("td", td, child)
  }

  /** `Tr`: one row whose entries are the children, each a cell, in order. */
  function Tr(children: seq<Node>, td: Attrs): (r: Node)
    ensures IsHost(r, "tr") && r.props == map[] && r.children.Arr?
    ensures |r.children.items| == |children|
    ensures forall i :: 0 <= i < |children| ==> r.children.items[i] == Cell(children[i], td)
  {
    El("tr", map[], Arr(seq(|children|, i requires 0 <= i < |children| => Cell(children[i], td))))
  }

  /** Every entry of a `Tr` is a cell, so feeding its entries back in changes nothing. */
  lemma TrIdempotent(children: seq<Node>, td: Attrs, td': Attrs)
    ensures forall i :: 0 <= i < |children| ==> IsHost(Tr(children, td).children.items[i], "td")
    ensures Tr(Tr(children, td).children.items, td') == Tr(children, td)
  {
  }

  /** One entry of `Trs`: a row passes, a cell gets a row, anything else a row and a cell. */
  function RowOf(child: Node, td: Attrs): (r: Node)
    ensures IsHost(r, "tr")
    ensures IsHost(child, "tr") ==> r == child
    ensures !IsHost(child, "tr") ==> r.props == map[] && r.children == Cell(child, td)
  {
    if IsHost(child, "tr") then child else El("tr", map[], Cell(child, td))
  }

  /** `Trs`: a fragment of rows, one per child, in order; `None` when a child is `null`. */
  function Trs(children: seq<Node>, td: Attrs): (r: Option<Node>)
    ensures r.None? <==> Null in children
    ensures r.Some? ==> r.value.Elem? && r.value.kind == Fragment && r.value.children.Arr?
    ensures r.Some? ==> |r.value.children.items| == |children|
    ensures r.Some? ==> forall i :: 0 <= i < |children| ==> r.value.children.items[i] == RowOf(children[i], td)
  {
    if Null in children then None
    else Some(Elem(Fragment, map[], Arr(seq(|children|, i requires 0 <= i < |children| => RowOf(children[i], td)))))
  }

  /** Every entry of a `Trs` is a row, so feeding its entries back in changes nothing. */
  lemma TrsIdempotent(children: seq<Node>, td: Attrs, td': Attrs)
    requires Null !in children
    ensures forall i :: 0 <= i < |children| ==> IsHost(Trs(children, td).value.children.items[i], "tr")
    ensures Trs(Trs(children, td).value.children.items, td') == Trs(children, td)
  {
    var once := Trs(children, td).value.children.items;
    assert Null !in once by {
      forall i | 0 <= i < |once|
        ensures once[i] != Null
      {
        assert IsHost(once[i], "tr");
      }
    }
    assert Trs(once, td').value.children.items == once;
  }

  function StartsWith(s: string, prefix: string): bool {
    |prefix| <= |s| && s[..|prefix|] == prefix
  }

  /** The `src` rule of `Image`; an absent `src` is the empty string. */
  function ImageSrc(src: string): (r: string)
    ensures src == "" ==> r == ""
    ensures StartsWith(src, "http") ==> r == src
    ensures src != "" && !StartsWith(src, "http") ==> r == "./" + src
  {
    if src == "" then "" else if StartsWith(src, "http") then src else "./" + src
  }

  /** A relative path gains another `./` each time, even one that already has it. */
  lemma ImageSrcRelativeGrows(src: string)
    requires src != "" && !StartsWith(src, "http")
    ensures ImageSrc(ImageSrc(src)) == "././" + src
  {
    assert ("./" + src)[0] == '.';
  }

  const ImageDefaults: Style := map["maxWidth" := CssStr("100%")]

  /**
   `Image`: an `<img>` with the rewritten `src`, `alt` defaulting to the empty
   string, the remaining props spread over both, and the merged style last.
   */
  function Image(src: string, style: Style, rest: Attrs): (r: Node)
    ensures IsHost(r, "img") && r.children == Null
    ensures "src" !in rest ==> "src" in r.props && r.props["src"] == PStr(ImageSrc(src))
    ensures "alt" in rest ==> "alt" in r.props && r.props["alt"] == rest["alt"]
    ensures "alt" !in rest ==> "alt" in r.props && r.props["alt"] == PStr("")
    ensures "style" in r.props && r.props["style"] == PStyle(MergeStyle(ImageDefaults, style))
    ensures forall k :: k in rest && k != "style" ==> k in r.props && r.props[k] == rest[k]
    ensures r.props.Keys == {"src", "alt", "style"} + rest.Keys
  {
    var attrs := map["src" := PStr(ImageSrc(src)), "alt" := PStr("")] + rest;
    El("img", attrs + map["style" := PStyle(MergeStyle(ImageDefaults, style))], Null)
  }

  const LinkDefaults: Style :=
    map["textDecoration" := CssStr("none"), "color" := CssStr("inherit"), "fontSize" := CssStr("inherit")]

  /** `Link`: an `<a>` with the merged style, then the remaining props, around the children. */
  function Link(children: Node, style: Style, rest: Attrs): (r: Node)
    ensures IsHost(r, "a") && r.children == children
    ensures "style" !in rest ==> "style" in r.props && r.props["style"] == PStyle(MergeStyle(LinkDefaults, style))
    ensures forall k :: k in rest ==> k in r.props && r.props[k] == rest[k]
    ensures r.props.Keys == {"style"} + rest.Keys
  {
    El("a", map["style" := PStyle(MergeStyle(LinkDefaults, style))] + rest, children)
  }

  const ParagraphDefaults: Style := map["margin" := CssNum(0), "padding" := CssNum(0)]

  /** `Paragraph`: a `<p>` with the merged style, then the remaining props, around the children. */
  function Paragraph(children: Node, style: Style, rest: Attrs): (r: Node)
    ensures IsHost(r, "p") && r.children == children
    ensures "style" !in rest ==> "style" in r.props && r.props["style"] == PStyle(MergeStyle(ParagraphDefaults, style))
    ensures forall k :: k in rest ==> k in r.props && r.props[k] == rest[k]
    ensures r.props.Keys == {"style"} + rest.Keys
  {
    El("p", map["style" := PStyle(MergeStyle(ParagraphDefaults, style))] + rest, children)
  }

  /** Without a caller style, every default of `Link` and `Paragraph` is in place. */
  lemma DefaultStylesApply(children: Node, rest: Attrs)
    requires "style" !in rest
    ensures Link(children, map[], rest).props["style"] == PStyle(LinkDefaults)
    ensures Paragraph(children, map[], rest).props["style"] == PStyle(ParagraphDefaults)
  {
    assert MergeStyle(LinkDefaults, map[]) == LinkDefaults;
    assert MergeStyle(ParagraphDefaults, map[]) == ParagraphDefaults;
  }
}
