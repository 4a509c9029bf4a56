/** The HTML node tree and its serialiser (`src/htmlnode.py`).

    Python's `HTMLNode`, `LeafNode` and `ParentNode` share the four
    attributes `tag`, `value`, `children` and `props`; the subclasses only
    fix some of them at construction and override `to_html`. Equality
    (`HTMLNode.__eq__`) looks at the four attributes and not at the class.
    The model therefore keeps one record with the class as a field. */
module HtmlNodes {
  import opened Wrappers
  import opened PyStrings

  /** One attribute: its name and its value. The value is `None` when it was
      built from an absent url; Python then renders it as `None`. */
  type Attr = (string, Option<string>)

  predicate DistinctKeys(attrs: seq<Attr>) {
    forall i, j | 0 <= i < j < |attrs| :: attrs[i].0 != attrs[j].0
  }

  /** A Python dict of attributes: distinct keys, kept in insertion order. */
  type Props = attrs: seq<Attr> | DistinctKeys(attrs) witness []

  datatype NodeClass = BaseClass | LeafClass | ParentClass

  /** The `children` attribute: `None`, or a list of nodes. */
  datatype Children = NoChildren | ChildList(nodes: seq<HtmlNode>)

  datatype HtmlNode = HtmlNode(
    cls: NodeClass,
    tag: Option<string>,
    value: Option<string>,
    children: Children,
    props: Option<Props>)

  /** `HTMLNode(tag, value, children, props)` */
  function BaseNode(tag: Option<string>, value: Option<string>, children: Children, props: Option<Props>): HtmlNode {
    HtmlNode(BaseClass, tag, value, children, props)
  }

  /** `LeafNode(tag, value, props)`: no children. */
  function LeafNode(tag: Option<string>, value: Option<string>, props: Option<Props>): HtmlNode {
    HtmlNode(LeafClass, tag, value, NoChildren, props)
  }

  /** `ParentNode(tag, children, props)`: no value. */
  function ParentNode(tag: Option<string>, children: Children, props: Option<Props>): HtmlNode {
    HtmlNode(ParentClass, tag, None, children, props)
  }

  /** What an f-string prints for a string-or-None value. */
  function Show(v: Option<string>): string {
    match v
    case None => "None"
    case Some(s) => s
  }

  /** ` key="value"`, with no escaping of the value. */
  function AttrToHtml(a: Attr): string {
    " " + a.0 + "=\"" + Show(a.1) + "\""
  }

  /** The accumulation loop of `props_to_html`: each entry is appended to
      what the earlier entries produced. */
  function AttrsToHtml(attrs: seq<Attr>): string {
    if |attrs| == 0 then "" else AttrsToHtml(attrs[..|attrs| - 1]) + AttrToHtml(attrs[|attrs| - 1])
  }

  /** `HTMLNode.props_to_html` */
  function PropsToHtml(props: Option<Props>): (r: string)
    ensures props.None? ==> r == ""
    ensures props.Some? && |props.value| == 0 ==> r == ""
    ensures props.Some? && |props.value| > 0 ==> StartsWith(r, " " + props.value[0].0 + "=\"")
  {
    match props
    case None => ""
    case Some(attrs) =>
      if |attrs| == 0 then ""
      else
        AttrsStartWithFirst(attrs);
        AttrsToHtml(attrs)
  }

  lemma {:induction false} AttrsStartWithFirst(attrs: seq<Attr>)
    requires |attrs| > 0
    ensures StartsWith(AttrsToHtml(attrs), " " + attrs[0].0 + "=\"")
    decreases |attrs|
  {
    var init := attrs[..|attrs| - 1];
    if |init| > 0 {
      AttrsStartWithFirst(init);
      assert init[0] == attrs[0];
    } else {
      assert AttrsToHtml(attrs) == AttrToHtml(attrs[0]);
    }
  }

  /** `<tag attrs>body</tag>` */
  function Element(tag: string, attrs: string, body: string): string {
    "<" + tag + attrs + ">" + body + "</" + tag + ">"
  }

  /** `<tag props>` */
  function OpenTag(tag: string, props: Option<Props>): string {
    "<" + tag + PropsToHtml(props) + ">"
  }

  /** `</tag>` */
  function CloseTag(tag: string): string {
    "</" + tag + ">"
  }

  /** An element is its opening tag, its body and its closing tag, and the
      body can be cut back out of it. */
  lemma ElementParts(tag: string, props: Option<Props>, body: string)
    ensures var s := Element(tag, PropsToHtml(props), body);
      && s == OpenTag(tag, props) + body + CloseTag(tag)
      && StartsWith(s, OpenTag(tag, props)) && EndsWith(s, CloseTag(tag))
      && |s| == |OpenTag(tag, props)| + |body| + |CloseTag(tag)|
      && s[|OpenTag(tag, props)|..|s| - |CloseTag(tag)|] == body
  {
    var s := Element(tag, PropsToHtml(props), body);
    assert s == OpenTag(tag, props) + body + CloseTag(tag);
  }

  /** The structural condition under which `to_html` succeeds: a leaf needs a
      value; a parent needs a tag and a non-empty list of renderable
      children; a base node never renders. */
  predicate Renderable(n: HtmlNode)
    decreases n
  {
    match n.cls
    case BaseClass => false
    case LeafClass => n.value.Some?
    case ParentClass =>
      && n.tag.Some?
      && match n.children
         case NoChildren => false
         case ChildList(cs) => |cs| > 0 && forall i | 0 <= i < |cs| :: Renderable(cs[i])
  }

  /** `to_html` of the three classes: the base class raises
      NotImplementedError, `LeafNode.to_html` and `ParentNode.to_html` raise
      ValueError on a missing value, tag or children. */
  function ToHtml(n: HtmlNode): (r: Result<string>)
    ensures r.Success? <==> Renderable(n)
    ensures r.Success? && n.tag.None? ==> n.cls == LeafClass && r.value == n.value.value
    ensures r.Success? && n.tag.Some? ==>
      StartsWith(r.value, OpenTag(n.tag.value, n.props)) && EndsWith(r.value, CloseTag(n.tag.value))
    ensures r.Success? && n.cls == LeafClass && n.tag.Some? ==>
      |r.value| == |OpenTag(n.tag.value, n.props)| + |n.value.value| + |CloseTag(n.tag.value)|
      && r.value[|OpenTag(n.tag.value, n.props)|..|r.value| - |CloseTag(n.tag.value)|] == n.value.value
    decreases n, 1
  {
    match n.cls
    case BaseClass => Failure("NotImplementedError")
    case LeafClass =>
      if n.value.None? then Failure("Invalid HTML: no value")
      else if n.tag.None? then Success(n.value.value)
      else
        ElementParts(n.tag.value, n.props, n.value.value);
        Success(Element(n.tag.value, PropsToHtml(n.props), n.value.value))
    case ParentClass =>
      if n.tag.None? then Failure("Invalid HTML: no tag")
      else if n.children.NoChildren? || |n.children.nodes| == 0 then Failure("Invalid HTML: no children")
      else
        match ChildrenToHtml(n, 0)
        case Failure(e) => Failure(e)
        case Success(nested) =>
          ElementParts(n.tag.value, n.props, nested);
          Success(Element(n.tag.value, PropsToHtml(n.props), nested))
  }

  /** The loop of `ParentNode.to_html` from child `i` on: each child's
      rendering is appended in order, and the first child that raises makes
      the whole call raise. */
  function ChildrenToHtml(n: HtmlNode, i: nat): (r: Result<string>)
    requires n.children.ChildList? && i <= |n.children.nodes|
    ensures r.Success? <==> forall j | i <= j < |n.children.nodes| :: Renderable(n.children.nodes[j])
    decreases n, 0, |n.children.nodes| - i
  {
    var cs := n.children.nodes;
    if i == |cs| then Success("")
    else
      match ToHtml(cs[i])
      case Failure(e) => Failure(e)
      case Success(head) =>
        match ChildrenToHtml(n, i + 1)
        case Failure(e) => Failure(e)
        case Success(tail) => Success(head + tail)
  }

  /** Python dict contents: later entries for a key would override earlier
      ones; with distinct keys every entry survives. */
  function AsMap(attrs: seq<Attr>): map<string, Option<string>> {
    if |attrs| == 0 then map[]
    else AsMap(attrs[..|attrs| - 1])[attrs[|attrs| - 1].0 := attrs[|attrs| - 1].1]
  }

  /** `props == other.props`: both None, or equal as dicts (order ignored). */
  predicate PropsEq(p: Option<Props>, q: Option<Props>) {
    match (p, q)
    case (None, None) => true
    case (Some(a), Some(b)) => AsMap(a) == AsMap(b)
    case _ => false
  }

  /** `HTMLNode.__eq__`: tag, value, children and props compared one by one;
      the lists of children are compared element-wise with the same test. */
  predicate NodeEq(a: HtmlNode, b: HtmlNode)
    decreases a
  {
    && a.tag == b.tag
    && a.value == b.value
    && PropsEq(a.props, b.props)
    && match a.children
       case NoChildren => b.children.NoChildren?
       case ChildList(xs) =>
         && b.children.ChildList?
         && |xs| == |b.children.nodes|
         && forall i | 0 <= i < |xs| :: NodeEq(xs[i], b.children.nodes[i])
  }

  /** The renderings of children that all render. */
  function ChildRenderings(cs: seq<HtmlNode>): (r: seq<string>)
    requires forall i | 0 <= i < |cs| :: Renderable(cs[i])
    ensures |r| == |cs|
  {
    seq(|cs|, i requires 0 <= i < |cs| => ToHtml(cs[i]).value)
  }

  /** `props_to_html` is the in-order concatenation of ` key="value"` over
      the entries: no sorting, no escaping. */
  lemma {:induction false} PropsToHtmlInOrder(attrs: Props)
    ensures PropsToHtml(Some(attrs)) == Flatten(seq(|attrs|, i requires 0 <= i < |attrs| => AttrToHtml(attrs[i])))
    decreases |attrs|
  {
    var pieces := seq(|attrs|, i requires 0 <= i < |attrs| => AttrToHtml(attrs[i]));
    if |attrs| > 0 {
      var init: Props := attrs[..|attrs| - 1];
      PropsToHtmlInOrder(init);
      var initPieces := seq(|init|, i requires 0 <= i < |init| => AttrToHtml(init[i]));
      assert pieces == initPieces + [AttrToHtml(attrs[|attrs| - 1])];
      FlattenAppend(initPieces, [AttrToHtml(attrs[|attrs| - 1])]);
      assert PropsToHtml(Some(init)) == AttrsToHtml(init);
      assert AttrsToHtml(attrs) == AttrsToHtml(init) + AttrToHtml(attrs[|attrs| - 1]);
      assert Flatten([AttrToHtml(attrs[|attrs| - 1])]) == AttrToHtml(attrs[|attrs| - 1]);
    }
  }

  lemma {:induction false} ChildrenToHtmlConcat(n: HtmlNode, i: nat)
    requires n.children.ChildList? && i <= |n.children.nodes|
    requires forall j | i <= j < |n.children.nodes| :: Renderable(n.children.nodes[j])
    ensures ChildrenToHtml(n, i) == Success(Flatten(ChildRenderings(n.children.nodes[i..])))
    decreases |n.children.nodes| - i
  {
    var cs := n.children.nodes;
    if i < |cs| {
      ChildrenToHtmlConcat(n, i + 1);
      assert cs[i..][1..] == cs[i + 1..];
      assert ChildRenderings(cs[i..]) == [ToHtml(cs[i]).value] + ChildRenderings(cs[i + 1..]);
    }
  }

  /** A parent that renders produces its opening tag, then every child's
      rendering in order, then its closing tag. */
  lemma ParentRendersChildrenInOrder(tag: string, cs: seq<HtmlNode>, props: Option<Props>)
    requires |cs| > 0 && forall i | 0 <= i < |cs| :: Renderable(cs[i])
    ensures ToHtml(ParentNode(Some(tag), ChildList(cs), props))
         == Success(Element(tag, PropsToHtml(props), Flatten(ChildRenderings(cs))))
  {
    ChildrenToHtmlConcat(ParentNode(Some(tag), ChildList(cs), props), 0);
    assert cs[0..] == cs;
  }

  lemma {:induction false} ChildrenToHtmlFirstFailure(n: HtmlNode, i: nat, k: nat)
    requires n.children.ChildList? && i <= k < |n.children.nodes|
    requires forall j | i <= j < k :: Renderable(n.children.nodes[j])
    requires !Renderable(n.children.nodes[k])
    ensures ChildrenToHtml(n, i) == Failure(ToHtml(n.children.nodes[k]).error)
    decreases k - i
  {
    if i < k {
      ChildrenToHtmlFirstFailure(n, i + 1, k);
    }
  }

  /** A parent with a tag and children raises exactly what its first failing
      child raises. */
  lemma ParentRaisesFirstChildError(tag: string, cs: seq<HtmlNode>, props: Option<Props>, k: nat)
    requires k < |cs|
    requires forall j | 0 <= j < k :: Renderable(cs[j])
    requires !Renderable(cs[k])
    ensures ToHtml(ParentNode(Some(tag), ChildList(cs), props)) == Failure(ToHtml(cs[k]).error)
  {
    ChildrenToHtmlFirstFailure(ParentNode(Some(tag), ChildList(cs), props), 0, k);
  }

  /** Node equality is reflexive. */
  lemma {:induction false} NodeEqReflexive(a: HtmlNode)
    ensures NodeEq(a, a)
    decreases a
  {
    match a.children
    case NoChildren =>
    case ChildList(xs) =>
      forall i | 0 <= i < |xs| ensures NodeEq(xs[i], xs[i]) {
        NodeEqReflexive(xs[i]);
      }
  }

  /** Node equality is symmetric. */
  lemma {:induction false} NodeEqSymmetric(a: HtmlNode, b: HtmlNode)
    requires NodeEq(a, b)
    ensures NodeEq(b, a)
    decreases a
  {
    match a.children
    case NoChildren =>
    case ChildList(xs) =>
      var ys := b.children.nodes;
      forall i | 0 <= i < |ys| ensures NodeEq(ys[i], xs[i]) {
        NodeEqSymmetric(xs[i], ys[i]);
      }
  }

  /** Node equality is transitive. */
  lemma {:induction false} NodeEqTransitive(a: HtmlNode, b: HtmlNode, c: HtmlNode)
    requires NodeEq(a, b) && NodeEq(b, c)
    ensures NodeEq(a, c)
    decreases a
  {
    match a.children
    case NoChildren =>
    case ChildList(xs) =>
      var ys := b.children.nodes;
      var zs := c.children.nodes;
      forall i | 0 <= i < |xs| ensures NodeEq(xs[i], zs[i]) {
        NodeEqTransitive(xs[i], ys[i], zs[i]);
      }
  }

  /** Equality ignores the class: a leaf that renders equals a base node
      with the same attributes, which never renders. */
  lemma EqualityIgnoresClass(tag: Option<string>, value: string, props: Option<Props>)
    ensures NodeEq(LeafNode(tag, Some(value), props), BaseNode(tag, Some(value), NoChildren, props))
    ensures ToHtml(LeafNode(tag, Some(value), props)).Success?
    ensures ToHtml(BaseNode(tag, Some(value), NoChildren, props)).Failure?
  {
    NodeEqReflexive(LeafNode(tag, Some(value), props));
  }

  /** Two attributes in either order form the same dict when their keys
      differ, but render starting with different keys. */
  lemma SwappedAttributes(k1: string, v1: Option<string>, k2: string, v2: Option<string>)
    requires |k1| > 0 && |k2| > 0 && k1[0] != k2[0]
    ensures DistinctKeys([(k1, v1), (k2, v2)]) && DistinctKeys([(k2, v2), (k1, v1)])
    ensures AsMap([(k1, v1), (k2, v2)]) == AsMap([(k2, v2), (k1, v1)])
    ensures PropsToHtml(Some([(k1, v1), (k2, v2)]))[1] == k1[0]
    ensures PropsToHtml(Some([(k2, v2), (k1, v1)]))[1] == k2[0]
  {
    var p: Props := [(k1, v1), (k2, v2)];
    var q: Props := [(k2, v2), (k1, v1)];
    assert p[..1] == [(k1, v1)] && q[..1] == [(k2, v2)];
    assert [(k1, v1)][..0] == [] && [(k2, v2)][..0] == [];
    assert AsMap([(k1, v1)]) == map[k1 := v1];
    assert AsMap([(k2, v2)]) == map[k2 := v2];
    assert AsMap(p) == map[k1 := v1, k2 := v2];
    assert AsMap(q) == map[k1 := v1, k2 := v2];
    assert (" " + k1 + "=\"")[1] == k1[0];
    assert (" " + k2 + "=\"")[1] == k2[0];
  }

  /** A single attribute renders as itself. */
  lemma OneAttribute(a: Attr)
    ensures DistinctKeys([a])
    ensures PropsToHtml(Some([a])) == AttrToHtml(a)
  {
    assert AttrsToHtml([a]) == AttrsToHtml([]) + AttrToHtml(a);
  }

  /** Two attributes with different names render in the order given. */
  lemma TwoAttributes(a: Attr, b: Attr)
    requires a.0 != b.0
    ensures DistinctKeys([a, b])
    ensures PropsToHtml(Some([a, b])) == AttrToHtml(a) + AttrToHtml(b)
  {
    assert [a, b][..1] == [a];
    OneAttribute(a);
    assert AttrsToHtml([a, b]) == AttrsToHtml([a]) + AttrToHtml(b);
  }

  /** A leaf with a tag and a value renders as that element. */
  lemma LeafRendering(tag: string, value: string, props: Option<Props>)
    ensures ToHtml(LeafNode(Some(tag), Some(value), props))
         == Success(Element(tag, PropsToHtml(props), value))
  {
  }

  /** The character right after `<tag ` in a rendered leaf is the first
      character of its first attribute's name. */
  lemma LeafFirstAttributeChar(tag: string, value: string, props: Props)
    requires |props| > 0 && |props[0].0| > 0
    ensures ToHtml(LeafNode(Some(tag), Some(value), Some(props))).Success?
    ensures ToHtml(LeafNode(Some(tag), Some(value), Some(props))).value[|tag| + 2] == props[0].0[0]
  {
    LeafRendering(tag, value, Some(props));
    var x := PropsToHtml(Some(props));
    assert x[1] == (" " + props[0].0 + "=\"")[1] == props[0].0[0];
    assert Element(tag, x, value)[|tag| + 2] == x[1];
  }

  /** Equality ignores the order of the attributes, although the order
      changes what `to_html` produces. */
  lemma EqualityIgnoresAttributeOrder(tag: string, value: string,
                                      k1: string, v1: Option<string>, k2: string, v2: Option<string>)
    requires |k1| > 0 && |k2| > 0 && k1[0] != k2[0]
    ensures DistinctKeys([(k1, v1), (k2, v2)]) && DistinctKeys([(k2, v2), (k1, v1)])
    ensures var leaf := LeafNode(Some(tag), Some(value), Some([(k1, v1), (k2, v2)]));
            var swapped := LeafNode(Some(tag), Some(value), Some([(k2, v2), (k1, v1)]));
            NodeEq(leaf, swapped) && ToHtml(leaf).Success? && ToHtml(swapped).Success?
            && ToHtml(leaf) != ToHtml(swapped)
  {
    SwappedAttributes(k1, v1, k2, v2);
    var p: Props := [(k1, v1), (k2, v2)];
    var q: Props := [(k2, v2), (k1, v1)];
    LeafFirstAttributeChar(tag, value, p);
    LeafFirstAttributeChar(tag, value, q);
  }
}
