/** The element tree the conversion passes rewrite, standing in for lxml's.

    An element has a tag, an ordered attribute list, optional text before its
    first child, its children, and optional tail text that follows it inside
    its parent. A comment has content and a tail. "Document order" is preorder:
    a node comes before its children, and the children come in order. */
module Tree {
  import opened Wrappers
  import opened Text

  type Attr = (string, string)

  datatype Node =
    | Element(tag: string, attrs: seq<Attr>, text: Option<string>, children: seq<Node>, tail: Option<string>)
    | Comment(content: string, tail: Option<string>)

  /** A freshly created element with no children and no tail (`etree.Element`). */
  function Leaf(tag: string, attrs: seq<Attr>, text: Option<string>): Node {
    Element(tag, attrs, text, [], None)
  }

  // ---------------------------------------------------------------- attributes

  /** `node.get(key)`: the value of the first attribute named `key`. */
  function GetAttr(attrs: seq<Attr>, key: string): Option<string>
    decreases |attrs|
  {
    if attrs == [] then None
    else if attrs[0].0 == key then Some(attrs[0].1)
    else GetAttr(attrs[1..], key)
  }

  /** `node.attrib[key] = value`: an existing attribute keeps its place and
      takes the new value; a new one is added at the end. */
  function SetAttr(attrs: seq<Attr>, key: string, value: string): (r: seq<Attr>)
    ensures GetAttr(r, key) == Some(value)
    ensures forall k :: k != key ==> GetAttr(r, k) == GetAttr(attrs, k)
    ensures |r| == |attrs| + (if GetAttr(attrs, key).None? then 1 else 0)
    decreases |attrs|
  {
    if attrs == [] then [(key, value)]
    else if attrs[0].0 == key then [(key, value)] + attrs[1..]
    else [attrs[0]] + SetAttr(attrs[1..], key, value)
  }

  predicate HasTag(n: Node, tag: string) {
    n.Element? && n.tag == tag
  }

  /** XPath `[@key="value"]`. */
  predicate AttrIs(n: Node, key: string, value: string) {
    n.Element? && GetAttr(n.attrs, key) == Some(value)
  }

  /** XPath `[contains(@key, "part")]`: the attribute exists and contains `part`. */
  predicate AttrContains(n: Node, key: string, part: string) {
    n.Element? && GetAttr(n.attrs, key).Some? && Contains(GetAttr(n.attrs, key).value, part)
  }

  function ChildrenOf(n: Node): seq<Node> {
    if n.Element? then n.children else []
  }

  // ------------------------------------------------------------ document order

  /** The node alone: an element loses its children, a comment stays as it is. */
  function Label(n: Node): Node {
    match n
    case Element(tag, attrs, text, _, tail) => Element(tag, attrs, text, [], tail)
    case Comment(_, _) => n
  }

  /** A node met in document order, with the label of its parent
      (None at the root). */
  datatype Site = Site(parent: Option<Node>, node: Node)

  /** Every node of the subtree in document order, root first. */
  function Preorder(n: Node, parent: Option<Node>): (r: seq<Site>)
    ensures |r| > 0 && r[0] == Site(parent, n)
    decreases n
  {
    match n
    case Element(_, _, _, children, _) => [Site(parent, n)] + PreorderList(children, Some(Label(n)))
    case Comment(_, _) => [Site(parent, n)]
  }

  function PreorderList(cs: seq<Node>, parent: Option<Node>): seq<Site>
    decreases cs
  {
    if cs == [] then [] else Preorder(cs[0], parent) + PreorderList(cs[1..], parent)
  }

  /** The labels of the subtree in document order. */
  function Labels(n: Node): (r: seq<Node>)
    ensures |r| > 0 && r[0] == Label(n)
    decreases n
  {
    match n
    case Element(_, _, _, children, _) => [Label(n)] + LabelsList(children)
    case Comment(_, _) => [Label(n)]
  }

  function LabelsList(cs: seq<Node>): seq<Node>
    decreases cs
  {
    if cs == [] then [] else Labels(cs[0]) + LabelsList(cs[1..])
  }

  /** The tree with every label erased: what stays when a pass only edits labels. */
  datatype Shape = Shape(children: seq<Shape>)

  function ShapeOf(n: Node): Shape
    decreases n
  {
    match n
    case Element(_, _, _, children, _) => Shape(ShapeList(children))
    case Comment(_, _) => Shape([])
  }

  function ShapeList(cs: seq<Node>): seq<Shape>
    decreases cs
  {
    if cs == [] then [] else [ShapeOf(cs[0])] + ShapeList(cs[1..])
  }

  function Size(n: Node): nat {
    |Labels(n)|
  }

  lemma {:induction false} LabelsListAppend(a: seq<Node>, b: seq<Node>)
    ensures LabelsList(a + b) == LabelsList(a) + LabelsList(b)
    decreases a
  {
    if a == [] {
      assert a + b == b;
    } else {
      assert (a + b)[0] == a[0];
      assert (a + b)[1..] == a[1..] + b;
      LabelsListAppend(a[1..], b);
    }
  }

  lemma LabelsListOne(x: Node)
    ensures LabelsList([x]) == Labels(x)
  {
    assert [x][1..] == [];
  }

  lemma {:induction false} PreorderListAppend(a: seq<Node>, b: seq<Node>, parent: Option<Node>)
    ensures PreorderList(a + b, parent) == PreorderList(a, parent) + PreorderList(b, parent)
    decreases a
  {
    if a == [] {
      assert a + b == b;
    } else {
      assert (a + b)[0] == a[0];
      assert (a + b)[1..] == a[1..] + b;
      PreorderListAppend(a[1..], b, parent);
    }
  }

  /** The labels are the labels of the document-order nodes, index by index. */
  lemma {:induction false} LabelsMatchPreorder(n: Node, parent: Option<Node>)
    ensures |Labels(n)| == |Preorder(n, parent)|
    ensures forall i :: 0 <= i < |Labels(n)| ==> Labels(n)[i] == Label(Preorder(n, parent)[i].node)
    decreases n
  {
    if n.Element? {
      LabelsListMatchPreorder(n.children, Some(Label(n)));
    }
  }

  lemma {:induction false} LabelsListMatchPreorder(cs: seq<Node>, parent: Option<Node>)
    ensures |LabelsList(cs)| == |PreorderList(cs, parent)|
    ensures forall i :: 0 <= i < |LabelsList(cs)| ==> LabelsList(cs)[i] == Label(PreorderList(cs, parent)[i].node)
    decreases cs
  {
    if cs != [] {
      LabelsMatchPreorder(cs[0], parent);
      LabelsListMatchPreorder(cs[1..], parent);
    }
  }

  // ----------------------------------------------------------- index paths

  /** `node[i0][i1]...`: the node an index path leads to, if every index
      is in range. */
  function At(n: Node, path: seq<nat>): Option<Node>
    decreases |path|
  {
    if path == [] then Some(n)
    else if n.Comment? || path[0] >= |n.children| then None
    else At(n.children[path[0]], path[1..])
  }

  // ------------------------------------------------------------------ counting

  /** How many of the labels satisfy `P`. */
  function CountLabels(P: Node -> bool, ls: seq<Node>): nat
    decreases |ls|
  {
    if ls == [] then 0 else (if P(ls[0]) then 1 else 0) + CountLabels(P, ls[1..])
  }

  lemma {:induction false} CountLabelsAppend(P: Node -> bool, a: seq<Node>, b: seq<Node>)
    ensures CountLabels(P, a + b) == CountLabels(P, a) + CountLabels(P, b)
    decreases |a|
  {
    if a == [] {
      assert a + b == b;
    } else {
      assert (a + b)[0] == a[0];
      assert (a + b)[1..] == a[1..] + b;
      CountLabelsAppend(P, a[1..], b);
    }
  }

  /** Pointwise-equivalent tests count alike. */
  lemma {:induction false} CountLabelsPointwise(P: Node -> bool, a: seq<Node>, Q: Node -> bool, b: seq<Node>)
    requires |a| == |b| && forall i :: 0 <= i < |a| ==> P(a[i]) == Q(b[i])
    ensures CountLabels(P, a) == CountLabels(Q, b)
    decreases |a|
  {
    if a != [] {
      CountLabelsPointwise(P, a[1..], Q, b[1..]);
    }
  }

  /** A label satisfying `P` at index i makes the count before any later
      index larger than the count before i. */
  lemma CountLabelsGrows(P: Node -> bool, ls: seq<Node>, i: nat, j: nat)
    requires i < j <= |ls| && P(ls[i])
    ensures CountLabels(P, ls[..j]) >= CountLabels(P, ls[..i]) + 1
  {
    assert ls[..j] == ls[..i] + ls[i..j];
    CountLabelsAppend(P, ls[..i], ls[i..j]);
    assert ls[i..j][0] == ls[i];
  }

  /** The labels satisfying `P`, in order. */
  function Filter(P: Node -> bool, ls: seq<Node>): (r: seq<Node>)
    ensures |r| == CountLabels(P, ls)
    decreases |ls|
  {
    if ls == [] then [] else (if P(ls[0]) then [ls[0]] else []) + Filter(P, ls[1..])
  }

  /** The k-th label `Filter` keeps is the one at the index where the count
      of earlier kept labels reaches k. */
  lemma {:induction false} FilterNth(P: Node -> bool, ls: seq<Node>, k: nat) returns (i: nat)
    requires k < |Filter(P, ls)|
    ensures i < |ls| && P(ls[i]) && CountLabels(P, ls[..i]) == k && Filter(P, ls)[k] == ls[i]
    decreases |ls|
  {
    assert ls != [];
    if P(ls[0]) && k == 0 {
      i := 0;
      assert ls[..0] == [];
    } else {
      var k' := if P(ls[0]) then k - 1 else k;
      var i' := FilterNth(P, ls[1..], k');
      i := i' + 1;
      assert ls[..i][0] == ls[0];
      assert ls[..i][1..] == ls[1..][..i'];
    }
  }

  /** Nodes with tag `tag` in the subtree. */
  function CountTag(n: Node, tag: string): nat {
    CountLabels((m: Node) => HasTag(m, tag), Labels(n))
  }

  /** Every node of the subtree (with its own subtree) satisfies `P`. */
  predicate Every(P: Node -> bool, n: Node)
    decreases n
  {
    match n
    case Element(_, _, _, children, _) => P(n) && EveryList(P, children)
    case Comment(_, _) => P(n)
  }

  predicate EveryList(P: Node -> bool, cs: seq<Node>)
    decreases cs
  {
    cs == [] || (Every(P, cs[0]) && EveryList(P, cs[1..]))
  }

  lemma {:induction false} EveryListAppend(P: Node -> bool, a: seq<Node>, b: seq<Node>)
    ensures EveryList(P, a + b) <==> EveryList(P, a) && EveryList(P, b)
    decreases a
  {
    if a == [] {
      assert a + b == b;
    } else {
      EveryListAppend(P, a[1..], b);
      assert (a + b)[0] == a[0] && (a + b)[1..] == a[1..] + b;
    }
  }

  lemma EveryListOne(P: Node -> bool, x: Node)
    ensures EveryList(P, [x]) <==> Every(P, x)
  {
    assert [x][1..] == [];
  }

  /** A property that looks only at a node's label holds of the whole
      subtree exactly when it holds of every label in document order. */
  lemma {:induction false} EveryLabels(P: Node -> bool, n: Node)
    requires forall m :: P(Label(m)) == P(m)
    ensures Every(P, n) ==> forall k :: 0 <= k < |Labels(n)| ==> P(Labels(n)[k])
    decreases n
  {
    match n
    case Comment(_, _) =>
    case Element(_, _, _, children, _) =>
      EveryListLabels(P, children);
  }

  lemma {:induction false} EveryListLabels(P: Node -> bool, cs: seq<Node>)
    requires forall m :: P(Label(m)) == P(m)
    ensures EveryList(P, cs) ==> forall k :: 0 <= k < |LabelsList(cs)| ==> P(LabelsList(cs)[k])
    decreases cs
  {
    if cs != [] {
      EveryLabels(P, cs[0]);
      EveryListLabels(P, cs[1..]);
    }
  }

  // -------------------------------------------------------------- text content

  /** `''.join(node.itertext())`: the text of the node and of every
      descendant element, each descendant followed by its tail. A comment
      gives only its tail, and the node's own tail is not part of it. */
  function TextContent(n: Node): string
    decreases n
  {
    match n
    case Element(_, _, text, children, _) => text.GetOr("") + TextContentList(children)
    case Comment(_, _) => ""
  }

  function TextContentList(cs: seq<Node>): string
    decreases cs
  {
    if cs == [] then "" else TextContent(cs[0]) + cs[0].tail.GetOr("") + TextContentList(cs[1..])
  }
}
