/** Heading ids and the navigation built from the headings. */
module Headings {
  import opened Wrappers
  import opened Text
  import opened Tree
  import opened Rewrite

  predicate IsH1(n: Node) {
    HasTag(n, "h1")
  }

  /** The id of the k-th heading. */
  function HeadingId(k: nat): string {
    "heading" + NatToString(k)
  }

  lemma HeadingIdInjective(a: nat, b: nat)
    ensures HeadingId(a) == HeadingId(b) <==> a == b
  {
    if HeadingId(a) == HeadingId(b) {
      assert HeadingId(a)[7..] == NatToString(a);
      assert HeadingId(b)[7..] == NatToString(b);
      NatToStringInjective(a, b);
    }
  }

  /** Heading label `l` after it is given the id of heading k. */
  function WithId(l: Node, k: nat): (r: Node)
    requires l.Element?
    ensures r.Element? && r.tag == l.tag && r.text == l.text && r.children == l.children && r.tail == l.tail
    ensures GetAttr(r.attrs, "id") == Some(HeadingId(k))
    ensures forall key :: key != "id" ==> GetAttr(r.attrs, key) == GetAttr(l.attrs, key)
  {
    l.(attrs := SetAttr(l.attrs, "id", HeadingId(k)))
  }

  // ---------------------------------------------------------- heading ids

  /** `add_Head_IDs` as a counted pass: every `h1` (the query `//h1`
      includes the root) has its `id` set from the counter. */
  function HeadIdsPass(): Pass {
    Pass((s: Site) => IsH1(s.node),
         (k: nat, s: Site) => Ok(if s.node.Element? then Edit(SetAttr(s.node.attrs, "id", HeadingId(k)), s.node.text)
                                 else Edit([], None)))
  }

  /** `add_Head_IDs`: when switched on, the k-th `h1` in document order gets
      the id `headingk`, counting from 1; nothing else changes. */
  function AddHeadIds(enabled: bool, root: Node): (r: Node)
    ensures !enabled ==> r == root
    ensures ShapeOf(r) == ShapeOf(root) && |Labels(r)| == |Labels(root)|
    ensures enabled ==>
              forall i :: 0 <= i < |Labels(root)| ==>
                Labels(r)[i] == if IsH1(Labels(root)[i])
                                then WithId(Labels(root)[i], 1 + CountLabels(IsH1, Labels(root)[..i]))
                                else Labels(root)[i]
  {
    if !enabled then root
    else
      HeadIdsSpec(root);
      RunNode(HeadIdsPass(), root, None, 1).value.0
  }

  lemma HeadIdsSpec(root: Node)
    ensures RunNode(HeadIdsPass(), root, None, 1).Ok?
    ensures var r := RunNode(HeadIdsPass(), root, None, 1).value.0;
            && ShapeOf(r) == ShapeOf(root) && |Labels(r)| == |Labels(root)|
            && forall i :: 0 <= i < |Labels(root)| ==>
                 Labels(r)[i] == if IsH1(Labels(root)[i])
                                 then WithId(Labels(root)[i], 1 + CountLabels(IsH1, Labels(root)[..i]))
                                 else Labels(root)[i]
  {
    assert Labels(root)[0] == Label(root);
    HeadIdAt(root, 0);
    var r := RunNode(HeadIdsPass(), root, None, 1).value.0;
    forall i | 0 <= i < |Labels(root)|
      ensures Labels(r)[i] == if IsH1(Labels(root)[i])
                              then WithId(Labels(root)[i], 1 + CountLabels(IsH1, Labels(root)[..i]))
                              else Labels(root)[i]
    {
      HeadIdAt(root, i);
    }
  }

  /** The pass at one position of the document order. */
  lemma HeadIdAt(root: Node, i: nat)
    requires i < |Labels(root)|
    ensures RunNode(HeadIdsPass(), root, None, 1).Ok?
    ensures var r := RunNode(HeadIdsPass(), root, None, 1).value.0;
            ShapeOf(r) == ShapeOf(root) && |Labels(r)| == |Labels(root)|
    ensures var r := RunNode(HeadIdsPass(), root, None, 1).value.0;
            i < |Labels(r)| &&
            Labels(r)[i] == if IsH1(Labels(root)[i])
                            then WithId(Labels(root)[i], 1 + CountLabels(IsH1, Labels(root)[..i]))
                            else Labels(root)[i]
  {
    var p := HeadIdsPass();
    var sites := Preorder(root, None);
    RunSpec(p, root, None, 1);
    LabelsMatchPreorder(root, None);
    RankCounts(p, sites[..i], IsH1, Labels(root)[..i]);
  }

  /** No two headings share an id. */
  lemma HeadIdsDistinct(root: Node, i: nat, j: nat)
    requires i < j < |Labels(root)| && IsH1(Labels(root)[i]) && IsH1(Labels(root)[j])
    ensures var r := AddHeadIds(true, root);
            GetAttr(Labels(r)[i].attrs, "id") != GetAttr(Labels(r)[j].attrs, "id")
  {
    var r := AddHeadIds(true, root);
    var ci := 1 + CountLabels(IsH1, Labels(root)[..i]);
    var cj := 1 + CountLabels(IsH1, Labels(root)[..j]);
    assert Labels(r)[i] == WithId(Labels(root)[i], ci);
    assert Labels(r)[j] == WithId(Labels(root)[j], cj);
    CountLabelsGrows(IsH1, Labels(root), i, j);
    HeadingIdInjective(1 + CountLabels(IsH1, Labels(root)[..i]), 1 + CountLabels(IsH1, Labels(root)[..j]));
  }

  // -------------------------------------------------------------- finding

  /** `findall('.//h1')`: the descendants with the tag, whole, in document
      order (the node itself is not searched). */
  function FindAll(n: Node, tag: string): seq<Node> {
    match n
    case Element(_, _, _, children, _) => FindInList(children, tag)
    case Comment(_, _) => []
  }

  function FindIn(n: Node, tag: string): seq<Node>
    decreases n
  {
    match n
    case Element(_, _, _, children, _) => (if HasTag(n, tag) then [n] else []) + FindInList(children, tag)
    case Comment(_, _) => []
  }

  function FindInList(cs: seq<Node>, tag: string): seq<Node>
    decreases cs
  {
    if cs == [] then [] else FindIn(cs[0], tag) + FindInList(cs[1..], tag)
  }

  function LabelsOf(ns: seq<Node>): (r: seq<Node>)
    ensures |r| == |ns| && forall i :: 0 <= i < |ns| ==> r[i] == Label(ns[i])
  {
    seq(|ns|, i requires 0 <= i < |ns| => Label(ns[i]))
  }

  lemma {:induction false} FilterAppend(P: Node -> bool, a: seq<Node>, b: seq<Node>)
    ensures Filter(P, a + b) == Filter(P, a) + Filter(P, b)
    decreases |a|
  {
    if a == [] {
      assert a + b == b;
    } else {
      assert (a + b)[0] == a[0];
      assert (a + b)[1..] == a[1..] + b;
      FilterAppend(P, a[1..], b);
    }
  }

  /** What `findall` finds are, label for label, the nodes with the tag
      among the document-order labels. */
  lemma {:induction false} FindInLabels(n: Node, tag: string)
    ensures LabelsOf(FindIn(n, tag)) == Filter((m: Node) => HasTag(m, tag), Labels(n))
    decreases n
  {
    var P := (m: Node) => HasTag(m, tag);
    match n
    case Element(_, _, _, children, _) =>
      FindInListLabels(children, tag);
      assert Labels(n) == [Label(n)] + LabelsList(children);
      FilterAppend(P, [Label(n)], LabelsList(children));
      assert Filter(P, [Label(n)]) == (if HasTag(n, tag) then [Label(n)] else []) by {
        assert [Label(n)][1..] == [];
      }
      var own := if HasTag(n, tag) then [n] else [];
      LabelsOfAppend(own, FindInList(children, tag));
      assert LabelsOf(own) == (if HasTag(n, tag) then [Label(n)] else []);
    case Comment(_, _) =>
      assert Labels(n)[1..] == [];
  }

  lemma {:induction false} FindInListLabels(cs: seq<Node>, tag: string)
    ensures LabelsOf(FindInList(cs, tag)) == Filter((m: Node) => HasTag(m, tag), LabelsList(cs))
    decreases cs
  {
    if cs != [] {
      FindInLabels(cs[0], tag);
      FindInListLabels(cs[1..], tag);
      FilterAppend((m: Node) => HasTag(m, tag), Labels(cs[0]), LabelsList(cs[1..]));
      LabelsOfAppend(FindIn(cs[0], tag), FindInList(cs[1..], tag));
    }
  }

  lemma LabelsOfAppend(a: seq<Node>, b: seq<Node>)
    ensures LabelsOf(a + b) == LabelsOf(a) + LabelsOf(b)
  {
  }

  /** After `add_Head_IDs`, the k-th heading `findall` returns (counting
      from 0) carries the id `heading(k+1)`, provided the root itself is
      not a heading. */
  lemma FoundHeadingsNumbered(root: Node, k: nat)
    requires root.Element? && !IsH1(root)
    requires k < |FindAll(AddHeadIds(true, root), "h1")|
    ensures var h := FindAll(AddHeadIds(true, root), "h1")[k];
            h.Element? && GetAttr(h.attrs, "id") == Some(HeadingId(k + 1))
  {
    var r := AddHeadIds(true, root);
    assert r.Element? by {
      assert Labels(r)[0] == Label(r) && Labels(root)[0] == Label(root);
    }
    var i := FoundHeadingIndex(r, k);
    HeadCountsAgree(root, i);
    assert Labels(r)[i] == WithId(Labels(root)[i], 1 + k);
  }

  /** Where the k-th heading `findall` returns sits in the document order:
      after exactly k headings below the root. */
  lemma FoundHeadingIndex(r: Node, k: nat) returns (i: nat)
    requires r.Element? && k < |FindAll(r, "h1")|
    ensures 1 <= i < |Labels(r)| && IsH1(Labels(r)[i])
    ensures Label(FindAll(r, "h1")[k]) == Labels(r)[i]
    ensures CountLabels(IsH1, Labels(r)[1..i]) == k
  {
    var P := (m: Node) => HasTag(m, "h1");
    FindInListLabels(r.children, "h1");
    assert Labels(r) == [Label(r)] + LabelsList(r.children);
    var rest := Labels(r)[1..];
    assert LabelsList(r.children) == rest;
    var j := FilterNth(P, rest, k);
    i := j + 1;
    assert Labels(r)[1..i] == rest[..j];
    CountLabelsPointwise(P, rest[..j], IsH1, rest[..j]);
  }

  /** Below a root that is not a heading, the headings before position i
      are the same before and after `add_Head_IDs`. */
  lemma HeadCountsAgree(root: Node, i: nat)
    requires !IsH1(root) && 1 <= i <= |Labels(root)|
    ensures CountLabels(IsH1, Labels(root)[..i]) == CountLabels(IsH1, Labels(AddHeadIds(true, root))[1..i])
  {
    var r := AddHeadIds(true, root);
    var a := Labels(root)[..i];
    assert a[0] == Label(root) && a[1..] == Labels(root)[1..i];
    forall t | 0 <= t < i - 1
      ensures IsH1(Labels(root)[1..i][t]) == IsH1(Labels(r)[1..i][t])
    {
      assert Labels(root)[1..i][t] == Labels(root)[t + 1];
      assert Labels(r)[1..i][t] == Labels(r)[t + 1];
    }
    CountLabelsPointwise(IsH1, Labels(root)[1..i], IsH1, Labels(r)[1..i]);
  }

  // ------------------------------------------------------------ navigation

  /** The navigation entry for heading k: a paragraph or a button holding a
      link to the heading, whose text is all the heading's text. */
  function NavItem(kind: string, k: nat, heading: Node): (r: Node)
    ensures r.Element? && r.tag == (if kind == "paragraph" then "p" else "button") && |r.children| == 1
    ensures var a := r.children[0];
            a.Element? && a.tag == "a" && GetAttr(a.attrs, "href") == Some("#" + HeadingId(k))
            && a.text == Some(TextContent(heading))
  {
    var link := Element("a", [("href", "#" + HeadingId(k))], Some(TextContent(heading)), [], None);
    Element(if kind == "paragraph" then "p" else "button", [], None, [link], None)
  }

  function NavItems(kind: string, headings: seq<Node>): (r: seq<Node>)
    ensures |r| == |headings|
  {
    seq(|headings|, i requires 0 <= i < |headings| => NavItem(kind, i + 1, headings[i]))
  }

  /** `create_navigation`: when switched on, one entry per heading is
      appended to the navigation element, then the comment, the title and
      the navigation element are appended to the navigation grid. Appending
      to a comment raises. */
  function CreateNavigation(enabled: bool, kind: string, headings: seq<Node>, nav: Node,
                            comment: Node, title: Node, grid: Node): (r: Outcome<Node>)
    ensures !enabled ==> r == Ok(grid)
    ensures enabled ==> (r.Ok? <==> grid.Element? && (nav.Element? || headings == []))
    ensures enabled && r.Ok? ==>
              && r.value.Element? && r.value.tag == grid.tag && r.value.attrs == grid.attrs
              && |r.value.children| == |grid.children| + 3
              && r.value.children[..|grid.children|] == grid.children
              && r.value.children[|grid.children|] == comment
              && r.value.children[|grid.children| + 1] == title
              && var navOut := r.value.children[|grid.children| + 2];
                 && (nav.Element? ==> navOut.Element? && navOut.tag == nav.tag && navOut.attrs == nav.attrs)
                 && |ChildrenOf(navOut)| == |ChildrenOf(nav)| + |headings|
                 && ChildrenOf(navOut)[..|ChildrenOf(nav)|] == ChildrenOf(nav)
                 && forall k :: 0 <= k < |headings| ==>
                      ChildrenOf(navOut)[|ChildrenOf(nav)| + k] == NavItem(kind, k + 1, headings[k])
  {
    if !enabled then Ok(grid)
    else if headings != [] && nav.Comment? then Fail(NotAnElement)
    else if grid.Comment? then Fail(NotAnElement)
    else
      var navOut := if headings == [] then nav else nav.(children := nav.children + NavItems(kind, headings));
      var out := grid.children + [comment, title, navOut];
      assert out[..|grid.children|] == grid.children;
      Ok(grid.(children := out))
  }

  /** Each navigation link leads to the heading it was made from: built from
      the headings found after `add_Head_IDs`, the k-th entry's `href` is `#`
      followed by the id of the k-th heading. */
  lemma NavigationLinksResolve(root: Node, kind: string, nav: Node, comment: Node, title: Node, grid: Node, k: nat)
    requires root.Element? && !IsH1(root) && grid.Element? && nav.Element?
    requires k < |FindAll(AddHeadIds(true, root), "h1")|
    ensures var hs := FindAll(AddHeadIds(true, root), "h1");
            var g := CreateNavigation(true, kind, hs, nav, comment, title, grid);
            && g.Ok? && hs[k].Element? && GetAttr(hs[k].attrs, "id").Some?
            && var entry := ChildrenOf(g.value.children[|grid.children| + 2])[|nav.children| + k];
               Some("#" + GetAttr(hs[k].attrs, "id").value) == GetAttr(entry.children[0].attrs, "href")
  {
    FoundHeadingsNumbered(root, k);
  }
}
