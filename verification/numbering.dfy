/** Two label-only passes that run late in the conversion: `add_cite` gives
    each blockquote the text of the footnote it ends with as its `cite`
    attribute, and `paragraph_numbering` puts `[N] ` in front of the
    paragraphs of the main grid and the blockquotes. */
module Numbering {
  import opened Wrappers
  import opened Text
  import opened Tree
  import opened Rewrite
  import opened Tooltips

  // ----------------------------------------------------------- citations

  /** `node.xpath('.//sup/a[contains(@id, "footnote-ref")]')[0]`, with the
      path the conversion passes: the first reference anchor below the node,
      in document order, whose parent is a superscript. */
  function CiteAnchor(n: Node): Option<Node> {
    FirstSupRefList(ChildrenOf(n), HasTag(n, "sup"))
  }

  /** The first such anchor in the subtree, the subtree's root counting
      when its parent is a superscript. */
  function FirstSupRef(n: Node, underSup: bool): (r: Option<Node>)
    ensures r.Some? ==> IsFootnoteRef(r.value)
    decreases n, 1
  {
    if underSup && IsFootnoteRef(n) then Some(n)
    else match n
      case Comment(_, _) => None
      case Element(_, _, _, children, _) => FirstSupRefList(children, HasTag(n, "sup"))
  }

  function FirstSupRefList(cs: seq<Node>, underSup: bool): (r: Option<Node>)
    ensures r.Some? ==> IsFootnoteRef(r.value)
    decreases cs, 0
  {
    if cs == [] then None
    else match FirstSupRef(cs[0], underSup)
      case Some(a) => Some(a)
      case None => FirstSupRefList(cs[1..], underSup)
  }

  /** The citation of a blockquote: none without a reference anchor,
      otherwise entry `N + 1` of the footnote list for the number `N` the
      anchor's text spells, with Python's indexing (a negative index counts
      from the end). `int()` of a missing text raises TypeError, of text
      that is not a number ValueError; an index outside the list raises
      IndexError. */
  function CiteOf(fns: seq<string>, bq: Node): (r: Outcome<Option<string>>)
    ensures CiteAnchor(bq).None? ==> r == Ok(None)
    ensures r.Ok? && r.value.Some? ==> r.value.value in fns
  {
    match CiteAnchor(bq)
    case None => Ok(None)
    case Some(a) =>
      if a.text.None? then Fail(TextIsNone)
      else
        var number :- ParseInt(a.text.value);
        var c :- PyIndex(fns, number + 1);
        Ok(Some(c))
  }

  /** The citation of a blockquote whose anchor reads `N`: footnote `N + 1`
      of the list, one past the footnote the anchor refers to. */
  lemma CiteOfNumber(fns: seq<string>, bq: Node, N: nat)
    requires CiteAnchor(bq).Some? && CiteAnchor(bq).value.text == Some(NatToString(N))
    ensures CiteOf(fns, bq) == if N + 1 < |fns| then Ok(Some(fns[N + 1])) else Fail(IndexOutOfRange)
  {
    ParseNatToString(N);
  }

  /** The attributes of a blockquote once its citation `c`, if any, is set. */
  function CitedAttrs(attrs: seq<Attr>, c: Option<string>): seq<Attr> {
    match c
    case None => attrs
    case Some(v) => SetAttr(attrs, "cite", v)
  }

  /** Label `l` of a blockquote once its citation `c`, if any, is set: the
      `cite` attribute holds it and every other attribute is kept. */
  function Cited(l: Node, c: Option<string>): (r: Node)
    ensures l.Element? ==> && r.Element? && r.tag == l.tag && r.text == l.text && r.children == l.children && r.tail == l.tail
                           && GetAttr(r.attrs, "cite") == (if c.Some? then c else GetAttr(l.attrs, "cite"))
                           && forall key :: key != "cite" ==> GetAttr(r.attrs, key) == GetAttr(l.attrs, key)
    ensures l.Comment? ==> r == l
  {
    match l
    case Comment(_, _) => l
    case Element(tag, attrs, text, children, tail) => Element(tag, CitedAttrs(attrs, c), text, children, tail)
  }

  function AttrsOf(n: Node): seq<Attr> {
    if n.Element? then n.attrs else []
  }

  function TextOf(n: Node): Option<string> {
    if n.Element? then n.text else None
  }

  /** `add_cite` as a counted pass over `//blockquote`; the counter is not
      used. */
  function CitePass(fns: seq<string>): Pass {
    Pass((s: Site) => HasTag(s.node, "blockquote"),
         (k: nat, s: Site) =>
           match CiteOf(fns, s.node)
           case Fail(e) => Fail(e)
           case Ok(c) => Ok(Edit(CitedAttrs(AttrsOf(s.node), c), TextOf(s.node))))
  }

  /** Every blockquote of the document, in document order, has a citation
      that resolves. */
  predicate CitesResolve(fns: seq<string>, root: Node) {
    var sites := Preorder(root, None);
    forall i :: 0 <= i < |sites| ==> HasTag(sites[i].node, "blockquote") ==> CiteOf(fns, sites[i].node).Ok?
  }

  /** `add_cite`: it fails exactly when some blockquote's citation does not
      resolve; otherwise each blockquote with a reference anchor gets its
      citation as the `cite` attribute and nothing else changes. */
  function AddCite(fns: seq<string>, root: Node): (r: Outcome<Node>)
    ensures r.Ok? <==> CitesResolve(fns, root)
    ensures r.Ok? ==> ShapeOf(r.value) == ShapeOf(root) && |Labels(r.value)| == |Labels(root)|
    ensures r.Ok? ==>
              var sites := Preorder(root, None);
              |sites| == |Labels(root)| &&
              forall i :: 0 <= i < |sites| ==>
                Labels(r.value)[i] == if HasTag(sites[i].node, "blockquote")
                                      then Cited(Labels(root)[i], CiteOf(fns, sites[i].node).value)
                                      else Labels(root)[i]
  {
    CiteOk(fns, root);
    match RunNode(CitePass(fns), root, None, 0)
    case Fail(e) => Fail(e)
    case Ok(t) =>
      var sites := Preorder(root, None);
      forall i | 0 <= i < |sites|
        ensures i < |Labels(t.0)| && Labels(t.0)[i] == if HasTag(sites[i].node, "blockquote")
                                                       then Cited(Labels(root)[i], CiteOf(fns, sites[i].node).value)
                                                       else Labels(root)[i]
      {
        CiteAt(fns, root, i);
      }
      CiteAt(fns, root, 0);
      Ok(t.0)
  }

  lemma CiteOk(fns: seq<string>, root: Node)
    ensures RunNode(CitePass(fns), root, None, 0).Ok? <==> CitesResolve(fns, root)
    ensures |Preorder(root, None)| == |Labels(root)|
  {
    var p := CitePass(fns);
    var sites := Preorder(root, None);
    RunSpec(p, root, None, 0);
    LabelsMatchPreorder(root, None);
    if AllSucceed(p, sites, 0) {
      forall i | 0 <= i < |sites| && HasTag(sites[i].node, "blockquote")
        ensures CiteOf(fns, sites[i].node).Ok?
      {
        assert !FailsAt(p, sites, 0, i);
      }
    } else {
      var i :| 0 <= i < |sites| && FailsAt(p, sites, 0, i);
      assert !CiteOf(fns, sites[i].node).Ok?;
    }
  }

  /** The pass at one position of the document order. */
  lemma CiteAt(fns: seq<string>, root: Node, i: nat)
    requires i < |Preorder(root, None)|
    requires RunNode(CitePass(fns), root, None, 0).Ok?
    ensures CitesResolve(fns, root) && |Preorder(root, None)| == |Labels(root)|
    ensures var r := RunNode(CitePass(fns), root, None, 0).value.0;
            var sites := Preorder(root, None);
            && ShapeOf(r) == ShapeOf(root) && |Labels(r)| == |Labels(root)|
            && Labels(r)[i] == if HasTag(sites[i].node, "blockquote")
                               then Cited(Labels(root)[i], CiteOf(fns, sites[i].node).value)
                               else Labels(root)[i]
  {
    var p := CitePass(fns);
    var sites := Preorder(root, None);
    CiteOk(fns, root);
    RunSpec(p, root, None, 0);
    LabelsMatchPreorder(root, None);
    assert Labels(root)[i] == Label(sites[i].node);
  }

  // --------------------------------------------------- paragraph numbers

  /** `div[@class="mainGrid"]/p[not(@class="mediacaption") and
      not(@class="ignorePNum") and not(@class="bibliography")]`. */
  predicate IsGridParagraph(s: Site) {
    && HasTag(s.node, "p")
    && s.parent.Some? && HasTag(s.parent.value, "div") && AttrIs(s.parent.value, "class", "mainGrid")
    && !AttrIs(s.node, "class", "mediacaption")
    && !AttrIs(s.node, "class", "ignorePNum")
    && !AttrIs(s.node, "class", "bibliography")
  }

  /** The union with `//blockquote`: what gets a number. */
  predicate IsNumbered(s: Site) {
    IsGridParagraph(s) || HasTag(s.node, "blockquote")
  }

  function NumberPrefix(k: nat): string {
    "[" + NatToString(k) + "] "
  }

  /** The text of the k-th numbered node: the prefix and then the old text,
      if there was any. */
  function NumberedText(text: Option<string>, k: nat): (r: string)
    ensures StartsWith(r, NumberPrefix(k)) && r[|NumberPrefix(k)|..] == text.GetOr("")
  {
    var r := NumberPrefix(k) + text.GetOr("");
    assert r[..|NumberPrefix(k)|] == NumberPrefix(k);
    r
  }

  /** The prefix can be read back: it fixes the number. */
  lemma NumberPrefixInjective(a: nat, b: nat)
    ensures NumberPrefix(a) == NumberPrefix(b) <==> a == b
  {
    if NumberPrefix(a) == NumberPrefix(b) {
      var sa, sb := NatToString(a), NatToString(b);
      assert NumberPrefix(a)[1..|sa| + 1] == sa;
      assert NumberPrefix(b)[1..|sb| + 1] == sb;
      assert |sa| == |sb|;
      NatToStringInjective(a, b);
    }
  }

  /** Label `l` as the k-th numbered node. */
  function NumberedLabel(l: Node, k: nat): (r: Node)
    ensures l.Element? ==> r.Element? && r == l.(text := Some(NumberedText(l.text, k)))
  {
    match l
    case Comment(_, _) => l
    case Element(tag, attrs, text, children, tail) => Element(tag, attrs, Some(NumberedText(text, k)), children, tail)
  }

  function NumberingPass(): Pass {
    Pass(IsNumbered, (k: nat, s: Site) => Ok(Edit(AttrsOf(s.node), Some(NumberedText(TextOf(s.node), k)))))
  }

  /** How many of the sites are numbered. */
  function NumberedCount(sites: seq<Site>): nat {
    Rank(NumberingPass(), sites)
  }

  /** `paragraph_numbering`: when switched on, the numbered nodes, in
      document order, get the numbers 1, 2, 3, ... in front of their text;
      nothing else changes. */
  function ParagraphNumbering(enabled: bool, root: Node): (r: Node)
    ensures !enabled ==> r == root
    ensures ShapeOf(r) == ShapeOf(root) && |Labels(r)| == |Labels(root)|
    ensures enabled ==>
              var sites := Preorder(root, None);
              |sites| == |Labels(root)| &&
              forall i :: 0 <= i < |sites| ==>
                Labels(r)[i] == if IsNumbered(sites[i])
                                then NumberedLabel(Labels(root)[i], 1 + NumberedCount(sites[..i]))
                                else Labels(root)[i]
  {
    if !enabled then root
    else
      NumberingAt(root, 0);
      var t := RunNode(NumberingPass(), root, None, 1).value.0;
      var sites := Preorder(root, None);
      forall i | 0 <= i < |sites|
        ensures Labels(t)[i] == if IsNumbered(sites[i])
                                then NumberedLabel(Labels(root)[i], 1 + NumberedCount(sites[..i]))
                                else Labels(root)[i]
      {
        NumberingAt(root, i);
      }
      t
  }

  /** The pass at one position of the document order. */
  lemma NumberingAt(root: Node, i: nat)
    requires i < |Preorder(root, None)|
    ensures RunNode(NumberingPass(), root, None, 1).Ok?
    ensures |Preorder(root, None)| == |Labels(root)|
    ensures var r := RunNode(NumberingPass(), root, None, 1).value.0;
            var sites := Preorder(root, None);
            && ShapeOf(r) == ShapeOf(root) && |Labels(r)| == |Labels(root)|
            && Labels(r)[i] == if IsNumbered(sites[i])
                               then NumberedLabel(Labels(root)[i], 1 + NumberedCount(sites[..i]))
                               else Labels(root)[i]
  {
    var p := NumberingPass();
    var sites := Preorder(root, None);
    RunSpec(p, root, None, 1);
    LabelsMatchPreorder(root, None);
    assert Labels(root)[i] == Label(sites[i].node);
  }

  /** Later numbered nodes carry larger numbers, so no number is used
      twice. */
  lemma NumbersIncrease(root: Node, i: nat, j: nat)
    requires var sites := Preorder(root, None);
             i < j < |sites| && IsNumbered(sites[i]) && sites[i].node.Element?
    ensures var sites := Preorder(root, None);
            1 + NumberedCount(sites[..i]) < 1 + NumberedCount(sites[..j])
  {
    RankGrows(NumberingPass(), Preorder(root, None), i, j);
  }

  /** The numbers have no gaps: each of 1 up to the number of numbered
      nodes is the number of one of them. */
  lemma NumbersWithoutGaps(root: Node, m: nat) returns (i: nat)
    requires 1 <= m <= NumberedCount(Preorder(root, None))
    ensures var sites := Preorder(root, None);
            i < |sites| && IsNumbered(sites[i]) && 1 + NumberedCount(sites[..i]) == m
  {
    i := RankNth(NumberingPass(), Preorder(root, None), m - 1);
  }
}
