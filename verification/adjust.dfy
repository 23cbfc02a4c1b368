/** `adjust_footnotes`: the footnote markers `[N]` in the running text lose
    their brackets; with tooltips on, the superscripts that `insert_footnotes`
    left around the tooltips are dissolved and each reference anchor gets a
    superscript of its own holding just the number. */
module Adjust {
  import opened Wrappers
  import opened Text
  import opened Tree
  import opened Patterns
  import opened Rewrite
  import opened Tooltips

  // ------------------------------------------------------ the markers alone

  /** A reference anchor has text for `re.sub` to work on; any other node
      qualifies trivially. */
  predicate RefHasText(m: Node) {
    IsFootnoteRef(m) ==> m.text.Some?
  }

  /** Label `l` once its marker has lost its brackets. */
  function Unmarked(l: Node): (r: Node)
    requires RefHasText(l)
  {
    if IsFootnoteRef(l) then l.(text := Some(StripBrackets(l.text.value))) else l
  }

  /** The marker loop as a counted pass: every reference anchor, the root
      included, has its text run through the bracket pattern; a missing text
      makes `re.sub` raise TypeError. The counter is not used. */
  function MarkersPass(): Pass {
    Pass((s: Site) => IsFootnoteRef(s.node),
         (k: nat, s: Site) =>
           if s.node.Element? && s.node.text.Some?
           then Ok(Edit(s.node.attrs, Some(StripBrackets(s.node.text.value))))
           else Fail(TextIsNone))
  }

  /** The marker loop: the whole of `adjust_footnotes` with tooltips off. It
      fails exactly when some reference anchor has no text; otherwise every
      reference anchor's text loses its brackets and nothing else changes. */
  function StripMarkers(root: Node): (r: Outcome<Node>)
    ensures r.Ok? <==> forall i :: 0 <= i < |Labels(root)| ==> RefHasText(Labels(root)[i])
    ensures r.Fail? ==> r.error == TextIsNone
    ensures r.Ok? ==> ShapeOf(r.value) == ShapeOf(root) && |Labels(r.value)| == |Labels(root)|
    ensures r.Ok? ==> forall i :: 0 <= i < |Labels(root)| ==> Labels(r.value)[i] == Unmarked(Labels(root)[i])
  {
    MarkersOk(root);
    match RunNode(MarkersPass(), root, None, 0)
    case Fail(e) => Fail(e)
    case Ok(t) =>
      forall i | 0 <= i < |Labels(root)|
        ensures i < |Labels(t.0)| && Labels(t.0)[i] == Unmarked(Labels(root)[i])
      {
        MarkersAt(root, i);
      }
      MarkersAt(root, 0);
      Ok(t.0)
  }

  /** The pass succeeds exactly when every reference anchor has text, and
      can only fail with TypeError. */
  lemma MarkersOk(root: Node)
    ensures RunNode(MarkersPass(), root, None, 0).Ok? <==>
              forall i :: 0 <= i < |Labels(root)| ==> RefHasText(Labels(root)[i])
    ensures RunNode(MarkersPass(), root, None, 0).Fail? ==>
              RunNode(MarkersPass(), root, None, 0).error == TextIsNone
  {
    var p := MarkersPass();
    var sites := Preorder(root, None);
    RunSpec(p, root, None, 0);
    LabelsMatchPreorder(root, None);
    if AllSucceed(p, sites, 0) {
      forall i | 0 <= i < |Labels(root)|
        ensures RefHasText(Labels(root)[i])
      {
        assert !FailsAt(p, sites, 0, i);
      }
    } else {
      var i :| 0 <= i < |sites| && FailsAt(p, sites, 0, i);
      assert !RefHasText(Labels(root)[i]);
    }
  }

  /** The pass at one position of the document order. */
  lemma MarkersAt(root: Node, i: nat)
    requires i < |Labels(root)|
    requires RunNode(MarkersPass(), root, None, 0).Ok?
    ensures forall j :: 0 <= j < |Labels(root)| ==> RefHasText(Labels(root)[j])
    ensures var r := RunNode(MarkersPass(), root, None, 0).value.0;
            && ShapeOf(r) == ShapeOf(root) && |Labels(r)| == |Labels(root)|
            && Labels(r)[i] == Unmarked(Labels(root)[i])
  {
    var p := MarkersPass();
    var sites := Preorder(root, None);
    MarkersOk(root);
    RunSpec(p, root, None, 0);
    LabelsMatchPreorder(root, None);
    assert Labels(root)[i] == Label(sites[i].node);
  }

  /** A marker `[N]` alone becomes `N`. */
  lemma StripMarkersOfMarker(tag: string, attrs: seq<Attr>, d: string, tail: Option<string>)
    requires IsFootnoteRef(Element(tag, attrs, None, [], tail))
    requires forall i :: 0 <= i < |d| ==> d[i] != '\n'
    ensures StripMarkers(Element(tag, attrs, Some("[" + d + "]"), [], tail)) == Ok(Element(tag, attrs, Some(d), [], tail))
  {
    var a := Element(tag, attrs, Some("[" + d + "]"), [], tail);
    var r := StripMarkers(a);
    StripBracketsOfMarker(d);
    assert Labels(a) == [a];
    assert RefHasText(Labels(a)[0]);
    assert |Labels(r.value)| == 1;
    assert Labels(r.value)[0] == Label(r.value);
    assert r.value.Element? && r.value.children == [] by {
      assert ShapeOf(r.value) == Shape([]);
    }
  }

  // ------------------------------------------------- lifting the superscripts

  /** `span[contains(@class, "tooltip")]`: a tooltip span, and also a tooltip
      text span, whose class `tooltiptext` contains the word. */
  predicate IsTooltipClassSpan(c: Node) {
    HasTag(c, "span") && AttrContains(c, "class", "tooltip")
  }

  predicate HasTooltipChild(cs: seq<Node>)
    decreases |cs|
  {
    cs != [] && (IsTooltipClassSpan(cs[0]) || HasTooltipChild(cs[1..]))
  }

  /** What `//sup/span[contains(@class, "tooltip")]/..` finds: a superscript
      with a tooltip span among its children. */
  predicate IsTipHolder(m: Node) {
    HasTag(m, "sup") && HasTooltipChild(m.children)
  }

  /** How many such superscripts the subtree holds. */
  function HolderCount(n: Node): nat
    decreases n, 1
  {
    match n
    case Comment(_, _) => 0
    case Element(_, _, _, children, _) => (if IsTipHolder(n) then 1 else 0) + HolderCountList(children)
  }

  function HolderCountList(cs: seq<Node>): nat
    decreases cs, 0
  {
    if cs == [] then 0 else HolderCount(cs[0]) + HolderCountList(cs[1..])
  }

  /** One run of the `for node in ...` loop over one subtree. The superscripts
      are found before anything moves and handled in document order, so a
      superscript is dissolved before its descendants are looked at: each of
      its children in turn is moved to just after it, in front of the
      children moved before, and then it is removed. Its children thus end up
      in reverse order in its place, and its own text and tail, which go with
      it, are lost. */
  function Lift(n: Node): (r: seq<Node>)
    decreases n, 1
  {
    match n
    case Comment(_, _) => [n]
    case Element(tag, attrs, text, children, tail) =>
      if IsTipHolder(n) then LiftReversed(children)
      else [Element(tag, attrs, text, LiftList(children), tail)]
  }

  function LiftList(cs: seq<Node>): seq<Node>
    decreases cs, 0
  {
    if cs == [] then [] else Lift(cs[0]) + LiftList(cs[1..])
  }

  function LiftReversed(cs: seq<Node>): seq<Node>
    decreases cs, 0
  {
    if cs == [] then [] else LiftReversed(cs[1..]) + Lift(cs[0])
  }

  /** One run of the loop over the whole document. A superscript at the root
      has no parent to move its children into: `addnext` next to the root
      raises TypeError. */
  function LiftRoot(root: Node): (r: Outcome<Node>)
    ensures r.Ok? <==> !IsTipHolder(root)
    ensures r.Ok? ==> Label(r.value) == Label(root)
    ensures r.Fail? ==> r.error == RootSibling
  {
    if IsTipHolder(root) then Fail(RootSibling)
    else match root
      case Comment(_, _) => Ok(root)
      case Element(tag, attrs, text, children, tail) => Ok(Element(tag, attrs, text, LiftList(children), tail))
  }

  /** Every lifted superscript takes exactly its own node out of the
      document: nothing else is lost and nothing is added. */
  lemma {:induction false} LiftSize(n: Node)
    ensures |LabelsList(Lift(n))| + HolderCount(n) == |Labels(n)|
    decreases n, 1
  {
    match n
    case Comment(_, _) =>
      LabelsListOne(n);
    case Element(tag, attrs, text, children, tail) =>
      if IsTipHolder(n) {
        LiftReversedSize(children);
      } else {
        LiftListSize(children);
        LabelsListOne(Element(tag, attrs, text, LiftList(children), tail));
      }
  }

  lemma {:induction false} LiftListSize(cs: seq<Node>)
    ensures |LabelsList(LiftList(cs))| + HolderCountList(cs) == |LabelsList(cs)|
    decreases cs, 0
  {
    if cs != [] {
      LiftSize(cs[0]);
      LiftListSize(cs[1..]);
      LabelsListAppend(Lift(cs[0]), LiftList(cs[1..]));
    }
  }

  lemma {:induction false} LiftReversedSize(cs: seq<Node>)
    ensures |LabelsList(LiftReversed(cs))| + HolderCountList(cs) == |LabelsList(cs)|
    decreases cs, 0
  {
    if cs != [] {
      LiftSize(cs[0]);
      LiftReversedSize(cs[1..]);
      LabelsListAppend(LiftReversed(cs[1..]), Lift(cs[0]));
    }
  }

  /** A test that no superscript passes counts the same before and after a
      run: lifting loses only superscripts. */
  lemma {:induction false} LiftCounts(P: Node -> bool, n: Node)
    requires forall m :: P(m) ==> !HasTag(m, "sup")
    ensures CountLabels(P, LabelsList(Lift(n))) == CountLabels(P, Labels(n))
    decreases n, 1
  {
    match n
    case Comment(_, _) =>
      LabelsListOne(n);
    case Element(tag, attrs, text, children, tail) =>
      CountLabelsAppend(P, [Label(n)], LabelsList(children));
      assert !IsTipHolder(n) ==> CountLabels(P, [Label(n)]) == CountLabels(P, [Label(Element(tag, attrs, text, LiftList(children), tail))]);
      if IsTipHolder(n) {
        assert !P(Label(n));
        assert CountLabels(P, [Label(n)]) == 0 by {
          assert [Label(n)][1..] == [];
        }
        LiftReversedCounts(P, children);
      } else {
        var m := Element(tag, attrs, text, LiftList(children), tail);
        LiftListCounts(P, children);
        LabelsListOne(m);
        CountLabelsAppend(P, [Label(m)], LabelsList(LiftList(children)));
      }
  }

  lemma {:induction false} LiftListCounts(P: Node -> bool, cs: seq<Node>)
    requires forall m :: P(m) ==> !HasTag(m, "sup")
    ensures CountLabels(P, LabelsList(LiftList(cs))) == CountLabels(P, LabelsList(cs))
    decreases cs, 0
  {
    if cs != [] {
      LiftCounts(P, cs[0]);
      LiftListCounts(P, cs[1..]);
      LabelsListAppend(Lift(cs[0]), LiftList(cs[1..]));
      CountLabelsAppend(P, LabelsList(Lift(cs[0])), LabelsList(LiftList(cs[1..])));
      CountLabelsAppend(P, Labels(cs[0]), LabelsList(cs[1..]));
    }
  }

  lemma {:induction false} LiftReversedCounts(P: Node -> bool, cs: seq<Node>)
    requires forall m :: P(m) ==> !HasTag(m, "sup")
    ensures CountLabels(P, LabelsList(LiftReversed(cs))) == CountLabels(P, LabelsList(cs))
    decreases cs, 0
  {
    if cs != [] {
      LiftCounts(P, cs[0]);
      LiftReversedCounts(P, cs[1..]);
      LabelsListAppend(LiftReversed(cs[1..]), Lift(cs[0]));
      CountLabelsAppend(P, LabelsList(LiftReversed(cs[1..])), LabelsList(Lift(cs[0])));
      CountLabelsAppend(P, Labels(cs[0]), LabelsList(cs[1..]));
    }
  }

  /** A run over a document holding such a superscript makes it smaller. */
  lemma LiftRootShrinks(root: Node)
    requires HolderCount(root) > 0 && LiftRoot(root).Ok?
    ensures Size(LiftRoot(root).value) < Size(root)
  {
    LiftListSize(root.children);
  }

  /** The `while` loop: runs repeat as long as the query finds a
      superscript. A run can create new ones (a superscript whose only
      child was a dissolved superscript around a tooltip), so the loop is
      bounded by the size of the document, which every run reduces. */
  function LiftAll(root: Node): (r: Outcome<Node>)
    ensures HolderCount(root) == 0 ==> r == Ok(root)
    ensures r.Ok? ==> HolderCount(r.value) == 0 && Label(r.value) == Label(root)
    ensures r.Fail? ==> r.error == RootSibling
    decreases Size(root)
  {
    if HolderCount(root) == 0 then Ok(root)
    else
      var next :- LiftRoot(root);
      LiftRootShrinks(root);
      LiftAll(next)
  }

  /** The loop keeps every node no superscript test accepts: as many
      reference anchors, tooltip spans and tooltip texts as before. */
  lemma {:induction false} LiftAllCounts(P: Node -> bool, root: Node)
    requires forall m :: P(m) ==> !HasTag(m, "sup")
    requires LiftAll(root).Ok?
    ensures CountLabels(P, Labels(LiftAll(root).value)) == CountLabels(P, Labels(root))
    decreases Size(root)
  {
    if HolderCount(root) > 0 {
      var next := LiftRoot(root).value;
      LiftRootShrinks(root);
      LiftAllCounts(P, next);
      assert !IsTipHolder(root);
      assert Labels(next) == [Label(root)] + LabelsList(LiftList(root.children));
      CountLabelsAppend(P, [Label(root)], LabelsList(LiftList(root.children)));
      CountLabelsAppend(P, [Label(root)], LabelsList(root.children));
      LiftListCounts(P, root.children);
    }
  }

  // ------------------------------------------ a superscript in each anchor

  /** The anchor loop with tooltips on, over one subtree in document order:
      a reference anchor's text loses its brackets and moves into a new
      superscript, which takes over the anchor's children and becomes its
      only child; the anchor keeps the empty text. */
  function Wrap(n: Node): (r: Outcome<Node>)
    ensures r.Ok? <==> Every(RefHasText, n)
    ensures r.Fail? ==> r.error == TextIsNone
    ensures r.Ok? && !IsFootnoteRef(n) ==> Label(r.value) == Label(n)
    ensures r.Ok? && IsFootnoteRef(n) ==>
              && r.value.Element? && r.value.tag == n.tag && r.value.attrs == n.attrs && r.value.tail == n.tail
              && r.value.text == Some("") && |r.value.children| == 1
              && r.value.children[0].Element?
              && r.value.children[0] == Element("sup", [], Some(StripBrackets(n.text.value)), r.value.children[0].children, None)
    decreases n, 1
  {
    match n
    case Comment(_, _) => Ok(n)
    case Element(tag, attrs, text, children, tail) =>
      if IsFootnoteRef(n) then
        if text.None? then Fail(TextIsNone)
        else
          var cs :- WrapList(children);
          Ok(Element(tag, attrs, Some(""), [Element("sup", [], Some(StripBrackets(text.value)), cs, None)], tail))
      else
        var cs :- WrapList(children);
        Ok(Element(tag, attrs, text, cs, tail))
  }

  function WrapList(cs: seq<Node>): (r: Outcome<seq<Node>>)
    ensures r.Ok? <==> EveryList(RefHasText, cs)
    ensures r.Fail? ==> r.error == TextIsNone
    ensures r.Ok? ==> |r.value| == |cs|
    decreases cs, 0
  {
    if cs == [] then Ok([])
    else
      var head :- Wrap(cs[0]);
      var rest :- WrapList(cs[1..]);
      Ok([head] + rest)
  }

  /** Every reference anchor the anchor loop leaves has the empty text and
      a single superscript child. */
  predicate AnchorWrapped(m: Node) {
    IsFootnoteRef(m) ==> m.text == Some("") && |m.children| == 1 && HasTag(m.children[0], "sup")
  }

  lemma {:induction false} WrapWrapsAll(n: Node)
    requires Wrap(n).Ok?
    ensures Every(AnchorWrapped, Wrap(n).value)
    decreases n, 1
  {
    match n
    case Comment(_, _) =>
    case Element(tag, attrs, text, children, tail) =>
      WrapListWrapsAll(children);
      var r := Wrap(n).value;
      if IsFootnoteRef(n) {
        var sup := r.children[0];
        assert sup.children == WrapList(children).value;
        assert Every(AnchorWrapped, sup);
        EveryListOne(AnchorWrapped, sup);
      } else {
        assert r.children == WrapList(children).value;
      }
  }

  lemma {:induction false} WrapListWrapsAll(cs: seq<Node>)
    requires WrapList(cs).Ok?
    ensures EveryList(AnchorWrapped, WrapList(cs).value)
    decreases cs, 0
  {
    if cs != [] {
      var r := WrapList(cs).value;
      WrapWrapsAll(cs[0]);
      WrapListWrapsAll(cs[1..]);
      assert r[0] == Wrap(cs[0]).value && r[1..] == WrapList(cs[1..]).value;
    }
  }

  /** Undoes the superscripts of the anchor loop: an anchor holding only a
      superscript takes back the superscript's text and children. */
  function Unwrap(n: Node): Node
    decreases n, 1
  {
    match n
    case Comment(_, _) => n
    case Element(tag, attrs, text, children, tail) =>
      if IsFootnoteRef(n) && |children| == 1 && HasTag(children[0], "sup") then
        Element(tag, attrs, children[0].text, UnwrapList(children[0].children), tail)
      else Element(tag, attrs, text, UnwrapList(children), tail)
  }

  function UnwrapList(cs: seq<Node>): (r: seq<Node>)
    ensures |r| == |cs|
    decreases cs, 0
  {
    if cs == [] then [] else [Unwrap(cs[0])] + UnwrapList(cs[1..])
  }

  /** With tooltips on, the anchors end up as with tooltips off except for
      their new superscripts: taking those away again gives exactly what
      the marker loop alone makes of the same tree, and the two loops fail
      on the same trees. */
  lemma {:induction false} UnwrapWrap(n: Node, parent: Option<Node>, k: nat)
    ensures Wrap(n).Ok? == RunNode(MarkersPass(), n, parent, k).Ok?
    ensures Wrap(n).Ok? ==> Unwrap(Wrap(n).value) == RunNode(MarkersPass(), n, parent, k).value.0
    decreases n, 1
  {
    match n
    case Comment(_, _) =>
    case Element(tag, attrs, text, children, tail) =>
      var k1 := if IsFootnoteRef(n) then k + 1 else k;
      UnwrapListWrapList(children, Some(Label(n)), k1);
  }

  lemma {:induction false} UnwrapListWrapList(cs: seq<Node>, parent: Option<Node>, k: nat)
    ensures WrapList(cs).Ok? == RunList(MarkersPass(), cs, parent, k).Ok?
    ensures WrapList(cs).Ok? ==> UnwrapList(WrapList(cs).value) == RunList(MarkersPass(), cs, parent, k).value.0
    decreases cs, 0
  {
    if cs != [] {
      UnwrapWrap(cs[0], parent, k);
      if Wrap(cs[0]).Ok? {
        var head := RunNode(MarkersPass(), cs[0], parent, k).value;
        UnwrapListWrapList(cs[1..], parent, head.1);
        if WrapList(cs).Ok? {
          var w := WrapList(cs).value;
          assert w[0] == Wrap(cs[0]).value && w[1..] == WrapList(cs[1..]).value;
        }
      }
    }
  }

  // --------------------------------------------------------------- the pass

  /** `adjust_footnotes`. With tooltips off only the marker loop runs. With
      tooltips on, the superscripts around the tooltips are dissolved first
      and then every reference anchor gets its own superscript. */
  function AdjustFootnotes(tooltips: bool, root: Node): (r: Outcome<Node>)
    ensures !tooltips ==> r == StripMarkers(root)
    ensures r.Fail? ==> r.error == TextIsNone || r.error == RootSibling
  {
    if !tooltips then StripMarkers(root)
    else
      var lifted :- LiftAll(root);
      Wrap(lifted)
  }

  /** With tooltips on, every reference anchor ends up with the empty text
      and a superscript as its only child, and that superscript holds what
      the marker loop would have left in the anchor. */
  lemma AdjustWithTooltips(root: Node)
    requires AdjustFootnotes(true, root).Ok?
    ensures Every(AnchorWrapped, AdjustFootnotes(true, root).value)
    ensures StripMarkers(LiftAll(root).value).Ok?
    ensures Unwrap(AdjustFootnotes(true, root).value) == StripMarkers(LiftAll(root).value).value
  {
    var lifted := LiftAll(root).value;
    WrapWrapsAll(lifted);
    UnwrapWrap(lifted, None, 0);
  }

  // ------------------------------------------------ one reference, end to end

  /** A reference anchor as it comes in: the marker `[N]`, no children. */
  function MarkerAnchor(attrs: seq<Attr>, d: string, tail: Option<string>): Node {
    Element("a", attrs, Some("[" + d + "]"), [], tail)
  }

  /** The same anchor after both passes with tooltips on. */
  function RaisedAnchor(attrs: seq<Attr>, d: string, tail: Option<string>): Node {
    Element("a", attrs, Some(""), [Leaf("sup", [], Some(d))], tail)
  }

  /** The docstring example of both passes: a paragraph holding a superscript
      around a reference anchor `[N]` ends up holding a tooltip span whose
      anchor has a superscript `N` and whose tooltip text is the first
      footnote the insertion reads. The superscript's own text and tail
      (the text that followed the reference) are gone with it. */
  lemma TooltipReferenceAdjusted(ptag: string, pattrs: seq<Attr>, ptext: Option<string>, ptail: Option<string>,
                                 sattrs: seq<Attr>, stext: Option<string>, stail: Option<string>,
                                 aattrs: seq<Attr>, d: string, atail: Option<string>, fns: seq<string>)
    requires ptag != "sup" && ptag != "a"
    requires IsFootnoteRef(MarkerAnchor(aattrs, d, atail))
    requires forall i :: 0 <= i < |d| ==> d[i] != '\n'
    requires |fns| > 2
    ensures var sup := Element("sup", sattrs, stext, [MarkerAnchor(aattrs, d, atail)], stail);
            var t := InsertFootnotes(true, Element(ptag, pattrs, ptext, [sup], ptail), fns);
            && t.Ok?
            && AdjustFootnotes(true, t.value)
               == Ok(Element(ptag, pattrs, ptext, [Tooltip([RaisedAnchor(aattrs, d, atail), TooltipText(fns[2])])], ptail))
  {
    var a := MarkerAnchor(aattrs, d, atail);
    var tt := TooltipText(fns[2]);
    var tip := Tooltip([a, tt]);
    assert HolderCount(a) == 0 && HolderCount(tt) == 0;
    assert HolderCountList([a, tt]) == 0 by {
      assert [a, tt][0] == a && [a, tt][1..] == [tt];
      assert [tt][1..] == [];
    }
    InsertOneReference(ptag, pattrs, ptext, ptail, sattrs, stext, stail, a, fns);
    LiftOneReference(ptag, pattrs, ptext, ptail, sattrs, stext, stail, tip);
    WrapOneReference(ptag, pattrs, ptext, ptail, aattrs, d, atail, fns[2]);
  }

  lemma InsertOneReference(ptag: string, pattrs: seq<Attr>, ptext: Option<string>, ptail: Option<string>,
                           sattrs: seq<Attr>, stext: Option<string>, stail: Option<string>,
                           a: Node, fns: seq<string>)
    requires IsFootnoteRef(a) && a.children == [] && |fns| > 2
    ensures var p := Element(ptag, pattrs, ptext, [Element("sup", sattrs, stext, [a], stail)], ptail);
            InsertFootnotes(true, p, fns)
            == Ok(Element(ptag, pattrs, ptext, [Element("sup", sattrs, stext, [Tooltip([a, TooltipText(fns[2])])], stail)], ptail))
  {
    var s := Element("sup", sattrs, stext, [a], stail);
    var p := Element(ptag, pattrs, ptext, [s], ptail);
    assert HasFootnoteRef([a]);
    assert !HasFootnoteRef([s]) by {
      assert [s][1..] == [];
    }
    assert RefCount(a) == 0;
    assert RefCountList([a]) == 0 by {
      assert [a][1..] == [];
    }
    assert RefCountList([s]) == 1 by {
      assert [s][1..] == [];
    }
    InsertFootnotesOk(p, fns);
    assert TipTreeList([a], 2, fns) == [a] by {
      assert [a][1..] == [];
      assert TipTreeList([], 2, fns) == [];
    }
    assert TipTreeList([s], 1, fns) == [TipTree(s, 1, fns)] by {
      assert [s][1..] == [];
    }
    assert RefCount(p) == 1;
    assert Entry(fns, 2) == fns[2];
    assert [a] + [TooltipText(fns[2])] == [a, TooltipText(fns[2])];
    assert TipTree(s, 1, fns) == Element("sup", sattrs, stext, [Tooltip([a, TooltipText(fns[2])])], stail);
  }

  lemma LiftOneReference(ptag: string, pattrs: seq<Attr>, ptext: Option<string>, ptail: Option<string>,
                         sattrs: seq<Attr>, stext: Option<string>, stail: Option<string>, tip: Node)
    requires ptag != "sup" && tip.Element? && tip.tag == "span" && tip.attrs == [("class", "tooltip")]
    requires HolderCountList(tip.children) == 0
    ensures var p := Element(ptag, pattrs, ptext, [Element("sup", sattrs, stext, [tip], stail)], ptail);
            LiftAll(p) == Ok(Element(ptag, pattrs, ptext, [tip], ptail))
  {
    var s := Element("sup", sattrs, stext, [tip], stail);
    var p := Element(ptag, pattrs, ptext, [s], ptail);
    assert Contains("tooltip", "tooltip");
    assert IsTooltipClassSpan(tip);
    assert IsTipHolder(s);
    assert HolderCount(s) >= 1;
    assert HolderCountList([s]) >= 1 by {
      assert [s][1..] == [];
    }
    assert HolderCount(p) > 0;
    LiftUnheld(tip.children);
    assert Lift(tip) == [tip];
    assert LiftReversed([tip]) == [tip] by {
      assert [tip][1..] == [];
    }
    assert LiftList([s]) == [tip] by {
      assert [s][1..] == [];
    }
    var q := Element(ptag, pattrs, ptext, [tip], ptail);
    assert LiftRoot(p) == Ok(q);
    assert HolderCountList([tip]) == 0 by {
      assert [tip][1..] == [];
    }
    assert HolderCount(q) == 0;
  }

  /** Without superscripts to lift, a run changes nothing. */
  lemma {:induction false} LiftUnheld(cs: seq<Node>)
    requires HolderCountList(cs) == 0
    ensures LiftList(cs) == cs
    decreases cs, 0
  {
    if cs != [] {
      LiftUnheldOne(cs[0]);
      LiftUnheld(cs[1..]);
      assert [cs[0]] + cs[1..] == cs;
    }
  }

  lemma {:induction false} LiftUnheldOne(n: Node)
    requires HolderCount(n) == 0
    ensures Lift(n) == [n]
    decreases n, 1
  {
    if n.Element? {
      LiftUnheld(n.children);
    }
  }

  lemma WrapOneReference(ptag: string, pattrs: seq<Attr>, ptext: Option<string>, ptail: Option<string>,
                         aattrs: seq<Attr>, d: string, atail: Option<string>, t: string)
    requires ptag != "a" && IsFootnoteRef(MarkerAnchor(aattrs, d, atail))
    requires forall i :: 0 <= i < |d| ==> d[i] != '\n'
    ensures var tip := Tooltip([MarkerAnchor(aattrs, d, atail), TooltipText(t)]);
            Wrap(Element(ptag, pattrs, ptext, [tip], ptail))
            == Ok(Element(ptag, pattrs, ptext, [Tooltip([RaisedAnchor(aattrs, d, atail), TooltipText(t)])], ptail))
  {
    var a := MarkerAnchor(aattrs, d, atail);
    var tt := TooltipText(t);
    var tip := Tooltip([a, tt]);
    StripBracketsOfMarker(d);
    assert WrapList([]) == Ok([]);
    assert Wrap(a) == Ok(RaisedAnchor(aattrs, d, atail));
    assert Wrap(tt) == Ok(tt);
    assert WrapList([tt]) == Ok([tt]) by {
      assert [tt][1..] == [];
      assert [tt] + [] == [tt];
    }
    var ra := RaisedAnchor(aattrs, d, atail);
    assert WrapList([a, tt]) == Ok([ra, tt]) by {
      assert [a, tt][0] == a && [a, tt][1..] == [tt];
      assert [ra] + [tt] == [ra, tt];
    }
    var tip' := Tooltip([ra, tt]);
    assert Wrap(tip) == Ok(tip');
    assert WrapList([tip]) == Ok([tip']) by {
      assert [tip][1..] == [];
      assert [tip'] + [] == [tip'];
    }
  }
}
