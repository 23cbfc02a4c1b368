/** Footnote tooltips in the running text: `insert_footnotes` wraps each
    footnote reference's content, together with a span holding the
    footnote's text, into a tooltip span; `adjust_footnotes` then takes the
    superscripts apart so that only the footnote number stays raised. */
module Tooltips {
  import opened Wrappers
  import opened Text
  import opened Tree
  import opened Patterns
  import opened Rewrite

  /** An anchor of a footnote reference: `a[contains(@id, "footnote-ref")]`. */
  predicate IsFootnoteRef(m: Node) {
    HasTag(m, "a") && AttrContains(m, "id", "footnote-ref")
  }

  /** A superscript holding a footnote reference anchor: what the query
      `//sup/a[contains(@id, "footnote-ref")]/..` finds. */
  predicate IsRefSup(m: Node) {
    HasTag(m, "sup") && HasFootnoteRef(m.children)
  }

  /** Some node of the list is a footnote reference anchor. */
  predicate HasFootnoteRef(cs: seq<Node>)
    decreases |cs|
  {
    cs != [] && (IsFootnoteRef(cs[0]) || HasFootnoteRef(cs[1..]))
  }

  /** The span that shows a footnote's text. */
  function TooltipText(text: string): Node {
    Leaf("span", [("class", "tooltiptext")], Some(text))
  }

  /** The span that shows its last child on hover. */
  function Tooltip(cs: seq<Node>): Node {
    Element("span", [("class", "tooltip")], None, cs, None)
  }

  /** How many reference superscripts the subtree holds. */
  function RefCount(n: Node): nat
    decreases n, 1
  {
    match n
    case Comment(_, _) => 0
    case Element(_, _, _, children, _) => (if IsRefSup(n) then 1 else 0) + RefCountList(children)
  }

  function RefCountList(cs: seq<Node>): nat
    decreases cs, 0
  {
    if cs == [] then 0 else RefCount(cs[0]) + RefCountList(cs[1..])
  }

  // ----------------------------------------------------------- insertion

  /** `insert_footnotes` on one subtree, with the counter `k` the Python
      loop has reached: a reference superscript reads footnote `k + 1`
      (IndexError past the end of the list), gets the tooltip text as a new
      last child and then has all its children moved into a tooltip span,
      which becomes its only child. The references are numbered in document
      order; one inside another is numbered after it. */
  function Tip(n: Node, k: nat, fns: seq<string>): (r: Outcome<(Node, nat)>)
    ensures r.Ok? ==> r.value.1 == k + RefCount(n)
    decreases n, 1
  {
    match n
    case Comment(_, _) => Ok((n, k))
    case Element(tag, attrs, text, children, tail) =>
      if IsRefSup(n) then
        if k + 1 >= |fns| then Fail(IndexOutOfRange)
        else
          var rest :- TipList(children, k + 1, fns);
          Ok((Element(tag, attrs, text, [Tooltip(rest.0 + [TooltipText(fns[k + 1])])], tail), rest.1))
      else
        var rest :- TipList(children, k, fns);
        Ok((Element(tag, attrs, text, rest.0, tail), rest.1))
  }

  function TipList(cs: seq<Node>, k: nat, fns: seq<string>): (r: Outcome<(seq<Node>, nat)>)
    ensures r.Ok? ==> |r.value.0| == |cs| && r.value.1 == k + RefCountList(cs)
    decreases cs, 0
  {
    if cs == [] then Ok(([], k))
    else
      var head :- Tip(cs[0], k, fns);
      var rest :- TipList(cs[1..], head.1, fns);
      Ok(([head.0] + rest.0, rest.1))
  }

  /** `insert_footnotes`: with tooltips on, every reference superscript gets
      its tooltip, the first one in document order reading the third
      footnote of the list; with tooltips off nothing changes. */
  function InsertFootnotes(tooltips: bool, root: Node, fns: seq<string>): (r: Outcome<Node>)
    ensures !tooltips ==> r == Ok(root)
    ensures r.Ok? ==> Label(r.value) == Label(root)
  {
    if !tooltips then Ok(root)
    else
      var t :- Tip(root, 1, fns);
      TipIsTree(root, 1, fns);
      Ok(t.0)
  }

  // ------------------------------------------------- the tipped tree alone

  /** Two nodes with the same label, one childless exactly when the other
      is. */
  predicate SameOutline(a: Node, b: Node) {
    Label(a) == Label(b) && (ChildrenOf(a) == [] <==> ChildrenOf(b) == [])
  }

  /** Entry `i` of the footnote list, or the empty text past its end. */
  function Entry(fns: seq<string>, i: nat): string {
    if i < |fns| then fns[i] else ""
  }

  /** The tree the insertion builds, leaving aside whether the footnote list
      is long enough: every reference superscript, in document order from
      counter value `k` on, becomes a superscript holding one tooltip. */
  function TipTree(n: Node, k: nat, fns: seq<string>): (r: Node)
    ensures Label(r) == Label(n)
    decreases n, 1
  {
    match n
    case Comment(_, _) => n
    case Element(tag, attrs, text, children, tail) =>
      if IsRefSup(n) then
        Element(tag, attrs, text, [Tooltip(TipTreeList(children, k + 1, fns) + [TooltipText(Entry(fns, k + 1))])], tail)
      else Element(tag, attrs, text, TipTreeList(children, k, fns), tail)
  }

  function TipTreeList(cs: seq<Node>, k: nat, fns: seq<string>): (r: seq<Node>)
    ensures |r| == |cs|
    decreases cs, 0
  {
    if cs == [] then [] else [TipTree(cs[0], k, fns)] + TipTreeList(cs[1..], k + RefCount(cs[0]), fns)
  }

  /** Tipping keeps every node's label and whether it has children. */
  lemma {:induction false} TipTreeOutline(n: Node, k: nat, fns: seq<string>)
    ensures SameOutline(TipTree(n, k, fns), n)
    decreases n, 1
  {
  }

  lemma {:induction false} TipTreeListOutline(cs: seq<Node>, k: nat, fns: seq<string>)
    ensures forall i :: 0 <= i < |cs| ==> SameOutline(TipTreeList(cs, k, fns)[i], cs[i])
    decreases cs, 0
  {
    if cs != [] {
      TipTreeListCons(cs, k, fns);
      TipTreeOutline(cs[0], k, fns);
      TipTreeListOutline(cs[1..], k + RefCount(cs[0]), fns);
    }
  }

  /** The list holds an entry for every reference from counter value `k`
      on. */
  predicate Fits(fns: seq<string>, k: nat, count: nat) {
    count == 0 || k + count < |fns|
  }

  /** The pass raises exactly when the list is too short for the
      references, the k-th reference needing an entry at index k + 1, and
      otherwise builds the tipped tree and counts every reference. */
  lemma {:induction false} TipIsTree(n: Node, k: nat, fns: seq<string>)
    ensures Tip(n, k, fns)
            == if Fits(fns, k, RefCount(n)) then Ok((TipTree(n, k, fns), k + RefCount(n))) else Fail(IndexOutOfRange)
    decreases n, 1
  {
    match n
    case Comment(_, _) =>
    case Element(_, _, _, children, _) =>
      if IsRefSup(n) {
        TipListIsTree(children, k + 1, fns);
      } else {
        TipListIsTree(children, k, fns);
      }
  }

  lemma {:induction false} TipListIsTree(cs: seq<Node>, k: nat, fns: seq<string>)
    ensures TipList(cs, k, fns)
            == if Fits(fns, k, RefCountList(cs)) then Ok((TipTreeList(cs, k, fns), k + RefCountList(cs)))
               else Fail(IndexOutOfRange)
    decreases cs, 0
  {
    if cs != [] {
      TipIsTree(cs[0], k, fns);
      TipListIsTree(cs[1..], k + RefCount(cs[0]), fns);
    }
  }

  lemma InsertFootnotesOk(root: Node, fns: seq<string>)
    ensures InsertFootnotes(true, root, fns)
            == if Fits(fns, 1, RefCount(root)) then Ok(TipTree(root, 1, fns)) else Fail(IndexOutOfRange)
  {
    TipIsTree(root, 1, fns);
  }

  // ------------------------------------------------------- undoing a tooltip

  predicate IsTooltipTextSpan(t: Node) {
    t.Element? && t.tag == "span" && t.attrs == [("class", "tooltiptext")] && t.text.Some?
    && t.children == [] && t.tail == None
  }

  predicate IsTooltipSpan(c: Node) {
    c.Element? && c.tag == "span" && c.attrs == [("class", "tooltip")] && c.text == None && c.tail == None
    && c.children != [] && IsTooltipTextSpan(c.children[|c.children| - 1])
  }

  /** A superscript in the form the insertion leaves: one tooltip span as
      its only child. */
  predicate IsTipped(m: Node) {
    HasTag(m, "sup") && |m.children| == 1 && IsTooltipSpan(m.children[0])
  }

  predicate NotTipped(m: Node) {
    !IsTipped(m)
  }

  /** Every tooltip taken out again: the superscript gets back the tooltip
      span's children except the tooltip text. */
  function Untip(n: Node): (r: Node)
    decreases n, 1
  {
    match n
    case Comment(_, _) => n
    case Element(tag, attrs, text, children, tail) =>
      if IsTipped(n) then
        var body := UntipList(children[0].children);
        Element(tag, attrs, text, body[..|body| - 1], tail)
      else Element(tag, attrs, text, UntipList(children), tail)
  }

  function UntipList(cs: seq<Node>): (r: seq<Node>)
    ensures |r| == |cs| && forall i :: 0 <= i < |cs| ==> r[i] == Untip(cs[i])
    decreases cs, 0
  {
    if cs == [] then [] else [Untip(cs[0])] + UntipList(cs[1..])
  }

  /** Tipping a node that is not a reference superscript cannot make it look
      tipped. */
  lemma TipKeepsUntipped(n: Node, k: nat, fns: seq<string>)
    requires !IsRefSup(n) && !IsTipped(n)
    ensures !IsTipped(TipTree(n, k, fns))
  {
    var r := TipTree(n, k, fns);
    if n.Element? && IsTipped(r) {
      var c := n.children[0];
      assert r.children == TipTreeList(n.children, k, fns);
      assert r.children[0] == TipTree(c, k, fns);
      assert !IsRefSup(c);
      TipTreeListOutline(c.children, k, fns);
      TooltipSpanOutline(c, TipTree(c, k, fns));
    }
  }

  /** Whether a node is a tooltip span depends only on its label and the
      outlines of its children. */
  lemma TooltipSpanOutline(c: Node, c': Node)
    requires c.Element? && c'.Element? && Label(c) == Label(c') && |c.children| == |c'.children|
    requires forall i :: 0 <= i < |c.children| ==> SameOutline(c'.children[i], c.children[i])
    ensures IsTooltipSpan(c') ==> IsTooltipSpan(c)
  {
    if IsTooltipSpan(c') {
      var last := |c.children| - 1;
      assert SameOutline(c'.children[last], c.children[last]);
    }
  }

  /** Inserting the tooltips and taking them out again gives the document
      back, provided it held no tooltip to begin with: the insertion changes
      nothing but the reference superscripts. */
  lemma {:induction false} UntipTip(n: Node, k: nat, fns: seq<string>)
    requires Every(NotTipped, n)
    ensures Untip(TipTree(n, k, fns)) == n
    decreases n, 1
  {
    match n
    case Comment(_, _) =>
    case Element(tag, attrs, text, children, tail) =>
      if IsRefSup(n) {
        UntipListTipList(children, k + 1, fns);
        UntipTooltip(n, TipTreeList(children, k + 1, fns), Entry(fns, k + 1));
      } else {
        TipKeepsUntipped(n, k, fns);
        UntipListTipList(children, k, fns);
      }
  }

  /** Taking out one freshly made tooltip. */
  lemma UntipTooltip(n: Node, cs: seq<Node>, t: string)
    requires HasTag(n, "sup")
    ensures Untip(n.(children := [Tooltip(cs + [TooltipText(t)])])) == n.(children := UntipList(cs))
  {
    var body := cs + [TooltipText(t)];
    assert IsTipped(n.(children := [Tooltip(body)]));
    assert UntipList(body)[..|cs|] == UntipList(cs);
  }

  lemma {:induction false} UntipListTipList(cs: seq<Node>, k: nat, fns: seq<string>)
    requires EveryList(NotTipped, cs)
    ensures UntipList(TipTreeList(cs, k, fns)) == cs
    decreases cs, 0
  {
    if cs != [] {
      UntipTip(cs[0], k, fns);
      UntipListTipList(cs[1..], k + RefCount(cs[0]), fns);
      var r := TipTreeList(cs, k, fns);
      assert UntipList(r)[1..] == UntipList(r[1..]);
    }
  }

  lemma InsertFootnotesUndone(root: Node, fns: seq<string>)
    requires Every(NotTipped, root) && InsertFootnotes(true, root, fns).Ok?
    ensures Untip(InsertFootnotes(true, root, fns).value) == root
  {
    InsertFootnotesOk(root, fns);
    UntipTip(root, 1, fns);
  }

  // ------------------------------------------------------- the tooltip texts

  /** The footnote text shown by a tipped superscript. */
  function ShownText(m: Node): string
    requires IsTipped(m)
  {
    var c := m.children[0];
    c.children[|c.children| - 1].text.value
  }

  /** The texts the tooltips of a subtree show, in document order. */
  function TipTexts(n: Node): seq<string>
    decreases n, 1
  {
    match n
    case Comment(_, _) => []
    case Element(_, _, _, children, _) => (if IsTipped(n) then [ShownText(n)] else []) + TipTextsList(children)
  }

  function TipTextsList(cs: seq<Node>): seq<string>
    decreases cs, 0
  {
    if cs == [] then [] else TipTexts(cs[0]) + TipTextsList(cs[1..])
  }

  lemma {:induction false} TipTextsListAppend(a: seq<Node>, b: seq<Node>)
    ensures TipTextsList(a + b) == TipTextsList(a) + TipTextsList(b)
    decreases a
  {
    if a == [] {
      assert a + b == b;
    } else {
      TipTextsListAppend(a[1..], b);
      assert a + b == [a[0]] + (a[1..] + b);
      TipTextsCons(a[0], a[1..] + b);
      assert a == [a[0]] + a[1..];
      TipTextsCons(a[0], a[1..]);
      AppendAssoc(TipTexts(a[0]), TipTextsList(a[1..]), TipTextsList(b));
    }
  }

  /** The `count` footnotes read from counter value `k` on: entries
      `k + 1` up to `k + count`, one at a time. */
  function Read(fns: seq<string>, k: nat, count: nat): (r: seq<string>)
    ensures |r| == count
    decreases count
  {
    if count == 0 then [] else [Entry(fns, k + 1)] + Read(fns, k + 1, count - 1)
  }

  /** When the list is long enough, what is read is the slice of the list
      after index `k`. */
  lemma {:induction false} ReadIsSlice(fns: seq<string>, k: nat, count: nat)
    requires Fits(fns, k, count)
    ensures count > 0 ==> Read(fns, k, count) == fns[k + 1..k + 1 + count]
    decreases count
  {
    if count > 1 {
      ReadIsSlice(fns, k + 1, count - 1);
      assert fns[k + 1..k + 1 + count] == [fns[k + 1]] + fns[k + 2..k + 1 + count];
    }
  }

  lemma {:induction false} ReadSplit(fns: seq<string>, k: nat, a: nat, b: nat)
    ensures Read(fns, k, a + b) == Read(fns, k, a) + Read(fns, k + a, b)
    decreases a
  {
    if a > 0 {
      ReadSplit(fns, k + 1, a - 1, b);
      assert a + b - 1 == (a - 1) + b;
      AppendAssoc([Entry(fns, k + 1)], Read(fns, k + 1, a - 1), Read(fns, k + a, b));
    }
  }

  /** A fresh tooltip shows its text, and then whatever the tipped content
      shows. */
  lemma TipTextsOfTooltip(n: Node, cs: seq<Node>, t: string)
    requires HasTag(n, "sup")
    ensures TipTexts(n.(children := [Tooltip(cs + [TooltipText(t)])])) == [t] + TipTextsList(cs)
  {
    var body := cs + [TooltipText(t)];
    var m := n.(children := [Tooltip(body)]);
    assert IsTipped(m) && ShownText(m) == t;
    TipTextsListAppend(cs, [TooltipText(t)]);
    assert TipTextsList([TooltipText(t)]) == [];
    assert TipTextsList([Tooltip(body)]) == TipTexts(Tooltip(body));
  }

  /** The tooltips show the footnotes in list order: the k-th reference in
      document order shows the footnote at index k + 1. */
  lemma {:induction false} TipTextsOfTip(n: Node, k: nat, fns: seq<string>)
    requires Every(NotTipped, n)
    ensures TipTexts(TipTree(n, k, fns)) == Read(fns, k, RefCount(n))
    decreases n, 2
  {
    if n.Element? {
      if IsRefSup(n) {
        TipTextsOfRefSup(n, k, fns);
      } else {
        TipTextsOfPlain(n, k, fns);
      }
    }
  }

  lemma {:induction false} TipTextsOfRefSup(n: Node, k: nat, fns: seq<string>)
    requires n.Element? && IsRefSup(n) && Every(NotTipped, n)
    ensures TipTexts(TipTree(n, k, fns)) == Read(fns, k, RefCount(n))
    decreases n, 1
  {
    var cs := TipTreeList(n.children, k + 1, fns);
    assert TipTree(n, k, fns) == n.(children := [Tooltip(cs + [TooltipText(Entry(fns, k + 1))])]);
    TipTextsOfTooltip(n, cs, Entry(fns, k + 1));
    TipListTexts(n.children, k + 1, fns);
  }

  lemma {:induction false} TipTextsOfPlain(n: Node, k: nat, fns: seq<string>)
    requires n.Element? && !IsRefSup(n) && Every(NotTipped, n)
    ensures TipTexts(TipTree(n, k, fns)) == Read(fns, k, RefCount(n))
    decreases n, 1
  {
    TipKeepsUntipped(n, k, fns);
    TipListTexts(n.children, k, fns);
  }

  lemma {:induction false} TipListTexts(cs: seq<Node>, k: nat, fns: seq<string>)
    requires EveryList(NotTipped, cs)
    ensures TipTextsList(TipTreeList(cs, k, fns)) == Read(fns, k, RefCountList(cs))
    decreases cs, 0
  {
    if cs != [] {
      TipTextsOfTip(cs[0], k, fns);
      TipListTexts(cs[1..], k + RefCount(cs[0]), fns);
      TipListTextsStep(cs, k, fns);
    }
  }

  /** One step along a list: the head's texts, then the rest's. */
  lemma TipListTextsStep(cs: seq<Node>, k: nat, fns: seq<string>)
    requires cs != []
    requires TipTexts(TipTree(cs[0], k, fns)) == Read(fns, k, RefCount(cs[0]))
    requires TipTextsList(TipTreeList(cs[1..], k + RefCount(cs[0]), fns))
             == Read(fns, k + RefCount(cs[0]), RefCountList(cs[1..]))
    ensures TipTextsList(TipTreeList(cs, k, fns)) == Read(fns, k, RefCountList(cs))
  {
    var a, b := RefCount(cs[0]), RefCountList(cs[1..]);
    TipTreeListCons(cs, k, fns);
    TipTextsCons(TipTree(cs[0], k, fns), TipTreeList(cs[1..], k + a, fns));
    assert RefCountList(cs) == a + b;
    ReadSplit(fns, k, a, b);
  }

  lemma TipTreeListCons(cs: seq<Node>, k: nat, fns: seq<string>)
    requires cs != []
    ensures TipTreeList(cs, k, fns) == [TipTree(cs[0], k, fns)] + TipTreeList(cs[1..], k + RefCount(cs[0]), fns)
  {
  }

  lemma TipTextsCons(h: Node, t: seq<Node>)
    ensures TipTextsList([h] + t) == TipTexts(h) + TipTextsList(t)
  {
    assert ([h] + t)[0] == h && ([h] + t)[1..] == t;
  }

  /** After `insert_footnotes` the tooltips show, in document order, the
      footnotes from index 2 on, one per reference. */
  lemma InsertFootnotesTexts(root: Node, fns: seq<string>)
    requires Every(NotTipped, root) && InsertFootnotes(true, root, fns).Ok?
    ensures RefCount(root) == 0 || 1 + RefCount(root) < |fns|
    ensures TipTexts(InsertFootnotes(true, root, fns).value)
            == if RefCount(root) == 0 then [] else fns[2..2 + RefCount(root)]
  {
    InsertFootnotesOk(root, fns);
    TipTextsOfTip(root, 1, fns);
    ReadIsSlice(fns, 1, RefCount(root));
  }
}
