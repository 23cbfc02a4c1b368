/** Passes that only change the attributes and text of the elements an XPath
    query picks, numbering the picked elements in document order.

    The Python passes evaluate the query once, on the tree as it is before the
    pass, and then walk the resulting list. Here `Scan` is that walk over the
    document-order sites, and `RunNode` is the same pass written as a tree
    recursion; `RunMatchesScan` proves that the two agree. */
module Rewrite {
  import opened Wrappers
  import opened Tree

  /** New attributes and text for one picked element. */
  datatype Edit = Edit(attrs: seq<Attr>, text: Option<string>)

  /** `selects` is the query, judged on the original site; `edit(k, site)` is
      what happens to the element picked with counter value `k`, or the
      exception that aborts the pass. */
  datatype Pass = Pass(selects: Site -> bool, edit: (nat, Site) -> Outcome<Edit>)

  predicate Picks(p: Pass, s: Site) {
    s.node.Element? && p.selects(s)
  }

  /** The label of element `n` after `e`. */
  function Relabel(n: Node, e: Edit): (r: Node)
    requires n.Element?
    ensures r.Element? && r.tag == n.tag && r.tail == n.tail && r.children == []
  {
    Element(n.tag, e.attrs, e.text, [], n.tail)
  }

  /** How many of the sites the pass picks. */
  function Rank(p: Pass, sites: seq<Site>): nat
    decreases |sites|
  {
    if sites == [] then 0 else (if Picks(p, sites[0]) then 1 else 0) + Rank(p, sites[1..])
  }

  /** When the pass picks exactly the sites whose labels pass a test, the
      number of picked sites is the number of labels passing it. */
  lemma {:induction false} RankCounts(p: Pass, sites: seq<Site>, Q: Node -> bool, ls: seq<Node>)
    requires |ls| == |sites|
    requires forall i :: 0 <= i < |sites| ==> Picks(p, sites[i]) == Q(ls[i])
    ensures Rank(p, sites) == CountLabels(Q, ls)
    decreases |sites|
  {
    if sites != [] {
      RankCounts(p, sites[1..], Q, ls[1..]);
    }
  }

  lemma {:induction false} RankAppend(p: Pass, a: seq<Site>, b: seq<Site>)
    ensures Rank(p, a + b) == Rank(p, a) + Rank(p, b)
    decreases |a|
  {
    if a == [] {
      assert a + b == b;
    } else {
      assert (a + b)[0] == a[0];
      assert (a + b)[1..] == a[1..] + b;
      RankAppend(p, a[1..], b);
    }
  }

  /** A picked site at index i makes the count before any later index
      larger than the count before i. */
  lemma RankGrows(p: Pass, sites: seq<Site>, i: nat, j: nat)
    requires i < j <= |sites| && Picks(p, sites[i])
    ensures Rank(p, sites[..j]) >= Rank(p, sites[..i]) + 1
  {
    assert sites[..j] == sites[..i] + sites[i..j];
    RankAppend(p, sites[..i], sites[i..j]);
    assert sites[i..j][0] == sites[i];
  }

  /** For every count below the total there is a picked site with exactly
      that many picked sites before it. */
  lemma {:induction false} RankNth(p: Pass, sites: seq<Site>, m: nat) returns (i: nat)
    requires m < Rank(p, sites)
    ensures i < |sites| && Picks(p, sites[i]) && Rank(p, sites[..i]) == m
    decreases |sites|
  {
    if Picks(p, sites[0]) && m == 0 {
      i := 0;
      assert sites[..0] == [];
    } else {
      var m' := if Picks(p, sites[0]) then m - 1 else m;
      var i' := RankNth(p, sites[1..], m');
      i := i' + 1;
      RankPrefix(p, sites, i);
    }
  }

  /** What happens to the site at index `i` when the counter starts at `k`. */
  function EditAt(p: Pass, sites: seq<Site>, k: nat, i: nat): Outcome<Edit>
    requires i < |sites|
  {
    p.edit(k + Rank(p, sites[..i]), sites[i])
  }

  /** The label that the site at index `i` ends up with when the counter
      starts at `k`. */
  function Expected(p: Pass, sites: seq<Site>, k: nat, i: nat): Node
    requires i < |sites|
  {
    if Picks(p, sites[i]) then
      match EditAt(p, sites, k, i)
      case Ok(e) => Relabel(sites[i].node, e)
      case Fail(_) => Label(sites[i].node)
    else Label(sites[i].node)
  }

  predicate FailsAt(p: Pass, sites: seq<Site>, k: nat, i: nat)
    requires i < |sites|
  {
    Picks(p, sites[i]) && EditAt(p, sites, k, i).Fail?
  }

  /** No picked element raises. */
  predicate AllSucceed(p: Pass, sites: seq<Site>, k: nat) {
    forall i :: 0 <= i < |sites| ==> !FailsAt(p, sites, k, i)
  }

  /** The pass as the Python loop runs it: one scan over the sites in document
      order, giving each its new label; the first exception stops it. */
  function Scan(p: Pass, sites: seq<Site>, k: nat): (r: Outcome<(seq<Node>, nat)>)
    ensures r.Ok? ==> |r.value.0| == |sites| && r.value.1 == k + Rank(p, sites)
    decreases |sites|
  {
    if sites == [] then Ok(([], k))
    else if Picks(p, sites[0]) then
      var e :- p.edit(k, sites[0]);
      var rest :- Scan(p, sites[1..], k + 1);
      Ok(([Relabel(sites[0].node, e)] + rest.0, rest.1))
    else
      var rest :- Scan(p, sites[1..], k);
      Ok(([Label(sites[0].node)] + rest.0, rest.1))
  }

  lemma {:induction false} RankPrefix(p: Pass, sites: seq<Site>, i: nat)
    requires 0 < i <= |sites|
    ensures Rank(p, sites[..i]) == (if Picks(p, sites[0]) then 1 else 0) + Rank(p, sites[1..][..i - 1])
  {
    assert sites[..i][0] == sites[0];
    assert sites[..i][1..] == sites[1..][..i - 1];
  }

  /** Moving past the first site shifts every later index by one and the
      counter by whether the first site was picked. */
  lemma ShiftFacts(p: Pass, sites: seq<Site>, k: nat, i: nat)
    requires 0 < i < |sites|
    ensures var k1 := if Picks(p, sites[0]) then k + 1 else k;
            && EditAt(p, sites, k, i) == EditAt(p, sites[1..], k1, i - 1)
            && FailsAt(p, sites, k, i) == FailsAt(p, sites[1..], k1, i - 1)
            && Expected(p, sites, k, i) == Expected(p, sites[1..], k1, i - 1)
  {
    RankPrefix(p, sites, i);
  }

  /** The scan succeeds exactly when no picked element raises. */
  lemma {:induction false} ScanOk(p: Pass, sites: seq<Site>, k: nat)
    ensures Scan(p, sites, k).Ok? <==> AllSucceed(p, sites, k)
    decreases |sites|
  {
    if sites != [] {
      var k1 := if Picks(p, sites[0]) then k + 1 else k;
      ScanOk(p, sites[1..], k1);
      assert sites[..0] == [];
      if Picks(p, sites[0]) && p.edit(k, sites[0]).Fail? {
        assert FailsAt(p, sites, k, 0);
      } else {
        assert !FailsAt(p, sites, k, 0);
        if AllSucceed(p, sites[1..], k1) {
          forall i | 0 < i < |sites|
            ensures !FailsAt(p, sites, k, i)
          {
            ShiftFacts(p, sites, k, i);
          }
        }
        if AllSucceed(p, sites, k) {
          forall i | 0 <= i < |sites[1..]|
            ensures !FailsAt(p, sites[1..], k1, i)
          {
            ShiftFacts(p, sites, k, i + 1);
          }
        }
      }
    }
  }

  /** A successful scan gives the site at index i the label `Expected` says. */
  lemma {:induction false} ScanLabels(p: Pass, sites: seq<Site>, k: nat)
    ensures Scan(p, sites, k).Ok? ==>
              forall i :: 0 <= i < |sites| ==> Scan(p, sites, k).value.0[i] == Expected(p, sites, k, i)
    decreases |sites|
  {
    if sites != [] && Scan(p, sites, k).Ok? {
      var k1 := if Picks(p, sites[0]) then k + 1 else k;
      ScanLabels(p, sites[1..], k1);
      assert sites[..0] == [];
      forall i | 0 < i < |sites|
        ensures Scan(p, sites, k).value.0[i] == Expected(p, sites, k, i)
      {
        ShiftFacts(p, sites, k, i);
      }
    }
  }

  /** The first picked element, in document order, that raises. */
  predicate FirstFailsAt(p: Pass, sites: seq<Site>, k: nat, i: nat) {
    i < |sites| && FailsAt(p, sites, k, i) && forall j :: 0 <= j < i ==> !FailsAt(p, sites, k, j)
  }

  /** A failed scan stops at the first picked element that raises, with that
      element's exception. */
  lemma {:induction false} ScanFailure(p: Pass, sites: seq<Site>, k: nat)
    ensures Scan(p, sites, k).Fail? ==>
              exists i: nat :: FirstFailsAt(p, sites, k, i) && EditAt(p, sites, k, i) == Fail(Scan(p, sites, k).error)
    decreases |sites|
  {
    if sites != [] && Scan(p, sites, k).Fail? {
      var k1 := if Picks(p, sites[0]) then k + 1 else k;
      assert sites[..0] == [];
      if Picks(p, sites[0]) && p.edit(k, sites[0]).Fail? {
        assert FirstFailsAt(p, sites, k, 0);
      } else {
        assert !FailsAt(p, sites, k, 0);
        assert Scan(p, sites[1..], k1).Fail? && Scan(p, sites, k).error == Scan(p, sites[1..], k1).error;
        ScanFailure(p, sites[1..], k1);
        var j: nat :| FirstFailsAt(p, sites[1..], k1, j) && EditAt(p, sites[1..], k1, j) == Fail(Scan(p, sites[1..], k1).error);
        ShiftFacts(p, sites, k, j + 1);
        forall j' | 0 < j' < j + 1
          ensures !FailsAt(p, sites, k, j')
        {
          ShiftFacts(p, sites, k, j');
        }
        assert FirstFailsAt(p, sites, k, j + 1);
      }
    }
  }

  /** Running the scan over two stretches of sites in turn is running it over
      their concatenation. */
  lemma {:induction false} ScanAppend(p: Pass, a: seq<Site>, b: seq<Site>, k: nat)
    ensures Scan(p, a + b, k) ==
              match Scan(p, a, k)
              case Fail(e) => Fail(e)
              case Ok(ra) =>
                match Scan(p, b, ra.1)
                case Fail(e) => Fail(e)
                case Ok(rb) => Ok((ra.0 + rb.0, rb.1))
    decreases |a|
  {
    if a == [] {
      assert a + b == b;
      if Scan(p, b, k).Ok? {
        assert [] + Scan(p, b, k).value.0 == Scan(p, b, k).value.0;
      }
    } else {
      assert (a + b)[0] == a[0];
      assert (a + b)[1..] == a[1..] + b;
      var k1 := if Picks(p, a[0]) then k + 1 else k;
      ScanAppend(p, a[1..], b, k1);
      if Scan(p, a[1..], k1).Ok? && Scan(p, b, Scan(p, a[1..], k1).value.1).Ok? {
        var l0 := if Picks(p, a[0]) && p.edit(k, a[0]).Ok? then Relabel(a[0].node, p.edit(k, a[0]).value) else Label(a[0].node);
        assert [l0] + (Scan(p, a[1..], k1).value.0 + Scan(p, b, Scan(p, a[1..], k1).value.1).value.0)
            == ([l0] + Scan(p, a[1..], k1).value.0) + Scan(p, b, Scan(p, a[1..], k1).value.1).value.0;
      }
    }
  }

  /** The pass written as a recursion over the tree: a node is handled before
      its children, and the children in order. Parents are judged by their
      original labels, since the query ran before anything changed. */
  function RunNode(p: Pass, n: Node, parent: Option<Node>, k: nat): Outcome<(Node, nat)>
    decreases n
  {
    match n
    case Comment(_, _) => Ok((n, k))
    case Element(tag, attrs, text, children, tail) =>
      if p.selects(Site(parent, n)) then
        var e :- p.edit(k, Site(parent, n));
        var rest :- RunList(p, children, Some(Label(n)), k + 1);
        Ok((Element(tag, e.attrs, e.text, rest.0, tail), rest.1))
      else
        var rest :- RunList(p, children, Some(Label(n)), k);
        Ok((Element(tag, attrs, text, rest.0, tail), rest.1))
  }

  function RunList(p: Pass, cs: seq<Node>, parent: Option<Node>, k: nat): Outcome<(seq<Node>, nat)>
    decreases cs
  {
    if cs == [] then Ok(([], k))
    else
      var head :- RunNode(p, cs[0], parent, k);
      var rest :- RunList(p, cs[1..], parent, head.1);
      Ok(([head.0] + rest.0, rest.1))
  }

  /** The tree recursion fails exactly when the scan fails, with the same
      exception; when it succeeds it keeps the shape of the tree and gives
      every node the label the scan gives it. */
  lemma {:induction false} RunMatchesScan(p: Pass, n: Node, parent: Option<Node>, k: nat)
    ensures RunNode(p, n, parent, k).Ok? == Scan(p, Preorder(n, parent), k).Ok?
    ensures RunNode(p, n, parent, k).Fail? ==>
              RunNode(p, n, parent, k).error == Scan(p, Preorder(n, parent), k).error
    ensures RunNode(p, n, parent, k).Ok? ==>
              && Labels(RunNode(p, n, parent, k).value.0) == Scan(p, Preorder(n, parent), k).value.0
              && RunNode(p, n, parent, k).value.1 == Scan(p, Preorder(n, parent), k).value.1
              && ShapeOf(RunNode(p, n, parent, k).value.0) == ShapeOf(n)
    decreases n
  {
    match n
    case Comment(_, _) =>
    case Element(tag, attrs, text, children, tail) =>
      var site := Site(parent, n);
      var sites := Preorder(n, parent);
      var inner := PreorderList(children, Some(Label(n)));
      assert sites == [site] + inner;
      assert sites[0] == site && sites[1..] == inner;
      var k1 := if p.selects(site) then k + 1 else k;
      RunListMatchesScan(p, children, Some(Label(n)), k1);
  }

  lemma {:induction false} RunListMatchesScan(p: Pass, cs: seq<Node>, parent: Option<Node>, k: nat)
    ensures RunList(p, cs, parent, k).Ok? == Scan(p, PreorderList(cs, parent), k).Ok?
    ensures RunList(p, cs, parent, k).Fail? ==>
              RunList(p, cs, parent, k).error == Scan(p, PreorderList(cs, parent), k).error
    ensures RunList(p, cs, parent, k).Ok? ==>
              && LabelsList(RunList(p, cs, parent, k).value.0) == Scan(p, PreorderList(cs, parent), k).value.0
              && RunList(p, cs, parent, k).value.1 == Scan(p, PreorderList(cs, parent), k).value.1
              && ShapeList(RunList(p, cs, parent, k).value.0) == ShapeList(cs)
    decreases cs
  {
    if cs != [] {
      RunMatchesScan(p, cs[0], parent, k);
      ScanAppend(p, Preorder(cs[0], parent), PreorderList(cs[1..], parent), k);
      if RunNode(p, cs[0], parent, k).Ok? {
        var head := RunNode(p, cs[0], parent, k).value;
        RunListMatchesScan(p, cs[1..], parent, head.1);
        if RunList(p, cs[1..], parent, head.1).Ok? {
          var rest := RunList(p, cs[1..], parent, head.1).value;
          assert ([head.0] + rest.0)[0] == head.0;
          assert ([head.0] + rest.0)[1..] == rest.0;
        }
      }
    }
  }

  /** The whole contract of a label-only pass: it raises exactly when some
      picked element raises (the first one in document order decides which
      exception), and otherwise it keeps the tree's shape, gives the i-th
      node in document order its `Expected` label, and advances the counter
      by the number of picked elements. */
  lemma RunSpec(p: Pass, n: Node, parent: Option<Node>, k: nat)
    ensures var sites := Preorder(n, parent);
            RunNode(p, n, parent, k).Ok? <==> AllSucceed(p, sites, k)
    ensures var sites := Preorder(n, parent);
            RunNode(p, n, parent, k).Ok? ==>
              && ShapeOf(RunNode(p, n, parent, k).value.0) == ShapeOf(n)
              && |Labels(RunNode(p, n, parent, k).value.0)| == |sites|
              && RunNode(p, n, parent, k).value.1 == k + Rank(p, sites)
              && forall i :: 0 <= i < |sites| ==>
                   Labels(RunNode(p, n, parent, k).value.0)[i] == Expected(p, sites, k, i)
    ensures var sites := Preorder(n, parent);
            RunNode(p, n, parent, k).Fail? ==>
              exists i: nat :: FirstFailsAt(p, sites, k, i) && EditAt(p, sites, k, i) == Fail(RunNode(p, n, parent, k).error)
  {
    RunMatchesScan(p, n, parent, k);
    ScanOk(p, Preorder(n, parent), k);
    ScanLabels(p, Preorder(n, parent), k);
    ScanFailure(p, Preorder(n, parent), k);
  }
}
