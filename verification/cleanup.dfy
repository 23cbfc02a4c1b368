/** Passes that move or remove whole nodes: clearing the parents of Word's
    bookmark anchors, moving table captions into their tables, and setting
    the bottom footnote list apart. */
module Cleanup {
  import opened Wrappers
  import opened Text
  import opened Tree

  // ------------------------------------------------------ bookmark anchors

  /** A child `a` whose id contains `marker`. */
  predicate IsMarkedAnchor(n: Node, marker: string) {
    HasTag(n, "a") && AttrContains(n, "id", marker)
  }

  /** The node is a parent the query `.//a[contains(@id, marker)]/..` finds. */
  predicate HasMarkedChild(n: Node, marker: string) {
    n.Element? && exists i :: 0 <= i < |n.children| && IsMarkedAnchor(n.children[i], marker)
  }

  /** Every found parent loses all its children: each child is removed in
      turn (its tail going with it) and the parent's text set to that tail,
      so the text ends as the last child's tail. A found parent inside
      another one is already detached when its turn comes, so only the
      outermost found parents change the tree. */
  function ClearMarked(n: Node, marker: string): (r: Node)
    ensures r.Comment? == n.Comment? && Label(r).tail == Label(n).tail
    ensures HasMarkedChild(n, marker) ==>
              r == Element(n.tag, n.attrs, n.children[|n.children| - 1].tail, [], n.tail)
    ensures !HasMarkedChild(n, marker) ==> Label(r) == Label(n) && |ChildrenOf(r)| == |ChildrenOf(n)|
    decreases n
  {
    match n
    case Comment(_, _) => n
    case Element(tag, attrs, text, children, tail) =>
      if HasMarkedChild(n, marker) then Element(tag, attrs, children[|children| - 1].tail, [], tail)
      else Element(tag, attrs, text, ClearMarkedList(children, marker), tail)
  }

  function ClearMarkedList(cs: seq<Node>, marker: string): (r: seq<Node>)
    ensures |r| == |cs|
    ensures forall i :: 0 <= i < |cs| ==> r[i] == ClearMarked(cs[i], marker)
    decreases cs
  {
    if cs == [] then [] else [ClearMarked(cs[0], marker)] + ClearMarkedList(cs[1..], marker)
  }

  /** A found parent lies strictly above the end of the path: the path
      goes through one of its children. */
  predicate InsideFound(n: Node, path: seq<nat>, marker: string)
    decreases |path|
  {
    && path != [] && n.Element? && path[0] < |n.children|
    && (HasMarkedChild(n, marker) || InsideFound(n.children[path[0]], path[1..], marker))
  }

  /** What a node of the input looks like afterwards: a found parent keeps
      its tag, attributes and tail and takes its last child's tail as text;
      any other node is as it was. */
  function ClearedLabel(m: Node, marker: string): Node {
    if HasMarkedChild(m, marker) then Element(m.tag, m.attrs, m.children[|m.children| - 1].tail, [], m.tail)
    else Label(m)
  }

  /** Node by node: a node is still there exactly when no found parent lies
      above it, and then it is the node as `ClearedLabel` gives it. Every
      node outside the found parents' subtrees keeps its place and label. */
  lemma {:induction false} ClearMarkedAt(n: Node, marker: string, path: seq<nat>)
    ensures At(ClearMarked(n, marker), path).Some? <==> At(n, path).Some? && !InsideFound(n, path, marker)
    ensures At(ClearMarked(n, marker), path).Some? ==>
              Label(At(ClearMarked(n, marker), path).value) == ClearedLabel(At(n, path).value, marker)
    decreases |path|
  {
    var r := ClearMarked(n, marker);
    if path != [] && n.Element? && !HasMarkedChild(n, marker) && path[0] < |n.children| {
      assert r.children[path[0]] == ClearMarked(n.children[path[0]], marker);
      ClearMarkedAt(n.children[path[0]], marker, path[1..]);
    }
  }

  /** `remove_toc_and_head`: first the parents of table-of-contents anchors,
      then those of heading bookmarks. */
  function RemoveTocAndHead(root: Node): Node {
    ClearMarked(ClearMarked(root, "_Toc"), "_heading")
  }

  /** No node of the subtree has a child anchor marked with `marker`. */
  predicate NoMarked(n: Node, marker: string) {
    Every((m: Node) => !HasMarkedChild(m, marker), n)
  }

  /** Clearing only removes children, so a subtree free of one marker stays
      free of it. */
  lemma {:induction false} ClearMarkedKeepsNoMarked(n: Node, marker: string, other: string)
    requires NoMarked(n, other)
    ensures NoMarked(ClearMarked(n, marker), other)
    decreases n
  {
    match n
    case Comment(_, _) =>
    case Element(tag, attrs, text, children, tail) =>
      if !HasMarkedChild(n, marker) {
        ClearMarkedListKeepsNoMarked(children, marker, other);
      }
  }

  lemma {:induction false} ClearMarkedListKeepsNoMarked(cs: seq<Node>, marker: string, other: string)
    requires EveryList((m: Node) => !HasMarkedChild(m, other), cs)
    ensures EveryList((m: Node) => !HasMarkedChild(m, other), ClearMarkedList(cs, marker))
    decreases cs
  {
    if cs != [] {
      ClearMarkedKeepsNoMarked(cs[0], marker, other);
      ClearMarkedListKeepsNoMarked(cs[1..], marker, other);
      assert ClearMarkedList(cs, marker)[1..] == ClearMarkedList(cs[1..], marker);
    }
  }

  /** After clearing, no node has a marked child anchor left. */
  lemma {:induction false} ClearMarkedLeavesNone(n: Node, marker: string)
    ensures NoMarked(ClearMarked(n, marker), marker)
    decreases n
  {
    match n
    case Comment(_, _) =>
    case Element(tag, attrs, text, children, tail) =>
      if !HasMarkedChild(n, marker) {
        ClearMarkedListLeavesNone(children, marker);
      }
  }

  lemma {:induction false} ClearMarkedListLeavesNone(cs: seq<Node>, marker: string)
    ensures EveryList((m: Node) => !HasMarkedChild(m, marker), ClearMarkedList(cs, marker))
    decreases cs
  {
    if cs != [] {
      ClearMarkedLeavesNone(cs[0], marker);
      ClearMarkedListLeavesNone(cs[1..], marker);
      assert ClearMarkedList(cs, marker)[1..] == ClearMarkedList(cs[1..], marker);
    }
  }

  /** Clearing changes the tree exactly when some node has a marked child. */
  lemma {:induction false} ClearMarkedUnchanged(n: Node, marker: string)
    ensures ClearMarked(n, marker) == n <==> NoMarked(n, marker)
    decreases n
  {
    match n
    case Comment(_, _) =>
    case Element(tag, attrs, text, children, tail) =>
      if !HasMarkedChild(n, marker) {
        ClearMarkedListUnchanged(children, marker);
      }
  }

  lemma {:induction false} ClearMarkedListUnchanged(cs: seq<Node>, marker: string)
    ensures ClearMarkedList(cs, marker) == cs <==> EveryList((m: Node) => !HasMarkedChild(m, marker), cs)
    decreases cs
  {
    if cs != [] {
      ClearMarkedUnchanged(cs[0], marker);
      ClearMarkedListUnchanged(cs[1..], marker);
      var r := ClearMarkedList(cs, marker);
      assert r == [r[0]] + r[1..];
      assert r[1..] == ClearMarkedList(cs[1..], marker);
      if r == cs {
        assert r[1..] == cs[1..];
      }
      if r[0] == cs[0] && r[1..] == cs[1..] {
        assert r == cs;
      }
    }
  }

  /** After `remove_toc_and_head` no node keeps a table-of-contents or a
      heading-bookmark anchor among its children. */
  lemma RemoveTocAndHeadLeavesNone(root: Node)
    ensures NoMarked(RemoveTocAndHead(root), "_Toc") && NoMarked(RemoveTocAndHead(root), "_heading")
  {
    ClearMarkedLeavesNone(root, "_Toc");
    ClearMarkedKeepsNoMarked(ClearMarked(root, "_Toc"), "_heading", "_Toc");
    ClearMarkedLeavesNone(ClearMarked(root, "_Toc"), "_heading");
  }

  // ------------------------------------------------------- table captions

  predicate IsCaption(n: Node) {
    HasTag(n, "caption")
  }

  predicate IsTable(n: Node) {
    HasTag(n, "table")
  }

  /** `move_table_caption`. The captions are visited in document order; a
      caption whose previous sibling (at that moment) is a table becomes
      that table's first child, and one with no previous sibling raises
      AttributeError. The root has no siblings. */
  function MoveTableCaption(root: Node): (r: Outcome<Node>)
    ensures r.Ok? ==> multiset(Labels(r.value)) == multiset(Labels(root))
  {
    if IsCaption(root) then Fail(NoPreviousSibling)
    else
      MoveKeepsLabels(root);
      MoveWithin(root)
  }

  /** The captions inside `n` handled; `n` itself stays where it is. */
  function MoveWithin(n: Node): (r: Outcome<Node>)
    ensures r.Ok? ==> Label(r.value) == Label(n)
    decreases n, 1
  {
    match n
    case Comment(_, _) => Ok(n)
    case Element(tag, attrs, text, children, tail) =>
      var cs :- MoveList([], children);
      Ok(Element(tag, attrs, text, cs, tail))
  }

  /** One sibling list: `done` holds the siblings already visited, as they
      now are; `todo` the siblings still to come. A caption is checked
      before its own descendants, as document order has it. */
  function MoveList(done: seq<Node>, todo: seq<Node>): Outcome<seq<Node>>
    decreases todo, 0
  {
    if todo == [] then Ok(done)
    else if IsCaption(todo[0]) && done == [] then Fail(NoPreviousSibling)
    else
      var x' :- MoveWithin(todo[0]);
      MoveList(Place(done, x'), todo[1..])
  }

  /** The visited node `x` joins the list: as the first child of the
      preceding table when it is a caption, else at the end. */
  function Place(done: seq<Node>, x: Node): (r: seq<Node>)
    ensures |r| == |done| + (if |r| == |done| then 0 else 1)
  {
    if IsCaption(x) && done != [] && IsTable(done[|done| - 1]) then
      var t := done[|done| - 1];
      done[..|done| - 1] + [t.(children := [x] + t.children)]
    else done + [x]
  }

  /** Moving nodes keeps every node: the labels are the same, counted with
      multiplicity. */
  lemma {:induction false} MoveKeepsLabels(n: Node)
    ensures MoveWithin(n).Ok? ==> multiset(Labels(MoveWithin(n).value)) == multiset(Labels(n))
    decreases n, 1
  {
    match n
    case Comment(_, _) =>
    case Element(tag, attrs, text, children, tail) =>
      MoveListKeepsLabels([], children);
      if MoveWithin(n).Ok? {
        assert LabelsList([]) == [];
      }
  }

  lemma {:induction false} MoveListKeepsLabels(done: seq<Node>, todo: seq<Node>)
    ensures MoveList(done, todo).Ok? ==>
              multiset(LabelsList(MoveList(done, todo).value)) == multiset(LabelsList(done)) + multiset(LabelsList(todo))
    decreases todo, 0
  {
    if todo != [] && MoveList(done, todo).Ok? {
      var x := todo[0];
      MoveKeepsLabels(x);
      var x' := MoveWithin(x).value;
      assert MoveList(done, todo) == MoveList(Place(done, x'), todo[1..]);
      MoveListKeepsLabels(Place(done, x'), todo[1..]);
      PlaceKeepsLabels(done, x');
      assert LabelsList(todo) == Labels(x) + LabelsList(todo[1..]);
    }
  }


  /** Placing `x` adds exactly the labels of `x`. */
  lemma PlaceKeepsLabels(done: seq<Node>, x: Node)
    ensures multiset(LabelsList(Place(done, x))) == multiset(LabelsList(done)) + multiset(Labels(x))
  {
    LabelsListOne(x);
    if IsCaption(x) && done != [] && IsTable(done[|done| - 1]) {
      var pre, t := done[..|done| - 1], done[|done| - 1];
      var t' := t.(children := [x] + t.children);
      assert done == pre + [t];
      LabelsListAppend(pre, [t]);
      LabelsListAppend(pre, [t']);
      LabelsListOne(t);
      LabelsListOne(t');
      LabelsListAppend([x], t.children);
      assert Labels(t') == [Label(t)] + (Labels(x) + LabelsList(t.children));
    } else {
      LabelsListAppend(done, [x]);
    }
  }

  /** A node whose first child is a caption: that caption has no previous
      sibling. */
  predicate LeadsWithCaption(m: Node) {
    m.Element? && m.children != [] && IsCaption(m.children[0])
  }

  predicate NoLeadingCaption(m: Node) {
    !LeadsWithCaption(m)
  }

  /** The pass fails exactly when some caption is the first of its
      siblings, the root counting as such. */
  lemma MoveTableCaptionOk(root: Node)
    ensures MoveTableCaption(root).Ok? <==> !IsCaption(root) && Every(NoLeadingCaption, root)
  {
    MoveOk(root);
  }

  lemma {:induction false} MoveOk(n: Node)
    ensures MoveWithin(n).Ok? <==> Every(NoLeadingCaption, n)
    decreases n, 1
  {
    match n
    case Comment(_, _) =>
    case Element(tag, attrs, text, children, tail) =>
      MoveListOk([], children);
  }

  lemma {:induction false} MoveListOk(done: seq<Node>, todo: seq<Node>)
    ensures MoveList(done, todo).Ok? <==>
              (done == [] && todo != [] ==> !IsCaption(todo[0])) && EveryList(NoLeadingCaption, todo)
    decreases todo, 0
  {
    if todo != [] {
      MoveOk(todo[0]);
      if !(IsCaption(todo[0]) && done == []) && MoveWithin(todo[0]).Ok? {
        MoveListOk(Place(done, MoveWithin(todo[0]).value), todo[1..]);
      }
    }
  }

  /** No caption in the list follows a table directly. */
  predicate CaptionsPlacedIn(cs: seq<Node>) {
    forall i :: 0 < i < |cs| && IsCaption(cs[i]) ==> !IsTable(cs[i - 1])
  }

  predicate CaptionsPlaced(m: Node) {
    CaptionsPlacedIn(ChildrenOf(m))
  }

  /** After the pass no caption anywhere directly follows a table: each one
      that did has moved into it. */
  lemma MoveTableCaptionPlaces(root: Node)
    ensures MoveTableCaption(root).Ok? ==> Every(CaptionsPlaced, MoveTableCaption(root).value)
  {
    MovePlaces(root);
  }

  lemma {:induction false} MovePlaces(n: Node)
    ensures MoveWithin(n).Ok? ==> Every(CaptionsPlaced, MoveWithin(n).value)
    decreases n, 1
  {
    match n
    case Comment(_, _) =>
    case Element(tag, attrs, text, children, tail) =>
      MoveListPlaces([], children);
  }

  lemma {:induction false} MoveListPlaces(done: seq<Node>, todo: seq<Node>)
    requires EveryList(CaptionsPlaced, done) && CaptionsPlacedIn(done)
    ensures MoveList(done, todo).Ok? ==>
              EveryList(CaptionsPlaced, MoveList(done, todo).value) && CaptionsPlacedIn(MoveList(done, todo).value)
    decreases todo, 0
  {
    if todo != [] && MoveList(done, todo).Ok? {
      MovePlaces(todo[0]);
      var x' := MoveWithin(todo[0]).value;
      PlaceKeepsPlaced(done, x');
      MoveListPlaces(Place(done, x'), todo[1..]);
    }
  }

  /** Placing a tidy node keeps the list tidy: a caption either moves into
      the table before it or has no table before it. */
  lemma PlaceKeepsPlaced(done: seq<Node>, x: Node)
    requires EveryList(CaptionsPlaced, done) && CaptionsPlacedIn(done) && Every(CaptionsPlaced, x)
    ensures EveryList(CaptionsPlaced, Place(done, x)) && CaptionsPlacedIn(Place(done, x))
  {
    EveryListOne(CaptionsPlaced, x);
    if IsCaption(x) && done != [] && IsTable(done[|done| - 1]) {
      var pre, t := done[..|done| - 1], done[|done| - 1];
      var t' := t.(children := [x] + t.children);
      assert done == pre + [t];
      EveryListAppend(CaptionsPlaced, pre, [t]);
      EveryListOne(CaptionsPlaced, t);
      EveryListAppend(CaptionsPlaced, [x], t.children);
      assert CaptionsPlacedIn([x] + t.children);
      EveryListOne(CaptionsPlaced, t');
      EveryListAppend(CaptionsPlaced, pre, [t']);
    } else {
      EveryListAppend(CaptionsPlaced, done, [x]);
    }
  }

  predicate NotCaption(m: Node) {
    !IsCaption(m)
  }

  /** A document without captions passes through unchanged. */
  lemma MoveTableCaptionNoCaptions(root: Node)
    requires Every(NotCaption, root)
    ensures MoveTableCaption(root) == Ok(root)
  {
    MoveUnchanged(root);
  }

  lemma {:induction false} MoveUnchanged(n: Node)
    requires Every(NotCaption, n)
    ensures MoveWithin(n) == Ok(n)
    decreases n, 1
  {
    match n
    case Comment(_, _) =>
    case Element(tag, attrs, text, children, tail) =>
      MoveListUnchanged([], children);
      assert [] + children == children;
  }

  lemma {:induction false} MoveListUnchanged(done: seq<Node>, todo: seq<Node>)
    requires EveryList(NotCaption, todo)
    ensures MoveList(done, todo) == Ok(done + todo)
    decreases todo, 0
  {
    if todo == [] {
      assert done + todo == done;
    } else {
      MoveUnchanged(todo[0]);
      assert Place(done, todo[0]) == done + [todo[0]];
      MoveListUnchanged(done + [todo[0]], todo[1..]);
      assert done + [todo[0]] + todo[1..] == done + todo;
    }
  }

  /** A caption right after a table moves into it: once the table's own
      captions are handled, the caption (with its own handled) goes in
      front of the table's children, and the pass carries on after it with
      the table in the caption's place. */
  lemma CaptionJoinsTable(done: seq<Node>, t: Node, c: Node, rest: seq<Node>)
    requires IsTable(t) && IsCaption(c) && MoveWithin(t).Ok? && MoveWithin(c).Ok?
    ensures var t', c' := MoveWithin(t).value, MoveWithin(c).value;
            MoveList(done, [t, c] + rest) == MoveList(done + [t'.(children := [c'] + t'.children)], rest)
  {
    var t', c' := MoveWithin(t).value, MoveWithin(c).value;
    var todo := [t, c] + rest;
    assert todo[0] == t && todo[1..] == [c] + rest;
    assert Place(done, t') == done + [t'];
    assert ([c] + rest)[0] == c && ([c] + rest)[1..] == rest;
    assert Place(done + [t'], c') == done + [t'.(children := [c'] + t'.children)] by {
      assert (done + [t'])[..|done|] == done;
    }
  }

  /** A run of captions after a table, none holding a caption of its own,
      ends at the front of that table in reverse order: each one is
      inserted at position 0 ahead of the one before. */
  lemma {:induction false} CaptionsJoinTable(done: seq<Node>, t: Node, cs: seq<Node>, rest: seq<Node>)
    requires IsTable(t)
    requires forall i :: 0 <= i < |cs| ==> IsCaption(cs[i]) && EveryList(NotCaption, cs[i].children)
    ensures MoveList(done + [t], cs + rest) == MoveList(done + [t.(children := Reverse(cs) + t.children)], rest)
    decreases cs
  {
    if cs == [] {
      assert cs + rest == rest;
      assert t.(children := Reverse(cs) + t.children) == t;
    } else {
      var c := cs[0];
      MoveListUnchanged([], c.children);
      assert [] + c.children == c.children;
      assert MoveWithin(c) == Ok(c);
      var t1 := t.(children := [c] + t.children);
      assert Place(done + [t], c) == done + [t1] by {
        assert (done + [t])[..|done|] == done;
      }
      assert (cs + rest)[0] == c && (cs + rest)[1..] == cs[1..] + rest;
      CaptionsJoinTable(done, t1, cs[1..], rest);
      assert Reverse(cs[1..]) + t1.children == Reverse(cs) + t.children;
    }
  }

  // ------------------------------------------------- the bottom footnote list

  /** The first entry of the footnote list: `li[@id="footnote-1"]`. */
  predicate IsFirstNote(m: Node) {
    HasTag(m, "li") && AttrIs(m, "id", "footnote-1")
  }

  predicate NotFirstNote(m: Node) {
    !IsFirstNote(m)
  }

  /** The result of looking for the footnote list below a node: nothing
      found, the node itself holds the list, or the tree with the separators
      already in place. */
  datatype Search<T> = Absent | HolderIsSelf | Placed(value: T)

  /** The search `.//li[@id="footnote-1"]/..` with the insertion: the parent
      of the first matching descendant (in document order) gets `sep` just
      before it. */
  function Seek(n: Node, sep: seq<Node>): Search<Node>
    decreases n, 1
  {
    match n
    case Comment(_, _) => Absent
    case Element(tag, attrs, text, children, tail) =>
      match SeekList(children, sep)
      case Absent => Absent
      case HolderIsSelf => HolderIsSelf
      case Placed(cs) => Placed(Element(tag, attrs, text, cs, tail))
  }

  function SeekList(cs: seq<Node>, sep: seq<Node>): Search<seq<Node>>
    decreases cs, 0
  {
    if cs == [] then Absent
    else if IsFirstNote(cs[0]) then HolderIsSelf
    else match Seek(cs[0], sep)
      case Placed(c) => Placed([c] + cs[1..])
      case HolderIsSelf => Placed(sep + cs)
      case Absent =>
        match SeekList(cs[1..], sep)
        case Absent => Absent
        case HolderIsSelf => HolderIsSelf
        case Placed(r) => Placed([cs[0]] + r)
  }

  /** `footnotes_bottom_separate`: the comment, the horizontal rule and the
      line break (the same break element is added twice, so it ends up
      once, last) go just before the footnote list. A list held by the root
      has no place for siblings; lxml refuses an element there. */
  function FootnotesBottomSeparate(root: Node, comment: Node, br: Node, hr: Node): (r: Outcome<Node>)
    ensures Seek(root, [comment, hr, br]).Absent? ==> r == Ok(root)
    ensures r.Fail? <==> Seek(root, [comment, hr, br]).HolderIsSelf?
    ensures r.Fail? ==> r.error == RootSibling
  {
    match Seek(root, [comment, hr, br])
    case Absent => Ok(root)
    case HolderIsSelf => Fail(RootSibling)
    case Placed(t) => Ok(t)
  }

  /** Nothing is found exactly when no node below the root is the first
      footnote. */
  lemma {:induction false} SeekAbsent(n: Node, sep: seq<Node>)
    ensures Seek(n, sep).Absent? <==> EveryList(NotFirstNote, ChildrenOf(n))
    decreases n, 1
  {
    match n
    case Comment(_, _) =>
    case Element(_, _, _, children, _) =>
      SeekListAbsent(children, sep);
  }

  lemma {:induction false} SeekListAbsent(cs: seq<Node>, sep: seq<Node>)
    ensures SeekList(cs, sep).Absent? <==> EveryList(NotFirstNote, cs)
    decreases cs, 0
  {
    if cs != [] {
      SeekAbsent(cs[0], sep);
      SeekListAbsent(cs[1..], sep);
    }
  }

  /** The pass fails exactly when the first footnote in document order is a
      child of the root. */
  lemma FootnotesBottomSeparateFails(root: Node, comment: Node, br: Node, hr: Node)
    ensures FootnotesBottomSeparate(root, comment, br, hr).Fail? <==>
              root.Element? &&
              exists i :: 0 <= i < |root.children| && IsFirstNote(root.children[i])
                          && EveryList(NotFirstNote, root.children[..i])
  {
    if root.Element? {
      SeekListHolder(root.children, [comment, hr, br]);
    }
  }

  lemma {:induction false} SeekListHolder(cs: seq<Node>, sep: seq<Node>)
    ensures SeekList(cs, sep).HolderIsSelf? <==>
              exists i :: 0 <= i < |cs| && IsFirstNote(cs[i]) && EveryList(NotFirstNote, cs[..i])
    decreases cs
  {
    if cs != [] {
      assert cs[..0] == [];
      if !IsFirstNote(cs[0]) {
        SeekAbsent(cs[0], sep);
        SeekListHolder(cs[1..], sep);
        if SeekList(cs, sep).HolderIsSelf? {
          HolderFromRest(cs);
        }
        if exists i :: 0 <= i < |cs| && IsFirstNote(cs[i]) && EveryList(NotFirstNote, cs[..i]) {
          HolderInRest(cs);
        }
      }
    }
  }

  /** A first footnote after the head, with none before it in the rest, has
      none before it in the whole list. */
  lemma HolderFromRest(cs: seq<Node>)
    requires cs != [] && Every(NotFirstNote, cs[0])
    requires exists i :: 0 <= i < |cs[1..]| && IsFirstNote(cs[1..][i]) && EveryList(NotFirstNote, cs[1..][..i])
    ensures exists i :: 0 <= i < |cs| && IsFirstNote(cs[i]) && EveryList(NotFirstNote, cs[..i])
  {
    var i :| 0 <= i < |cs[1..]| && IsFirstNote(cs[1..][i]) && EveryList(NotFirstNote, cs[1..][..i]);
    assert cs[..i + 1][0] == cs[0] && cs[..i + 1][1..] == cs[1..][..i];
    assert IsFirstNote(cs[i + 1]);
  }

  lemma HolderInRest(cs: seq<Node>)
    requires cs != [] && !IsFirstNote(cs[0])
    requires exists i :: 0 <= i < |cs| && IsFirstNote(cs[i]) && EveryList(NotFirstNote, cs[..i])
    ensures Every(NotFirstNote, cs[0])
    ensures exists i :: 0 <= i < |cs[1..]| && IsFirstNote(cs[1..][i]) && EveryList(NotFirstNote, cs[1..][..i])
  {
    var i :| 0 <= i < |cs| && IsFirstNote(cs[i]) && EveryList(NotFirstNote, cs[..i]);
    assert i > 0;
    assert cs[..i][0] == cs[0] && cs[..i][1..] == cs[1..][..i - 1];
    assert IsFirstNote(cs[1..][i - 1]);
  }

  /** A parent for a list of siblings, so that index paths can address
      them: the path `[k] + p` leads to `p` within the k-th sibling. */
  function Host(cs: seq<Node>): Node {
    Element("", [], None, cs, None)
  }

  /** Following the index path `q` in both lists, the siblings of `t` are
      those of `cs` with `sep` inserted before the one at index `j`. */
  predicate SplicedBefore(cs: seq<Node>, t: seq<Node>, sep: seq<Node>, q: seq<nat>, j: nat) {
    var P, P' := At(Host(cs), q), At(Host(t), q);
    && P.Some? && P'.Some? && j < |ChildrenOf(P.value)|
    && ChildrenOf(P'.value) == ChildrenOf(P.value)[..j] + sep + ChildrenOf(P.value)[j..]
  }

  /** The element whose child is the first footnote, with no first footnote
      among its earlier children. */
  predicate HoldsFirstNote(h: Node) {
    h.Element? && exists k :: 0 <= k < |h.children| && IsFirstNote(h.children[k]) && EveryList(NotFirstNote, h.children[..k])
  }

  function HolderAt(cs: seq<Node>, q: seq<nat>, j: nat): Node
    requires At(Host(cs), q).Some? && j < |ChildrenOf(At(Host(cs), q).value)|
  {
    ChildrenOf(At(Host(cs), q).value)[j]
  }

  /** When the list is found below the root, the separators are inserted
      as one block in document order, just before the holder of the list,
      and no first footnote comes before the holder. The holder is child `j`
      of the node the path `q` leads to. */
  lemma {:induction false} SeekInserts(n: Node, sep: seq<Node>) returns (i: nat, q: seq<nat>, j: nat)
    requires Seek(n, sep).Placed?
    ensures 1 <= i < |Labels(n)| && n.Element? && Seek(n, sep).value.Element?
    ensures Labels(Seek(n, sep).value) == Labels(n)[..i] + LabelsList(sep) + Labels(n)[i..]
    ensures forall k :: 1 <= k <= i ==> !IsFirstNote(Labels(n)[k])
    ensures SplicedBefore(n.children, Seek(n, sep).value.children, sep, q, j)
    ensures HoldsFirstNote(HolderAt(n.children, q, j)) && Labels(n)[i] == Label(HolderAt(n.children, q, j))
    decreases n, 2
  {
    var cs := n.children;
    var jj;
    jj, q, j := SeekListInserts(cs, sep);
    i := jj + 1;
    var L, LL := Labels(n), LabelsList(cs);
    assert L == [Label(n)] + LL;
    assert L[..i] == [Label(n)] + LL[..jj];
    assert L[i..] == LL[jj..];
  }

  lemma {:induction false} SeekListInserts(cs: seq<Node>, sep: seq<Node>) returns (i: nat, q: seq<nat>, j: nat)
    requires SeekList(cs, sep).Placed?
    ensures i < |LabelsList(cs)|
    ensures LabelsList(SeekList(cs, sep).value) == LabelsList(cs)[..i] + LabelsList(sep) + LabelsList(cs)[i..]
    ensures forall k :: 0 <= k <= i ==> !IsFirstNote(LabelsList(cs)[k])
    ensures SplicedBefore(cs, SeekList(cs, sep).value, sep, q, j)
    ensures HoldsFirstNote(HolderAt(cs, q, j)) && LabelsList(cs)[i] == Label(HolderAt(cs, q, j))
    decreases cs, 1
  {
    match Seek(cs[0], sep)
    case Placed(c) =>
      i, q, j := InsertsBelowHead(cs, sep);
    case HolderIsSelf =>
      i, q, j := 0, [], 0;
      LabelsListAppend(sep, cs);
      HolderFirst(cs, sep);
    case Absent =>
      i, q, j := InsertsAfterHead(cs, sep);
  }

  /** The first sibling holds the list itself: the separators go before it. */
  lemma HolderFirst(cs: seq<Node>, sep: seq<Node>)
    requires cs != [] && !IsFirstNote(cs[0]) && Seek(cs[0], sep).HolderIsSelf?
    ensures SeekList(cs, sep) == Placed(sep + cs)
    ensures SplicedBefore(cs, sep + cs, sep, [], 0)
    ensures HoldsFirstNote(HolderAt(cs, [], 0)) && LabelsList(cs)[0] == Label(HolderAt(cs, [], 0))
  {
    assert cs[..0] + sep + cs[0..] == sep + cs;
    SeekListHolder(cs[0].children, sep);
    assert LabelsList(cs) == Labels(cs[0]) + LabelsList(cs[1..]);
  }

  /** The list is found inside the first node of the list. */
  lemma {:induction false} InsertsBelowHead(cs: seq<Node>, sep: seq<Node>) returns (i: nat, q: seq<nat>, j: nat)
    requires cs != [] && !IsFirstNote(cs[0]) && Seek(cs[0], sep).Placed?
    ensures SeekList(cs, sep) == Placed([Seek(cs[0], sep).value] + cs[1..])
    ensures i < |LabelsList(cs)|
    ensures LabelsList([Seek(cs[0], sep).value] + cs[1..]) == LabelsList(cs)[..i] + LabelsList(sep) + LabelsList(cs)[i..]
    ensures forall k :: 0 <= k <= i ==> !IsFirstNote(LabelsList(cs)[k])
    ensures SplicedBefore(cs, [Seek(cs[0], sep).value] + cs[1..], sep, q, j)
    ensures HoldsFirstNote(HolderAt(cs, q, j)) && LabelsList(cs)[i] == Label(HolderAt(cs, q, j))
    decreases cs, 0
  {
    var L0, R, S := Labels(cs[0]), LabelsList(cs[1..]), LabelsList(sep);
    assert LabelsList(cs) == L0 + R;
    var c := Seek(cs[0], sep).value;
    var q0;
    i, q0, j := SeekInserts(cs[0], sep);
    q := [0] + q0;
    assert ([c] + cs[1..])[0] == c && ([c] + cs[1..])[1..] == cs[1..];
    SpliceLeft(L0, R, S, i);
    assert forall k :: 0 <= k <= i ==> (L0 + R)[k] == L0[k];
    HostAt(cs, cs[0].children, q0);
    HostAt([c] + cs[1..], c.children, q0);
  }

  /** Into a list through its first sibling: the path `[0] + q` in the list
      leads where `q` leads in the first sibling's children, or to the first
      sibling itself when `q` is empty. */
  lemma HostAt(cs: seq<Node>, kids: seq<Node>, q: seq<nat>)
    requires cs != [] && cs[0].Element? && cs[0].children == kids
    ensures At(Host(cs), [0] + q).Some? == At(Host(kids), q).Some?
    ensures At(Host(cs), [0] + q).Some? ==> ChildrenOf(At(Host(cs), [0] + q).value) == ChildrenOf(At(Host(kids), q).value)
  {
    assert ([0] + q)[1..] == q;
    if q != [] {
      assert At(cs[0], q) == At(Host(kids), q);
    }
  }

  /** Into a list past its first sibling: the path with its first index
      moved on by one leads where it leads in the rest. */
  lemma HostShift(x: Node, cs: seq<Node>, q: seq<nat>)
    requires q != []
    ensures At(Host([x] + cs), [q[0] + 1] + q[1..]) == At(Host(cs), q)
  {
    var p, h, h' := [q[0] + 1] + q[1..], Host([x] + cs), Host(cs);
    assert p[0] == q[0] + 1 && p[1..] == q[1..];
    assert At(h, p) == if p[0] >= |h.children| then None else At(h.children[p[0]], p[1..]);
    assert At(h', q) == if q[0] >= |h'.children| then None else At(h'.children[q[0]], q[1..]);
    if q[0] < |cs| {
      assert h.children[p[0]] == cs[q[0]];
    }
  }

  /** The list is found after the first node of the list. */
  lemma {:induction false} InsertsAfterHead(cs: seq<Node>, sep: seq<Node>) returns (i: nat, q: seq<nat>, j: nat)
    requires cs != [] && !IsFirstNote(cs[0]) && Seek(cs[0], sep).Absent? && SeekList(cs[1..], sep).Placed?
    ensures SeekList(cs, sep) == Placed([cs[0]] + SeekList(cs[1..], sep).value)
    ensures i < |LabelsList(cs)|
    ensures LabelsList([cs[0]] + SeekList(cs[1..], sep).value) == LabelsList(cs)[..i] + LabelsList(sep) + LabelsList(cs)[i..]
    ensures forall k :: 0 <= k <= i ==> !IsFirstNote(LabelsList(cs)[k])
    ensures SplicedBefore(cs, [cs[0]] + SeekList(cs[1..], sep).value, sep, q, j)
    ensures HoldsFirstNote(HolderAt(cs, q, j)) && LabelsList(cs)[i] == Label(HolderAt(cs, q, j))
    decreases cs, 0
  {
    var r := SeekList(cs[1..], sep).value;
    var i', q', j' := SeekListInserts(cs[1..], sep);
    i := LabelsPastHead(cs, sep, r, i');
    q, j := PathPastHead(cs, r, sep, q', j');
  }

  /** A splice in the labels of the rest of a list, counted from the whole
      list. */
  lemma LabelsPastHead(cs: seq<Node>, sep: seq<Node>, r: seq<Node>, i': nat) returns (i: nat)
    requires cs != [] && !IsFirstNote(cs[0]) && Seek(cs[0], sep).Absent? && i' < |LabelsList(cs[1..])|
    requires LabelsList(r) == LabelsList(cs[1..])[..i'] + LabelsList(sep) + LabelsList(cs[1..])[i'..]
    requires forall k :: 0 <= k <= i' ==> !IsFirstNote(LabelsList(cs[1..])[k])
    ensures i < |LabelsList(cs)| && LabelsList(cs)[i] == LabelsList(cs[1..])[i']
    ensures LabelsList([cs[0]] + r) == LabelsList(cs)[..i] + LabelsList(sep) + LabelsList(cs)[i..]
    ensures forall k :: 0 <= k <= i ==> !IsFirstNote(LabelsList(cs)[k])
  {
    var L0, R, S := Labels(cs[0]), LabelsList(cs[1..]), LabelsList(sep);
    assert LabelsList(cs) == L0 + R;
    i := |L0| + i';
    LabelsListAppend([cs[0]], r);
    LabelsListOne(cs[0]);
    SpliceAfter(LabelsList(cs), L0, R, LabelsList([cs[0]] + r), LabelsList(r), S, i');
    NoNoteThroughHead(cs, sep, i');
  }

  /** A splice in the rest of a list, addressed from the whole list. */
  lemma PathPastHead(cs: seq<Node>, r: seq<Node>, sep: seq<Node>, q': seq<nat>, j': nat) returns (q: seq<nat>, j: nat)
    requires cs != [] && SplicedBefore(cs[1..], r, sep, q', j')
    ensures SplicedBefore(cs, [cs[0]] + r, sep, q, j)
    ensures HolderAt(cs, q, j) == HolderAt(cs[1..], q', j')
  {
    if q' == [] {
      q, j := [], j' + 1;
      assert cs == [cs[0]] + cs[1..];
      assert cs[..j] == [cs[0]] + cs[1..][..j'];
      assert cs[j..] == cs[1..][j'..];
    } else {
      q, j := [q'[0] + 1] + q'[1..], j';
      HostShift(cs[0], cs[1..], q');
      HostShift(cs[0], r, q');
      assert cs == [cs[0]] + cs[1..];
    }
  }

  /** A head without the list holds no first footnote, so none precedes
      the holder's position in the rest. */
  lemma NoNoteThroughHead(cs: seq<Node>, sep: seq<Node>, j: nat)
    requires cs != [] && !IsFirstNote(cs[0]) && Seek(cs[0], sep).Absent? && j < |LabelsList(cs[1..])|
    requires forall k :: 0 <= k <= j ==> !IsFirstNote(LabelsList(cs[1..])[k])
    ensures (LabelsList(cs))[|Labels(cs[0])| + j] == LabelsList(cs[1..])[j]
    ensures forall k :: 0 <= k <= |Labels(cs[0])| + j ==> !IsFirstNote(LabelsList(cs)[k])
  {
    assert LabelsList(cs) == Labels(cs[0]) + LabelsList(cs[1..]);
    SeekAbsent(cs[0], sep);
    EveryLabels(NotFirstNote, cs[0]);
    NoNoteBefore(Labels(cs[0]), LabelsList(cs[1..]), j);
  }

  /** Splicing into the rest of a sequence is splicing into the whole, past
      its head. */
  lemma SpliceAfter<T>(whole: seq<T>, head: seq<T>, rest: seq<T>, spliced: seq<T>, restSpliced: seq<T>, s: seq<T>, j: nat)
    requires whole == head + rest && j <= |rest|
    requires restSpliced == rest[..j] + s + rest[j..] && spliced == head + restSpliced
    ensures spliced == whole[..|head| + j] + s + whole[|head| + j..]
  {
    assert whole[..|head| + j] == head + rest[..j];
    assert whole[|head| + j..] == rest[j..];
  }

  /** No first footnote among the labels of a head free of it, nor in the
      rest up to index j. */
  lemma NoNoteBefore(a: seq<Node>, b: seq<Node>, j: nat)
    requires j < |b|
    requires forall k :: 0 <= k < |a| ==> NotFirstNote(a[k])
    requires forall k :: 0 <= k <= j ==> !IsFirstNote(b[k])
    ensures (a + b)[|a| + j] == b[j]
    ensures forall k :: 0 <= k <= |a| + j ==> !IsFirstNote((a + b)[k])
  {
    forall k | 0 <= k <= |a| + j
      ensures !IsFirstNote((a + b)[k])
    {
      if k < |a| {
        assert (a + b)[k] == a[k];
      } else {
        assert (a + b)[k] == b[k - |a|];
      }
    }
  }

  lemma SpliceLeft(a: seq<Node>, b: seq<Node>, s: seq<Node>, j: nat)
    requires j <= |a|
    ensures (a[..j] + s + a[j..]) + b == (a + b)[..j] + s + (a + b)[j..]
  {
    assert (a + b)[..j] == a[..j];
    assert (a + b)[j..] == a[j..] + b;
  }

  /** The separated document: every node of the original, in order, with
      the separators inserted as one block before the list's holder. The
      holder is child `j` of the node at index path `q`; the separators
      become that node's children `j` to `j + 2`. The holder is the parent
      of the first footnote in document order: no first footnote comes
      before the holder's position `i` in document order, nor among the
      holder's children before the first footnote. */
  lemma FootnotesBottomSeparatePlaced(root: Node, comment: Node, br: Node, hr: Node) returns (i: nat, q: seq<nat>, j: nat)
    requires Seek(root, [comment, hr, br]).Placed?
    ensures var r := FootnotesBottomSeparate(root, comment, br, hr);
            && r.Ok?
            && 1 <= i < |Labels(root)|
            && Labels(r.value) == Labels(root)[..i] + Labels(comment) + Labels(hr) + Labels(br) + Labels(root)[i..]
    ensures var r := FootnotesBottomSeparate(root, comment, br, hr);
            && At(root, q).Some? && At(r.value, q).Some?
            && var cs := ChildrenOf(At(root, q).value);
               && j < |cs|
               && ChildrenOf(At(r.value, q).value) == cs[..j] + [comment, hr, br] + cs[j..]
               && At(root, q + [j]) == Some(cs[j])
               && HoldsFirstNote(cs[j])
               && Labels(root)[i] == Label(cs[j])
               && forall k :: 1 <= k <= i ==> !IsFirstNote(Labels(root)[k])
  {
    i, q, j := SeekInserts(root, [comment, hr, br]);
    LabelsListThree(comment, hr, br);
    var t := Seek(root, [comment, hr, br]).value;
    HostTop(root, q);
    HostTop(t, q);
    AtAppend(root, q, j);
  }

  /** A path leads to the same children from a node as from a host of the
      node's children. */
  lemma HostTop(n: Node, q: seq<nat>)
    requires n.Element?
    ensures At(Host(n.children), q).Some? == At(n, q).Some?
    ensures At(n, q).Some? ==> ChildrenOf(At(Host(n.children), q).value) == ChildrenOf(At(n, q).value)
  {
  }

  /** One more index on a path leads to that child. */
  lemma {:induction false} AtAppend(n: Node, q: seq<nat>, j: nat)
    requires At(n, q).Some? && j < |ChildrenOf(At(n, q).value)|
    ensures At(n, q + [j]) == Some(ChildrenOf(At(n, q).value)[j])
    decreases |q|
  {
    if q != [] {
      assert (q + [j])[1..] == q[1..] + [j];
      AtAppend(n.children[q[0]], q[1..], j);
    }
  }

  lemma LabelsListThree(a: Node, b: Node, c: Node)
    ensures LabelsList([a, b, c]) == Labels(a) + Labels(b) + Labels(c)
  {
    assert [a, b, c] == [a] + [b, c];
    assert [b, c] == [b] + [c];
    LabelsListAppend([a], [b, c]);
    LabelsListAppend([b], [c]);
    LabelsListOne(a);
    LabelsListOne(b);
    LabelsListOne(c);
  }
}
