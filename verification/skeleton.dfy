/** The page skeleton: the markup `enclose_body` wraps around the converted
    document, the tree that markup parses to, and how `write_html` places the
    navigation and the stylesheet into that tree before writing it out. */
module Skeleton {
  import opened Wrappers
  import opened Text
  import opened Tree

  // ------------------------------------------------------- the markup around

  const BodyOpen: string := "<body>" + "<div class=\"gridContainer\">" + "<div class=\"mainGrid\">"
  const BodyClose: string := "</div></div></body>"
  const Charset: string := "<meta charset=\"UTF-8\">" + "</meta>"

  /** The title element, present only when a title is given. */
  function TitleTag(title: string): string {
    if title != "" then "<title>" + title + "</title>" else ""
  }

  /** What precedes the document: the body and grid openings, after an
      html head for a full page. The head declares the UTF-8 charset and
      holds a title exactly when one is given. */
  function Opening(bodyOnly: bool, title: string): (r: string)
    ensures bodyOnly ==> r == BodyOpen
    ensures !bodyOnly ==> StartsWith(r, "<html><head>") && Contains(r, Charset)
    ensures !bodyOnly ==> |"</head>" + BodyOpen| <= |r| && r[|r| - |"</head>" + BodyOpen|..] == "</head>" + BodyOpen
    ensures Contains(r, "<title>" + title + "</title>") <==> !bodyOnly && title != ""
  {
    if bodyOnly then
      BodyOnlyUntitled(title);
      BodyOpen
    else
      HeadTagsNoTitle();
      CharsetNoTitle();
      BodyOpenNoTitle();
      JoinNoTitle("</head>", BodyOpen);
      HeadShape("<html><head>", title, Charset, "</head>" + BodyOpen);
      "<html><head>" + TitleTag(title) + Charset + ("</head>" + BodyOpen)
  }

  lemma BodyOnlyUntitled(title: string)
    ensures !Contains(BodyOpen, "<title>" + title + "</title>")
  {
    TitleStart(title);
    BodyOpenNoTitle();
    NoTitleOpenExcludes(BodyOpen, "<title>" + title + "</title>");
  }

  lemma TitleStart(title: string)
    ensures var t := "<title>" + title + "</title>"; |t| >= 2 && t[0] == '<' && t[1] == 't'
  {
  }

  /** A head made of a first piece, the title element, a middle piece and a
      last piece, none of which opens a title element of its own: it holds a
      title element exactly when a title is given. */
  lemma HeadShape(h: string, title: string, c: string, e: string)
    requires NoTitleOpen(h) && NoTitleOpen(c) && NoTitleOpen(e)
    requires |h| > 0 && h[|h| - 1] != '<' && |c| > 0 && c[|c| - 1] != '<'
    ensures var r := h + TitleTag(title) + c + e;
            && StartsWith(r, h) && Contains(r, c) && |e| <= |r| && r[|r| - |e|..] == e
            && (Contains(r, "<title>" + title + "</title>") <==> title != "")
  {
    var r := h + TitleTag(title) + c + e;
    FullHead(h, TitleTag(title), c, e);
    TitleStart(title);
    if title != "" {
      TitledHead(h, "<title>" + title + "</title>", c, e);
    } else {
      assert r == h + c + e;
      JoinNoTitle(h, c);
      JoinNoTitle(h + c, e);
      NoTitleOpenExcludes(r, "<title>" + title + "</title>");
    }
  }

  /** The pieces of a full head, whatever they are: it starts with its
      first piece, contains its third and ends with its last. */
  lemma FullHead(a: string, b: string, c: string, d: string)
    ensures StartsWith(a + b + c + d, a) && Contains(a + b + c + d, c)
    ensures |d| <= |a + b + c + d| && (a + b + c + d)[|a + b + c + d| - |d|..] == d
  {
    assert (a + b + c + d)[..|a|] == a;
    assert (c + d)[..|c|] == c;
    assert StartsWith(c + d, c);
    ContainsInRight(a + b, c + d, c);
    assert a + b + (c + d) == a + b + c + d;
  }

  lemma TitledHead(a: string, t: string, c: string, d: string)
    ensures Contains(a + t + c + d, t)
  {
    assert (t + (c + d))[..|t|] == t;
    assert StartsWith(t + (c + d), t);
    ContainsInRight(a, t + (c + d), t);
    assert a + (t + (c + d)) == a + t + c + d;
  }

  /** No `<` is directly followed by `t`, so no title element starts
      anywhere in the text. */
  predicate NoTitleOpen(s: string) {
    forall i :: 0 <= i < |s| - 1 ==> !(s[i] == '<' && s[i + 1] == 't')
  }

  lemma {:induction false} NoTitleOpenExcludes(s: string, p: string)
    requires NoTitleOpen(s) && |p| >= 2 && p[0] == '<' && p[1] == 't'
    ensures !Contains(s, p)
    decreases |s|
  {
    if |s| > 0 {
      assert !StartsWith(s, p) by {
        if |p| <= |s| {
          assert !(s[0] == '<' && s[1] == 't');
          assert s[..|p|][0] == s[0] && s[..|p|][1] == s[1];
        }
      }
      assert NoTitleOpen(s[1..]) by {
        forall i | 0 <= i < |s[1..]| - 1
          ensures !(s[1..][i] == '<' && s[1..][i + 1] == 't')
        {
          assert s[1..][i] == s[i + 1] && s[1..][i + 1] == s[i + 2];
        }
      }
      NoTitleOpenExcludes(s[1..], p);
    }
  }

  /** A tag whose name does not start with `t` and that holds no other `<`. */
  lemma TagNoTitle(w: string)
    requires '<' !in w && (w == [] || w[0] != 't')
    ensures NoTitleOpen("<" + w)
  {
    var s := "<" + w;
    forall i | 0 <= i < |s| - 1
      ensures !(s[i] == '<' && s[i + 1] == 't')
    {
      if i > 0 {
        assert s[i] == w[i - 1];
      }
    }
  }

  lemma JoinNoTitle(a: string, b: string)
    requires NoTitleOpen(a) && NoTitleOpen(b) && (a == [] || a[|a| - 1] != '<')
    ensures NoTitleOpen(a + b)
  {
    var s := a + b;
    forall i | 0 <= i < |s| - 1
      ensures !(s[i] == '<' && s[i + 1] == 't')
    {
      if i + 1 < |a| {
        assert s[i] == a[i] && s[i + 1] == a[i + 1];
      } else if i >= |a| {
        assert s[i] == b[i - |a|] && s[i + 1] == b[i + 1 - |a|];
      }
    }
  }

  lemma BodyOpenNoTitle()
    ensures NoTitleOpen(BodyOpen)
  {
    TagNoTitle("body>");
    TagNoTitle("div class=\"gridContainer\">");
    TagNoTitle("div class=\"mainGrid\">");
    JoinNoTitle("<body>", "<div class=\"gridContainer\">");
    JoinNoTitle("<body>" + "<div class=\"gridContainer\">", "<div class=\"mainGrid\">");
  }

  lemma HeadTagsNoTitle()
    ensures NoTitleOpen("<html><head>") && NoTitleOpen("</head>")
  {
    TagNoTitle("html>");
    TagNoTitle("head>");
    TagNoTitle("/head>");
    JoinNoTitle("<html>", "<head>");
  }

  lemma CharsetNoTitle()
    ensures NoTitleOpen(Charset)
  {
    TagNoTitle("meta charset=\"UTF-8\">");
    TagNoTitle("/meta>");
    JoinNoTitle("<meta charset=\"UTF-8\">", "</meta>");
  }

  /** What follows the document: the closings of what `Opening` opened. */
  function Closing(bodyOnly: bool): (r: string)
    ensures |r| == |BodyClose| + (if bodyOnly then 0 else 7)
  {
    if bodyOnly then BodyClose else BodyClose + "</html>"
  }

  /** `enclose_body` up to the parse: the markup handed to the XML parser. */
  function EncloseBody(input: string, bodyOnly: bool, title: string): (r: string)
    ensures |r| == |Opening(bodyOnly, title)| + |input| + |Closing(bodyOnly)|
    ensures StartsWith(r, Opening(bodyOnly, title))
    ensures r[|Opening(bodyOnly, title)|..|r| - |Closing(bodyOnly)|] == input
    ensures r[|r| - |Closing(bodyOnly)|..] == Closing(bodyOnly)
  {
    var o, c := Opening(bodyOnly, title), Closing(bodyOnly);
    var r := o + input + c;
    assert r[..|o|] == o;
    assert r[|o|..|r| - |c|] == input;
    assert r[|r| - |c|..] == c;
    r
  }

  /** The document inside the skeleton markup, if `page` is such markup. */
  function EnclosedInput(page: string, bodyOnly: bool, title: string): (r: Option<string>)
  {
    var o, c := Opening(bodyOnly, title), Closing(bodyOnly);
    if |o| + |c| <= |page| && page[..|o|] == o && page[|page| - |c|..] == c
    then Some(page[|o|..|page| - |c|])
    else None
  }

  /** Wrapping loses nothing: the document is recovered from the markup. */
  lemma EnclosedInputOfEncloseBody(input: string, bodyOnly: bool, title: string)
    ensures EnclosedInput(EncloseBody(input, bodyOnly, title), bodyOnly, title) == Some(input)
  {
  }

  /** Different documents give different markup. */
  lemma EncloseBodyInjective(a: string, b: string, bodyOnly: bool, title: string)
    ensures EncloseBody(a, bodyOnly, title) == EncloseBody(b, bodyOnly, title) <==> a == b
  {
    if EncloseBody(a, bodyOnly, title) == EncloseBody(b, bodyOnly, title) {
      EnclosedInputOfEncloseBody(a, bodyOnly, title);
      EnclosedInputOfEncloseBody(b, bodyOnly, title);
    }
  }

  // ------------------------------------------------------------- the tree

  function GridContainer(grid: Node): Node {
    Element("div", [("class", "gridContainer")], None, [grid], None)
  }

  /** The tree the skeleton markup parses to, with the document's leading
      text and top-level nodes as the main grid's content. */
  function SkeletonTree(bodyOnly: bool, title: string, lead: Option<string>, content: seq<Node>): (r: Node)
    ensures r.Element?
  {
    var main := Element("div", [("class", "mainGrid")], lead, content, None);
    var body := Element("body", [], None, [GridContainer(main)], None);
    if bodyOnly then body
    else
      var meta := Leaf("meta", [("charset", "UTF-8")], None);
      var headChildren := if title != "" then [Leaf("title", [], Some(title)), meta] else [meta];
      Element("html", [], None, [Element("head", [], None, headChildren, None), body], None)
  }

  // ------------------------------------------------------------- assembly

  /** `node[i0][i1]...insert(0, x)`: `x` becomes the first child of the node
      the index path leads to. An index past the end raises IndexError; a
      comment has no children to index or insert into. */
  function InsertFirstAt(n: Node, path: seq<nat>, x: Node): (r: Outcome<Node>)
    ensures r.Ok? <==> At(n, path).Some? && At(n, path).value.Element?
    ensures r.Ok? ==> At(r.value, path + [0]) == Some(x)
    ensures r.Ok? ==> At(r.value, path).Some? && ChildrenOf(At(r.value, path).value) == [x] + ChildrenOf(At(n, path).value)
    decreases |path|
  {
    if n.Comment? then Fail(NotAnElement)
    else if path == [] then Ok(n.(children := [x] + n.children))
    else if path[0] >= |n.children| then Fail(IndexOutOfRange)
    else
      var c :- InsertFirstAt(n.children[path[0]], path[1..], x);
      assert (path + [0])[1..] == path[1..] + [0];
      Ok(n.(children := n.children[path[0] := c]))
  }

  /** Removes the first child of the node the path leads to, when there is
      one. */
  function DropFirstAt(n: Node, path: seq<nat>): Node
    decreases |path|
  {
    if n.Comment? then n
    else if path == [] then (if n.children == [] then n else n.(children := n.children[1..]))
    else if path[0] >= |n.children| then n
    else n.(children := n.children[path[0] := DropFirstAt(n.children[path[0]], path[1..])])
  }

  /** Inserting and then dropping the first child at the same place gives the
      tree back: the insertion changes nothing else. */
  lemma {:induction false} DropFirstAtInsertFirstAt(n: Node, path: seq<nat>, x: Node)
    requires InsertFirstAt(n, path, x).Ok?
    ensures DropFirstAt(InsertFirstAt(n, path, x).value, path) == n
    decreases |path|
  {
    if path == [] {
      assert ([x] + n.children)[1..] == n.children;
    } else {
      DropFirstAtInsertFirstAt(n.children[path[0]], path[1..], x);
      assert n.children[path[0] := n.children[path[0]]] == n.children;
    }
  }

  /** Where `write_html` puts the navigation grid: into the first child of
      the root for a body-only page, else into the first child of the
      root's second child. */
  function NavPath(bodyOnly: bool): seq<nat> {
    if bodyOnly then [0] else [1, 0]
  }

  /** `write_html` before serialisation: the navigation grid and then the
      stylesheet are each inserted as a first child, when switched on. It
      fails exactly when a switched-on insertion finds no element at its
      index path; the navigation grid lands behind the stylesheet when both
      go into the same node, and taking both out again gives the tree back. */
  function Assemble(navOn: bool, bodyOnly: bool, cssOn: bool, css: Node, nav: Node, root: Node): (r: Outcome<Node>)
    ensures r.Ok? <==> && (navOn ==> ElementAt(root, NavPath(bodyOnly)))
                       && (cssOn ==> ElementAt(root, [0]))
    ensures r.Ok? && cssOn ==> At(r.value, [0, 0]) == Some(css)
    ensures r.Ok? && navOn && !bodyOnly ==> At(r.value, [1, 0, 0]) == Some(nav)
    ensures r.Ok? && navOn && bodyOnly ==> At(r.value, [0, if cssOn then 1 else 0]) == Some(nav)
    ensures r.Ok? ==> Disassemble(navOn, bodyOnly, cssOn, r.value) == root
  {
    InsertFacts(root, NavPath(bodyOnly), nav);
    var t1 :- if navOn then InsertFirstAt(root, NavPath(bodyOnly), nav) else Ok(root);
    InsertFacts(t1, [0], css);
    if cssOn then InsertFirstAt(t1, [0], css) else Ok(t1)
  }

  predicate ElementAt(n: Node, path: seq<nat>) {
    At(n, path).Some? && At(n, path).value.Element?
  }

  /** Undoes `Assemble`: drops the stylesheet, then the navigation grid. */
  function Disassemble(navOn: bool, bodyOnly: bool, cssOn: bool, t: Node): Node {
    var t1 := if cssOn then DropFirstAt(t, [0]) else t;
    if navOn then DropFirstAt(t1, NavPath(bodyOnly)) else t1
  }

  /** What `Assemble` needs of one insertion: it can be undone, an insertion
      below the top level keeps the first top-level child an element exactly
      when it was one, and an insertion at the top shifts the first
      child's first child one place on. */
  lemma InsertFacts(n: Node, path: seq<nat>, x: Node)
    ensures var r := InsertFirstAt(n, path, x);
            r.Ok? ==> && DropFirstAt(r.value, path) == n
                      && (|path| > 0 ==> (ElementAt(r.value, [0]) <==> ElementAt(n, [0])))
                      && (path == [0] && At(n, [0, 0]).Some? ==> At(r.value, [0, 1]) == At(n, [0, 0]))
  {
    var r := InsertFirstAt(n, path, x);
    if r.Ok? {
      DropFirstAtInsertFirstAt(n, path, x);
      if |path| > 0 {
        InsertKeepsTop(n, path, x);
      }
      if path == [0] && At(n, [0, 0]).Some? {
        assert ChildrenOf(At(r.value, [0]).value) == [x] + ChildrenOf(At(n, [0]).value);
      }
    }
  }

  lemma InsertKeepsTop(n: Node, path: seq<nat>, x: Node)
    requires |path| > 0 && InsertFirstAt(n, path, x).Ok?
    ensures ElementAt(InsertFirstAt(n, path, x).value, [0]) <==> ElementAt(n, [0])
  {
    var r := InsertFirstAt(n, path, x).value;
    var c := InsertFirstAt(n.children[path[0]], path[1..], x);
    assert c.Ok?;
    assert r.children == n.children[path[0] := c.value];
    if path[0] == 0 {
      assert At(c.value, path[1..] + [0]) == Some(x);
      assert c.value.Element?;
      assert n.children[0].Element?;
    }
  }

  const Doctype: string := "<!DOCTYPE html>\n"

  /** The text written out: the serialised tree, preceded by the doctype
      declaration unless only the body is exported. */
  function ExportText(bodyOnly: bool, serialized: string): (r: string)
    ensures bodyOnly ==> r == serialized
    ensures !bodyOnly ==> StartsWith(r, Doctype) && r[|Doctype|..] == serialized
  {
    if bodyOnly then serialized
    else
      assert (Doctype + serialized)[..|Doctype|] == Doctype;
      Doctype + serialized
  }

  /** On the skeleton `enclose_body` builds, assembly never fails: the
      navigation grid ends up first in the grid container, the stylesheet
      first in the grid container of a body-only page and first in the head
      of a full page. */
  lemma AssembleSkeleton(navOn: bool, bodyOnly: bool, cssOn: bool, css: Node, nav: Node,
                         title: string, lead: Option<string>, content: seq<Node>)
    ensures var root := SkeletonTree(bodyOnly, title, lead, content);
            var r := Assemble(navOn, bodyOnly, cssOn, css, nav, root);
            && r.Ok?
            && (bodyOnly ==>
                  ChildrenOf(At(r.value, [0]).value)
                  == (if cssOn then [css] else []) + (if navOn then [nav] else []) + ChildrenOf(At(root, [0]).value))
            && (!bodyOnly ==>
                  && ChildrenOf(At(r.value, [1, 0]).value) == (if navOn then [nav] else []) + ChildrenOf(At(root, [1, 0]).value)
                  && ChildrenOf(At(r.value, [0]).value) == (if cssOn then [css] else []) + ChildrenOf(At(root, [0]).value))
  {
  }
}
