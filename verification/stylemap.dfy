/** The style map handed to the DOCX converter: one rule per paragraph style
    the user named, mapping that style to the HTML element it becomes. */
module StyleMap {
  import opened Text

  /** A paragraph style and the element it maps to. */
  datatype Rule = Rule(styleName: string, target: string)

  /** The converter's rule syntax: `p[style-name='S'] => target:fresh`. */
  function RuleText(r: Rule): string {
    "p[style-name='" + r.styleName + "'] => " + r.target + ":fresh"
  }

  /** `custom_style_map += line` when `on` holds. */
  function AppendIf(m: string, on: bool, line: string): (r: string)
    requires line != ""
    ensures |r| >= |m| && r[..|m|] == m
    ensures r == m <==> !on
  {
    if on then m + line else m
  }

  /** `style_map_func`, written as the Python writes it: each non-empty field
      appends its rule; every rule but the headings rule starts on a new
      line; the rule for unnumbered paragraphs only when paragraph numbering
      is switched on. */
  function StyleMapFunc(custom: string, headings: string, media: string, blockquotes: string,
                        tableCaptions: string, bibliography: string, ignorePNum: string,
                        numberParagraphs: bool): (r: string)
    ensures StartsWith(r, custom)
    ensures r == custom <==>
              headings == "" && media == "" && blockquotes == "" && tableCaptions == "" && bibliography == ""
              && (ignorePNum == "" || !numberParagraphs)
  {
    var m1 := AppendIf(custom, headings != "", RuleText(Rule(headings, "h1")));
    var m2 := AppendIf(m1, media != "", "\n" + RuleText(Rule(media, "p.mediacaption")));
    var m3 := AppendIf(m2, blockquotes != "", "\n" + RuleText(Rule(blockquotes, "blockquote")));
    var m4 := AppendIf(m3, tableCaptions != "", "\n" + RuleText(Rule(tableCaptions, "caption")));
    var m5 := AppendIf(m4, bibliography != "", "\n" + RuleText(Rule(bibliography, "p.bibliography")));
    var m6 := AppendIf(m5, ignorePNum != "" && numberParagraphs, "\n" + RuleText(Rule(ignorePNum, "p.ignorePNum")));
    PrefixChain(custom, m1, m2);
    PrefixChain(custom, m2, m3);
    PrefixChain(custom, m3, m4);
    PrefixChain(custom, m4, m5);
    PrefixChain(custom, m5, m6);
    m6
  }

  lemma PrefixChain(a: string, b: string, c: string)
    requires |a| <= |b| <= |c| && b[..|a|] == a && c[..|b|] == b
    ensures c[..|a|] == a
  {
    assert c[..|a|] == c[..|b|][..|a|];
  }

  // ------------------------------------------------------ the rule table

  /** The fields in their fixed order with the element each maps to; a
      field that is switched off counts as empty. */
  function Fields(headings: string, media: string, blockquotes: string, tableCaptions: string,
                  bibliography: string, ignorePNum: string, numberParagraphs: bool): (fs: seq<Rule>)
    ensures |fs| == 6
  {
    [ Rule(headings, "h1"),
      Rule(media, "p.mediacaption"),
      Rule(blockquotes, "blockquote"),
      Rule(tableCaptions, "caption"),
      Rule(bibliography, "p.bibliography"),
      Rule(if numberParagraphs then ignorePNum else "", "p.ignorePNum") ]
  }

  /** The table written out: each non-empty field appends its rule, on a
      new line unless it is the first field of the table. */
  function Build(m: string, fs: seq<Rule>, first: bool): string
    decreases |fs|
  {
    if fs == [] then m
    else Build(AppendIf(m, fs[0].styleName != "", (if first then "" else "\n") + RuleText(fs[0])), fs[1..], false)
  }

  /** The non-empty fields, in order. */
  function Active(fs: seq<Rule>): (r: seq<Rule>)
    ensures |r| <= |fs|
    ensures forall i :: 0 <= i < |r| ==> r[i].styleName != ""
    decreases |fs|
  {
    if fs == [] then [] else (if fs[0].styleName == "" then [] else [fs[0]]) + Active(fs[1..])
  }

  /** Rules written one after another, each on a new line except, when
      `bare` holds, the first. */
  function RenderAll(rs: seq<Rule>, bare: bool): string
    decreases |rs|
  {
    if rs == [] then "" else (if bare then "" else "\n") + RuleText(rs[0]) + RenderAll(rs[1..], false)
  }

  /** The style map is the custom map with the rule table written out
      after it. */
  lemma StyleMapMatchesFields(custom: string, headings: string, media: string, blockquotes: string,
                              tableCaptions: string, bibliography: string, ignorePNum: string,
                              numberParagraphs: bool)
    ensures StyleMapFunc(custom, headings, media, blockquotes, tableCaptions, bibliography, ignorePNum, numberParagraphs)
            == Build(custom, Fields(headings, media, blockquotes, tableCaptions, bibliography, ignorePNum, numberParagraphs), true)
  {
    var r0 := Rule(headings, "h1");
    BuildSix(custom, r0, Rule(media, "p.mediacaption"), Rule(blockquotes, "blockquote"),
             Rule(tableCaptions, "caption"), Rule(bibliography, "p.bibliography"),
             Rule(if numberParagraphs then ignorePNum else "", "p.ignorePNum"));
    assert "" + RuleText(r0) == RuleText(r0);
  }

  /** Writing out a table of six fields, field by field. */
  lemma BuildSix(m: string, r0: Rule, r1: Rule, r2: Rule, r3: Rule, r4: Rule, r5: Rule)
    ensures Build(m, [r0, r1, r2, r3, r4, r5], true)
            == var m1 := AppendIf(m, r0.styleName != "", "" + RuleText(r0));
               var m2 := AppendIf(m1, r1.styleName != "", "\n" + RuleText(r1));
               var m3 := AppendIf(m2, r2.styleName != "", "\n" + RuleText(r2));
               var m4 := AppendIf(m3, r3.styleName != "", "\n" + RuleText(r3));
               var m5 := AppendIf(m4, r4.styleName != "", "\n" + RuleText(r4));
               AppendIf(m5, r5.styleName != "", "\n" + RuleText(r5))
  {
    var fs := [r0, r1, r2, r3, r4, r5];
    var m1 := AppendIf(m, r0.styleName != "", "" + RuleText(r0));
    var m2 := AppendIf(m1, r1.styleName != "", "\n" + RuleText(r1));
    var m3 := AppendIf(m2, r2.styleName != "", "\n" + RuleText(r2));
    var m4 := AppendIf(m3, r3.styleName != "", "\n" + RuleText(r3));
    var m5 := AppendIf(m4, r4.styleName != "", "\n" + RuleText(r4));
    var m6 := AppendIf(m5, r5.styleName != "", "\n" + RuleText(r5));
    assert Build(m6, fs[6..], false) == m6;
    assert Build(m5, fs[5..], false) == m6 by {
      assert fs[5..][0] == r5 && fs[5..][1..] == fs[6..];
    }
    assert Build(m4, fs[4..], false) == m6 by {
      assert fs[4..][0] == r4 && fs[4..][1..] == fs[5..];
    }
    assert Build(m3, fs[3..], false) == m6 by {
      assert fs[3..][0] == r3 && fs[3..][1..] == fs[4..];
    }
    assert Build(m2, fs[2..], false) == m6 by {
      assert fs[2..][0] == r2 && fs[2..][1..] == fs[3..];
    }
    assert Build(m1, fs[1..], false) == m6 by {
      assert fs[1..][0] == r1 && fs[1..][1..] == fs[2..];
    }
  }

  /** Exactly one rule per non-empty field, in field order: writing out the
      table appends the non-empty fields' rules and nothing else. */
  lemma {:induction false} BuildIsActiveRules(m: string, fs: seq<Rule>, first: bool)
    ensures Build(m, fs, first) == m + RenderAll(Active(fs), first && fs != [] && fs[0].styleName != "")
    decreases |fs|
  {
    if fs == [] {
      assert m + "" == m;
    } else {
      var line := (if first then "" else "\n") + RuleText(fs[0]);
      var m1 := AppendIf(m, fs[0].styleName != "", line);
      BuildIsActiveRules(m1, fs[1..], false);
      if fs[0].styleName == "" {
        assert Active(fs) == Active(fs[1..]);
      } else {
        assert Active(fs) == [fs[0]] + Active(fs[1..]);
        assert Active(fs)[0] == fs[0] && Active(fs)[1..] == Active(fs[1..]);
        var tail := RenderAll(Active(fs[1..]), false);
        assert RenderAll(Active(fs), first) == line + tail;
        AppendAssoc(m, line, tail);
      }
    }
  }

  /** The style map is the custom map followed by one rule for each
      non-empty field, in the order headings, media, blockquotes, table
      captions, bibliography, unnumbered paragraphs; only the headings rule
      is written without a line break before it. */
  lemma StyleMapRules(custom: string, headings: string, media: string, blockquotes: string,
                      tableCaptions: string, bibliography: string, ignorePNum: string,
                      numberParagraphs: bool)
    ensures var fs := Fields(headings, media, blockquotes, tableCaptions, bibliography, ignorePNum, numberParagraphs);
            StyleMapFunc(custom, headings, media, blockquotes, tableCaptions, bibliography, ignorePNum, numberParagraphs)
            == custom + RenderAll(Active(fs), headings != "")
  {
    var fs := Fields(headings, media, blockquotes, tableCaptions, bibliography, ignorePNum, numberParagraphs);
    StyleMapMatchesFields(custom, headings, media, blockquotes, tableCaptions, bibliography, ignorePNum, numberParagraphs);
    BuildIsActiveRules(custom, fs, true);
  }

  /** With paragraph numbering off, the field for unnumbered paragraphs is
      ignored as if it were empty. */
  lemma StyleMapIgnoresUnnumberedWhenOff(custom: string, headings: string, media: string, blockquotes: string,
                                         tableCaptions: string, bibliography: string, ignorePNum: string)
    ensures StyleMapFunc(custom, headings, media, blockquotes, tableCaptions, bibliography, ignorePNum, false)
            == StyleMapFunc(custom, headings, media, blockquotes, tableCaptions, bibliography, "", true)
  {
    StyleMapMatchesFields(custom, headings, media, blockquotes, tableCaptions, bibliography, ignorePNum, false);
    StyleMapMatchesFields(custom, headings, media, blockquotes, tableCaptions, bibliography, "", true);
  }

  /** Only the headings field set: the map gains exactly the headings rule. */
  lemma StyleMapHeadingsOnly(custom: string, headings: string, numberParagraphs: bool)
    requires headings != ""
    ensures StyleMapFunc(custom, headings, "", "", "", "", "", numberParagraphs)
            == custom + RuleText(Rule(headings, "h1"))
  {
    StyleMapMatchesFields(custom, headings, "", "", "", "", "", numberParagraphs);
  }
}
