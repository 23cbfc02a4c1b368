/** The effects of the regular-expression substitutions the conversion
    module applies, each written out as an explicit scan. In all of them `.`
    does not match a newline, so a match never spans two lines. */
module Patterns {
  import opened Wrappers
  import opened Text

  /** Where `pat` first starts without a newline before it: how a lazy `.*?`
      followed by `pat` finds its end. */
  function FindOnLine(s: string, pat: string): (r: Option<nat>)
    requires |pat| > 0 && pat[0] != '\n'
    ensures r.Some? ==> r.value + |pat| <= |s| && StartsWith(s[r.value..], pat)
    ensures r.Some? ==> forall i :: 0 <= i < r.value ==> s[i] != '\n'
    decreases |s|
  {
    if StartsWith(s, pat) then Some(0)
    else if s == [] || s[0] == '\n' then None
    else match FindOnLine(s[1..], pat)
      case Some(j) => Some(j + 1)
      case None => None
  }

  /** `pat` is found right after a stretch that holds neither a newline nor
      the first character of `pat`. */
  lemma {:induction false} FindAfterFreeStretch(x: string, pat: string, rest: string)
    requires |pat| > 0 && pat[0] != '\n'
    requires forall i :: 0 <= i < |x| ==> x[i] != '\n' && x[i] != pat[0]
    ensures FindOnLine(x + pat + rest, pat) == Some(|x|)
    decreases |x|
  {
    if x == [] {
      assert x + pat + rest == pat + rest;
      assert (pat + rest)[..|pat|] == pat;
    } else {
      assert (x + pat + rest)[1..] == x[1..] + pat + rest;
      FindAfterFreeStretch(x[1..], pat, rest);
    }
  }

  // ------------------------------------------------------------ stripping tags

  /** `re.sub(r'(<.*?>)', '', s)`: every `<` closed by a `>` on the same line
      is removed together with everything up to and including that `>`. */
  function StripTags(s: string): (r: string)
    ensures |r| <= |s|
    decreases |s|
  {
    if s == [] then []
    else if s[0] == '<' then
      match FindOnLine(s[1..], ">")
      case Some(j) => StripTags(s[j + 2..])
      case None => [s[0]] + StripTags(s[1..])
    else [s[0]] + StripTags(s[1..])
  }

  /** No `<` in `s` is closed by a `>` on its line: nothing left for the tag
      pattern to match. */
  predicate NoTag(s: string)
    decreases |s|
  {
    s == [] || ((s[0] == '<' ==> FindOnLine(s[1..], ">").None?) && NoTag(s[1..]))
  }

  lemma {:induction false} NoTagSuffix(s: string, i: nat)
    requires NoTag(s) && i <= |s|
    ensures NoTag(s[i..])
    decreases i
  {
    if i > 0 {
      assert s[1..][i - 1..] == s[i..];
      NoTagSuffix(s[1..], i - 1);
    }
  }

  /** A line with no `>` on it keeps having none once tags are stripped. */
  lemma {:induction false} StripTagsKeepsOpenLine(s: string)
    requires FindOnLine(s, ">").None?
    ensures FindOnLine(StripTags(s), ">").None?
    decreases |s|
  {
    if s != [] && s[0] != '\n' {
      assert s[0] != '>';
      assert FindOnLine(s[1..], ">").None?;
      StripTagsKeepsOpenLine(s[1..]);
      var r := StripTags(s);
      assert r == [s[0]] + StripTags(s[1..]);
      assert r[1..] == StripTags(s[1..]);
    }
  }

  /** After stripping, no complete tag is left. */
  lemma {:induction false} StripTagsLeavesNoTag(s: string)
    ensures NoTag(StripTags(s))
    decreases |s|
  {
    if s != [] {
      if s[0] == '<' && FindOnLine(s[1..], ">").Some? {
        var j := FindOnLine(s[1..], ">").value;
        StripTagsLeavesNoTag(s[j + 2..]);
      } else {
        StripTagsLeavesNoTag(s[1..]);
        var r := StripTags(s);
        assert r[1..] == StripTags(s[1..]);
        if s[0] == '<' {
          StripTagsKeepsOpenLine(s[1..]);
        }
      }
    }
  }

  /** Text without a complete tag passes through unchanged. */
  lemma {:induction false} StripTagsKeepsTagFree(s: string)
    requires NoTag(s)
    ensures StripTags(s) == s
    decreases |s|
  {
    if s != [] {
      StripTagsKeepsTagFree(s[1..]);
    }
  }

  /** Stripping tags twice is stripping them once. */
  lemma StripTagsIdempotent(s: string)
    ensures StripTags(StripTags(s)) == StripTags(s)
  {
    StripTagsLeavesNoTag(s);
    StripTagsKeepsTagFree(StripTags(s));
  }

  /** A tag `<a>` whose inside holds no `>` and no newline disappears. */
  lemma StripTagsDropsTag(a: string, rest: string)
    requires forall i :: 0 <= i < |a| ==> a[i] != '>' && a[i] != '\n'
    ensures StripTags("<" + a + ">" + rest) == StripTags(rest)
  {
    var s := "<" + a + ">" + rest;
    assert s[1..] == a + ">" + rest;
    FindAfterFreeStretch(a, ">", rest);
    assert s[|a| + 2..] == rest;
  }

  // ----------------------------------------------------------- stripping spans

  /** `re.sub(r'(<span)(.*?)(>)(.*?)(</span>)', r'\4', s)`: a `<span ...>`
      opening tag and the next `</span>` on the same line are removed, the
      text between them kept. */
  function StripSpans(s: string): (r: string)
    ensures |r| <= |s|
    decreases |s|
  {
    if s == [] then []
    else
      var st := SpanStep(s);
      st.0 + StripSpans(st.1)
  }

  /** Where a span starts at the head of `s`: the offset of its `>` after
      `<span`, and the length of its content. */
  function SpanAt(s: string): (r: Option<(nat, nat)>)
    ensures r.Some? ==> 6 + r.value.0 + r.value.1 + 7 <= |s|
  {
    if StartsWith(s, "<span") then
      match FindOnLine(s[5..], ">")
      case None => None
      case Some(p) =>
        match FindOnLine(s[6 + p..], "</span>")
        case None => None
        case Some(q) => Some((p, q))
    else None
  }

  /** One step of the substitution: the output it emits and the input left. */
  function SpanStep(s: string): (r: (string, string))
    requires s != []
    ensures |r.1| < |s| && |r.0| + |r.1| <= |s|
  {
    match SpanAt(s)
    case Some((p, q)) => (s[6 + p..6 + p + q], s[6 + p + q + 7..])
    case None => ([s[0]], s[1..])
  }

  /** A span whose attributes hold no `>` and whose content holds no `<`,
      both on one line, is replaced by its content. */
  lemma StripSpansUnwraps(a: string, b: string, rest: string)
    requires forall i :: 0 <= i < |a| ==> a[i] != '>' && a[i] != '\n'
    requires forall i :: 0 <= i < |b| ==> b[i] != '<' && b[i] != '\n'
    ensures StripSpans("<span" + a + ">" + b + "</span>" + rest) == b + StripSpans(rest)
  {
    var s := "<span" + a + ">" + b + "</span>" + rest;
    SpanAtOf(a, b, rest);
    assert SpanStep(s) == (b, rest) by {
      assert s[6 + |a|..6 + |a| + |b|] == b;
      assert s[6 + |a| + |b| + 7..] == rest;
    }
  }

  lemma SpanAtOf(a: string, b: string, rest: string)
    requires forall i :: 0 <= i < |a| ==> a[i] != '>' && a[i] != '\n'
    requires forall i :: 0 <= i < |b| ==> b[i] != '<' && b[i] != '\n'
    ensures SpanAt("<span" + a + ">" + b + "</span>" + rest) == Some((|a|, |b|))
  {
    var tail := b + "</span>" + rest;
    var s := "<span" + a + ">" + tail;
    assert s == "<span" + a + ">" + b + "</span>" + rest;
    assert StartsWith(s, "<span") by {
      assert s[..5] == "<span";
    }
    assert s[5..] == a + ">" + tail;
    FindAfterFreeStretch(a, ">", tail);
    assert s[6 + |a|..] == tail;
    FindAfterFreeStretch(b, "</span>", rest);
  }

  /** Text without `<` has no span to remove. */
  lemma {:induction false} StripSpansKeepsPlainText(s: string)
    requires forall i :: 0 <= i < |s| ==> s[i] != '<'
    ensures StripSpans(s) == s
    decreases |s|
  {
    if s != [] {
      assert !StartsWith(s, "<span") by {
        if |s| >= 5 {
          assert s[..5][0] == s[0];
        }
      }
      assert SpanAt(s) == None;
      assert StripSpans(s) == [s[0]] + StripSpans(s[1..]);
      StripSpansKeepsPlainText(s[1..]);
    }
  }

  // ---------------------------------------------------- the footnote label

  /** Length of the run of digits at the start of `s`. */
  function DigitRun(s: string): (n: nat)
    ensures n <= |s| && AllDigits(s[..n])
    ensures n < |s| ==> !IsDigit(s[n])
    decreases |s|
  {
    if s != [] && IsDigit(s[0]) then 1 + DigitRun(s[1..]) else 0
  }

  /** Length of the line at the start of `s`, up to the first newline. */
  function LineLength(s: string): (n: nat)
    ensures n <= |s| && (n < |s| ==> s[n] == '\n')
    ensures forall i :: 0 <= i < n ==> s[i] != '\n'
    decreases |s|
  {
    if s == [] || s[0] == '\n' then 0 else 1 + LineLength(s[1..])
  }

  /** The length of the label `footnoteN)<tab><space>` at the start of `s`,
      if it starts with one. */
  function LabelLength(s: string): (r: Option<nat>)
    ensures r.Some? ==> StartsWith(s, "footnote") && 12 <= r.value <= |s|
    ensures r.Some? ==> forall i :: 0 <= i < r.value ==> s[i] != '\n' && s[i] != '>'
  {
    if StartsWith(s, "footnote") && DigitRun(s[8..]) > 0 && StartsWith(s[8 + DigitRun(s[8..])..], ")\t ") then
      var d := DigitRun(s[8..]);
      assert forall i :: 8 <= i < 8 + d ==> s[i] == s[8..][..d][i - 8];
      assert forall i :: 8 + d <= i < 11 + d ==> s[i] == s[8 + d..][..3][i - 8 - d];
      Some(11 + d)
    else None
  }

  /** `re.sub(r'(footnote)(\d+)\)\t (.*)', r'\3', s)`: on each line, the first
      `footnoteN)<tab><space>` label is removed; the greedy `.*` consumes the
      rest of that line, so later labels on the same line stay. */
  function DropFootnoteLabel(s: string): (r: string)
    ensures |r| <= |s|
    decreases |s|
  {
    if s == [] then []
    else match LabelLength(s)
      case Some(m) =>
        var e := m + LineLength(s[m..]);
        s[m..e] + DropFootnoteLabel(s[e..])
      case None => [s[0]] + DropFootnoteLabel(s[1..])
  }

  /** The label at the start of a footnote is recognised in full. */
  lemma LabelLengthOfNote(digits: string, body: string)
    requires IsDigitString(digits)
    ensures LabelLength("footnote" + digits + ")\t " + body) == Some(11 + |digits|)
  {
    var s := "footnote" + digits + ")\t " + body;
    assert StartsWith(s, "footnote") by {
      assert s[..8] == "footnote";
    }
    assert s[8..] == digits + (")\t " + body);
    DigitRunOf(digits, ")\t " + body);
    assert s[8 + |digits|..] == ")\t " + body;
    assert StartsWith(s[8 + |digits|..], ")\t ") by {
      assert (")\t " + body)[..3] == ")\t ";
    }
  }

  /** The label produced for footnote N is removed, leaving its text. */
  lemma DropFootnoteLabelOfNote(digits: string, body: string)
    requires IsDigitString(digits)
    requires forall i :: 0 <= i < |body| ==> body[i] != '\n'
    ensures DropFootnoteLabel("footnote" + digits + ")\t " + body) == body
  {
    var s := "footnote" + digits + ")\t " + body;
    LabelLengthOfNote(digits, body);
    var m := 11 + |digits|;
    assert s[m..] == body;
    LineLengthOfLine(body);
    assert s[m..m + |body|] == body;
    assert s[m + |body|..] == [];
    DropFootnoteLabelStep(s, m);
  }

  lemma DropFootnoteLabelStep(s: string, m: nat)
    requires LabelLength(s) == Some(m)
    ensures DropFootnoteLabel(s) == s[m..m + LineLength(s[m..])] + DropFootnoteLabel(s[m + LineLength(s[m..])..])
  {
  }

  lemma {:induction false} DigitRunOf(digits: string, rest: string)
    requires AllDigits(digits)
    requires rest != [] && !IsDigit(rest[0])
    ensures DigitRun(digits + rest) == |digits|
    decreases |digits|
  {
    if digits == [] {
      assert digits + rest == rest;
    } else {
      var s := digits + rest;
      assert s[0] == digits[0] && IsDigit(digits[0]);
      assert s[1..] == digits[1..] + rest;
      assert AllDigits(digits[1..]) by {
        forall i | 0 <= i < |digits| - 1 ensures IsDigit(digits[1..][i]) {
          assert digits[1..][i] == digits[i + 1];
        }
      }
      DigitRunOf(digits[1..], rest);
    }
  }

  lemma {:induction false} LineLengthOfLine(s: string)
    requires forall i :: 0 <= i < |s| ==> s[i] != '\n'
    ensures LineLength(s) == |s|
    decreases |s|
  {
    if s != [] {
      LineLengthOfLine(s[1..]);
    }
  }

  /** Text in which the word `footnote` never occurs is left alone. */
  lemma {:induction false} DropFootnoteLabelKeepsOtherText(s: string)
    requires !Contains(s, "footnote")
    ensures DropFootnoteLabel(s) == s
    decreases |s|
  {
    if s != [] {
      DropFootnoteLabelKeepsOtherText(s[1..]);
    }
  }

  /** A stretch without newline or `>` in front of a line break cannot be
      closed by a `>` on its line. */
  lemma {:induction false} OpenStretch(x: string, d: string)
    requires forall i :: 0 <= i < |x| ==> x[i] != '\n' && x[i] != '>'
    requires d == [] || d[0] == '\n'
    ensures FindOnLine(x + d, ">").None?
    decreases |x|
  {
    if x == [] {
      assert x + d == d;
    } else {
      assert (x + d)[0] == x[0];
      assert !StartsWith(x + d, ">");
      assert (x + d)[1..] == x[1..] + d;
      OpenStretch(x[1..], d);
    }
  }

  /** If no `>` closes the line, a newline-free prefix of it holds no `>`. */
  lemma {:induction false} OpenLinePrefix(x: string, t: string)
    requires forall i :: 0 <= i < |x| ==> x[i] != '\n'
    requires FindOnLine(x + t, ">").None?
    ensures forall i :: 0 <= i < |x| ==> x[i] != '>'
    decreases |x|
  {
    if x != [] {
      assert (x + t)[0] == x[0];
      assert (x + t)[1..] == x[1..] + t;
      OpenLinePrefix(x[1..], t);
      forall i | 1 <= i < |x|
        ensures x[i] != '>'
      {
        assert x[i] == x[1..][i - 1];
      }
    }
  }

  lemma DropFootnoteLabelKeepsLineStart(s: string)
    requires s == [] || s[0] == '\n'
    ensures DropFootnoteLabel(s) == [] || DropFootnoteLabel(s)[0] == '\n'
  {
  }

  /** Removing a label never closes a tag that was open on its line. */
  lemma {:induction false} DropFootnoteLabelKeepsOpenLine(s: string)
    requires FindOnLine(s, ">").None?
    ensures FindOnLine(DropFootnoteLabel(s), ">").None?
    decreases |s|
  {
    if s != [] {
      match LabelLength(s)
      case Some(m) =>
        var e := m + LineLength(s[m..]);
        assert s == s[..e] + s[e..];
        OpenLinePrefix(s[..e], s[e..]);
        DropFootnoteLabelKeepsLineStart(s[e..]);
        OpenStretch(s[m..e], DropFootnoteLabel(s[e..]));
      case None =>
        if s[0] != '\n' {
          assert s[0] != '>';
          DropFootnoteLabelKeepsOpenLine(s[1..]);
          var r := DropFootnoteLabel(s);
          assert r[1..] == DropFootnoteLabel(s[1..]);
        }
    }
  }

  /** Joining a newline-free stretch to text that starts a new line keeps
      the stretch free of complete tags. */
  lemma {:induction false} NoTagJoin(x: string, t: string, d: string)
    requires forall i :: 0 <= i < |x| ==> x[i] != '\n'
    requires NoTag(x + t) && NoTag(d) && (d == [] || d[0] == '\n')
    ensures NoTag(x + d)
    decreases |x|
  {
    if x == [] {
      assert x + d == d;
    } else {
      assert (x + t)[1..] == x[1..] + t;
      assert (x + d)[1..] == x[1..] + d;
      NoTagJoin(x[1..], t, d);
      if x[0] == '<' {
        OpenLinePrefix(x[1..], t);
        OpenStretch(x[1..], d);
      }
    }
  }

  /** Removing footnote labels keeps tag-free text tag-free. */
  lemma {:induction false} DropFootnoteLabelKeepsNoTag(s: string)
    requires NoTag(s)
    ensures NoTag(DropFootnoteLabel(s))
    decreases |s|
  {
    if s != [] {
      match LabelLength(s)
      case Some(m) =>
        var e := m + LineLength(s[m..]);
        NoTagSuffix(s, m);
        NoTagSuffix(s, e);
        DropFootnoteLabelKeepsNoTag(s[e..]);
        DropFootnoteLabelKeepsLineStart(s[e..]);
        assert s[m..] == s[m..e] + s[e..];
        NoTagJoin(s[m..e], s[e..], DropFootnoteLabel(s[e..]));
      case None =>
        DropFootnoteLabelKeepsNoTag(s[1..]);
        var r := DropFootnoteLabel(s);
        assert r[1..] == DropFootnoteLabel(s[1..]);
        if s[0] == '<' {
          DropFootnoteLabelKeepsOpenLine(s[1..]);
        }
    }
  }

  // -------------------------------------------------------- footnote brackets

  /** The index of the last `c` before the first newline. */
  function LastOnLine(s: string, c: char): (r: Option<nat>)
    ensures r.Some? ==> r.value < |s| && s[r.value] == c
    ensures r.Some? ==> forall i :: 0 <= i < r.value ==> s[i] != '\n'
    decreases |s|
  {
    if s == [] || s[0] == '\n' then None
    else match LastOnLine(s[1..], c)
      case Some(j) => Some(j + 1)
      case None => if s[0] == c then Some(0) else None
  }

  /** `re.sub(r'(\[)(.*)(\])', r'\2', s)`: a `[` and the last `]` after it
      on the same line are removed (the greedy `.*` reaches the last one). */
  function StripBrackets(s: string): (r: string)
    ensures |r| <= |s|
    decreases |s|
  {
    if s == [] then []
    else if s[0] == '[' then
      match LastOnLine(s[1..], ']')
      case Some(j) => s[1..j + 1] + StripBrackets(s[j + 2..])
      case None => [s[0]] + StripBrackets(s[1..])
    else [s[0]] + StripBrackets(s[1..])
  }

  lemma {:induction false} LastOnLineClosing(d: string)
    requires forall i :: 0 <= i < |d| ==> d[i] != '\n'
    ensures LastOnLine(d + "]", ']') == Some(|d|)
    decreases |d|
  {
    if d == [] {
      assert d + "]" == "]";
    } else {
      assert (d + "]")[1..] == d[1..] + "]";
      LastOnLineClosing(d[1..]);
    }
  }

  /** A footnote marker `[N]` becomes `N`; whatever the brackets enclose on
      one line is kept, inner brackets included. */
  lemma StripBracketsOfMarker(d: string)
    requires forall i :: 0 <= i < |d| ==> d[i] != '\n'
    ensures StripBrackets("[" + d + "]") == d
  {
    var t := d + "]";
    var s := "[" + t;
    assert s == "[" + d + "]";
    assert s[1..] == t;
    assert t[..|d|] == d;
    StripBracketsOfSplit(s, d);
  }

  lemma StripBracketsOfSplit(s: string, d: string)
    requires forall i :: 0 <= i < |d| ==> d[i] != '\n'
    requires |s| == |d| + 2 && s[0] == '[' && s[1..] == d + "]" && s[1..][..|d|] == d
    ensures StripBrackets(s) == d
  {
    LastOnLineClosing(d);
    StripBracketsStep(s, |d|);
    assert s[1..|d| + 1] == s[1..][..|d|];
    assert d + StripBrackets([]) == d;
  }

  lemma StripBracketsStep(s: string, j: nat)
    requires s != [] && s[0] == '[' && LastOnLine(s[1..], ']') == Some(j)
    ensures StripBrackets(s) == s[1..j + 1] + StripBrackets(s[j + 2..])
  {
  }

  /** Text without `[` has no bracket to strip. */
  lemma {:induction false} StripBracketsKeepsPlainText(s: string)
    requires forall i :: 0 <= i < |s| ==> s[i] != '['
    ensures StripBrackets(s) == s
    decreases |s|
  {
    if s != [] {
      StripBracketsKeepsPlainText(s[1..]);
    }
  }

  // ------------------------------------------------------- break opportunities

  /** `re.sub(r'/', r'/<wbr>', s)`: a `<wbr>` after every slash. */
  function InsertWbr(s: string): (r: string)
    ensures |r| == |s| + 5 * CountChar(s, '/')
    decreases |s|
  {
    if s == [] then []
    else (if s[0] == '/' then "/<wbr>" else [s[0]]) + InsertWbr(s[1..])
  }

  /** Removes the `<wbr>` that follows each slash: the inverse of `InsertWbr`. */
  function RemoveWbr(s: string): string
    decreases |s|
  {
    if s == [] then []
    else if StartsWith(s, "/<wbr>") then "/" + RemoveWbr(s[6..])
    else [s[0]] + RemoveWbr(s[1..])
  }

  /** Inserting break opportunities loses nothing: removing them again gives
      the original text back. */
  lemma {:induction false} RemoveInsertWbr(s: string)
    ensures RemoveWbr(InsertWbr(s)) == s
    decreases |s|
  {
    if s != [] {
      var r := InsertWbr(s);
      RemoveInsertWbr(s[1..]);
      if s[0] == '/' {
        assert r[..6] == "/<wbr>";
        assert r[6..] == InsertWbr(s[1..]);
      } else {
        assert r[0] == s[0];
        assert r[1..] == InsertWbr(s[1..]);
      }
    }
  }

  /** In the result every slash is followed by `<wbr>`. */
  lemma {:induction false} InsertWbrAfterEverySlash(s: string)
    ensures var r := InsertWbr(s);
            forall i :: 0 <= i < |r| && r[i] == '/' ==> i + 6 <= |r| && r[i..i + 6] == "/<wbr>"
    decreases |s|
  {
    if s != [] {
      InsertWbrAfterEverySlash(s[1..]);
      var r := InsertWbr(s);
      var h := if s[0] == '/' then "/<wbr>" else [s[0]];
      assert r == h + InsertWbr(s[1..]);
      forall i | 0 <= i < |r| && r[i] == '/'
        ensures i + 6 <= |r| && r[i..i + 6] == "/<wbr>"
      {
        var t := InsertWbr(s[1..]);
        if i >= |h| {
          assert r[i] == t[i - |h|];
          SliceOfAppend(h, t, i, 6);
        } else {
          assert i == 0 && h == "/<wbr>";
          SliceOfAppend(h, t, 0, 6);
        }
      }
    }
  }

  /** A slice of a concatenation that lies within one of its parts. */
  lemma SliceOfAppend(h: string, t: string, i: nat, n: nat)
    requires i + n <= |h| + |t| && (i >= |h| || i + n <= |h|)
    ensures i >= |h| ==> (h + t)[i..i + n] == t[i - |h|..i - |h| + n]
    ensures i + n <= |h| ==> (h + t)[i..i + n] == h[i..i + n]
  {
  }
}
