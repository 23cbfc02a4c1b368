/** The footnote list: the footnote texts cleaned of markup and labels,
    optionally abbreviated, and given break opportunities after slashes.
    Each operation maps the list index by index, as the Python loops over
    `range(len(footnotes))` do. */
module Footnotes {
  import opened Text
  import opened Patterns

  /** The text a footnote has before cleaning: its label
      `footnoteN)<tab><space>` followed by its content. */
  function LabelledNote(digits: string, body: string): string {
    "footnote" + digits + ")\t " + body
  }

  /** One footnote cleaned: all tags removed when an abbreviation threshold
      is given (an abbreviation could cut a tag in half), otherwise only
      spans; then the label is removed. */
  function CleanFootnote(s: string, abbreviate: string): (r: string)
    ensures |r| <= |s|
    ensures abbreviate != "" ==> NoTag(r)
  {
    if abbreviate != "" then
      StripTagsLeavesNoTag(s);
      DropFootnoteLabelKeepsNoTag(StripTags(s));
      DropFootnoteLabel(StripTags(s))
    else DropFootnoteLabel(StripSpans(s))
  }

  /** `create_footnotes_list`: every footnote cleaned in place. */
  function CreateFootnotesList(footnotes: seq<string>, abbreviate: string): (r: seq<string>)
    ensures |r| == |footnotes|
    ensures forall i :: 0 <= i < |r| ==> |r[i]| <= |footnotes[i]|
    ensures abbreviate != "" ==> forall i :: 0 <= i < |r| ==> NoTag(r[i])
  {
    seq(|footnotes|, i requires 0 <= i < |footnotes| => CleanFootnote(footnotes[i], abbreviate))
  }

  /** Text without `<` holds no complete tag. */
  lemma {:induction false} PlainTextHasNoTag(s: string)
    requires forall i :: 0 <= i < |s| ==> s[i] != '<'
    ensures NoTag(s)
    decreases |s|
  {
    if s != [] {
      PlainTextHasNoTag(s[1..]);
    }
  }

  /** A labelled footnote whose content is one line of plain text is cleaned
      down to exactly that content, whichever way the tags are stripped. */
  lemma CleanLabelledNote(digits: string, body: string, abbreviate: string)
    requires IsDigitString(digits)
    requires forall i :: 0 <= i < |body| ==> body[i] != '\n' && body[i] != '<'
    ensures CleanFootnote(LabelledNote(digits, body), abbreviate) == body
  {
    var s := LabelledNote(digits, body);
    assert forall i :: 0 <= i < |s| ==> s[i] != '<' by {
      forall i | 0 <= i < |s|
        ensures s[i] != '<'
      {
        if i >= 11 + |digits| {
          assert s[i] == body[i - 11 - |digits|];
        } else if 8 <= i < 8 + |digits| {
          assert s[i] == digits[i - 8];
        }
      }
    }
    if abbreviate != "" {
      PlainTextHasNoTag(s);
      StripTagsKeepsTagFree(s);
    } else {
      StripSpansKeepsPlainText(s);
    }
    DropFootnoteLabelOfNote(digits, body);
  }

  /** The footnotes as a document delivers them, labelled 1, 2, 3, ..., are
      cleaned down to their contents. */
  lemma CreateFootnotesListOfNotes(bodies: seq<string>, abbreviate: string)
    requires forall k, i :: 0 <= k < |bodies| && 0 <= i < |bodies[k]| ==> bodies[k][i] != '\n' && bodies[k][i] != '<'
    ensures CreateFootnotesList(seq(|bodies|, k requires 0 <= k < |bodies| => LabelledNote(NatToString(k + 1), bodies[k])), abbreviate)
            == bodies
  {
    var notes := seq(|bodies|, k requires 0 <= k < |bodies| => LabelledNote(NatToString(k + 1), bodies[k]));
    forall k | 0 <= k < |bodies|
      ensures CreateFootnotesList(notes, abbreviate)[k] == bodies[k]
    {
      CleanLabelledNote(NatToString(k + 1), bodies[k], abbreviate);
    }
  }

  // --------------------------------------------------------------- abbreviation

  /** The marker appended to a shortened footnote. */
  const Ellipsis: string := "[...]"

  /** One footnote cut after `limit` characters. */
  function AbbreviateNote(s: string, limit: nat): (r: string)
    ensures |s| > limit ==> |r| == limit + |Ellipsis| && r[..limit] == s[..limit] && r[limit..] == Ellipsis
    ensures |s| <= limit ==> r == s
  {
    if |s| > limit then s[..limit] + Ellipsis else s
  }

  /** What `abbreviate_footnotes` does with the threshold text: nothing when
      it is empty, an error notice and nothing else when it is not a
      number, otherwise cut every longer footnote. */
  datatype Abbreviation = Abbreviation(footnotes: seq<string>, warned: bool)

  function AbbreviateFootnotes(footnotes: seq<string>, threshold: string): (r: Abbreviation)
    ensures |r.footnotes| == |footnotes|
    ensures r.warned <==> threshold != "" && !IsDigitString(threshold)
    ensures !IsDigitString(threshold) ==> r.footnotes == footnotes
    ensures IsDigitString(threshold) ==>
              forall i :: 0 <= i < |footnotes| ==>
                if |footnotes[i]| > ParseNat(threshold)
                then |r.footnotes[i]| == ParseNat(threshold) + 5
                     && r.footnotes[i] == footnotes[i][..ParseNat(threshold)] + "[...]"
                else r.footnotes[i] == footnotes[i]
  {
    if threshold == "" then Abbreviation(footnotes, false)
    else if IsDigitString(threshold) then
      var limit := ParseNat(threshold);
      Abbreviation(seq(|footnotes|, i requires 0 <= i < |footnotes| => AbbreviateNote(footnotes[i], limit)), false)
    else Abbreviation(footnotes, true)
  }

  /** Abbreviating an already abbreviated list changes nothing. */
  lemma AbbreviateFootnotesIdempotent(footnotes: seq<string>, threshold: string)
    ensures var once := AbbreviateFootnotes(footnotes, threshold).footnotes;
            AbbreviateFootnotes(once, threshold).footnotes == once
  {
    var once := AbbreviateFootnotes(footnotes, threshold).footnotes;
    if IsDigitString(threshold) {
      var limit := ParseNat(threshold);
      forall i | 0 <= i < |once|
        ensures AbbreviateNote(once[i], limit) == once[i]
      {
        if |footnotes[i]| > limit {
          assert once[i][..limit] == footnotes[i][..limit];
        }
      }
    }
  }

  // ------------------------------------------------------- break opportunities

  /** `add_wbr_footnotes`: a `<wbr>` after every slash of every footnote. */
  function AddWbrFootnotes(footnotes: seq<string>): (r: seq<string>)
    ensures |r| == |footnotes|
    ensures forall i :: 0 <= i < |r| ==> |r[i]| == |footnotes[i]| + 5 * CountChar(footnotes[i], '/')
  {
    seq(|footnotes|, i requires 0 <= i < |footnotes| => InsertWbr(footnotes[i]))
  }

  /** The footnotes are recovered from their break-annotated form, and each
      slash in it is followed by `<wbr>`. */
  lemma AddWbrFootnotesReversible(footnotes: seq<string>)
    ensures var r := AddWbrFootnotes(footnotes);
            seq(|r|, i requires 0 <= i < |r| => RemoveWbr(r[i])) == footnotes
    ensures var r := AddWbrFootnotes(footnotes);
            forall k, i :: 0 <= k < |r| && 0 <= i < |r[k]| && r[k][i] == '/' ==>
              i + 6 <= |r[k]| && r[k][i..i + 6] == "/<wbr>"
  {
    var r := AddWbrFootnotes(footnotes);
    forall k | 0 <= k < |r|
      ensures RemoveWbr(r[k]) == footnotes[k]
      ensures forall i :: 0 <= i < |r[k]| && r[k][i] == '/' ==> i + 6 <= |r[k]| && r[k][i..i + 6] == "/<wbr>"
    {
      RemoveInsertWbr(footnotes[k]);
      InsertWbrAfterEverySlash(footnotes[k]);
    }
  }
}
