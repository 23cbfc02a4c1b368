# SciDocx2Web conversion core in Dafny

SciDocx2Web turns an academic paper exported from Word into one HTML page.
Its conversion module runs a fixed series of passes over an lxml tree and
over the list of footnote texts that docx2python extracted. This project
models those passes as pure functions and proves what each pass does:

- **footnote texts**: `create_footnotes_list`, `abbreviate_footnotes` and
  `add_wbr_footnotes`. The regular expressions they use are written out as
  scanners over `seq<char>` (`Patterns`).
- **tooltips**: `insert_footnotes` and `adjust_footnotes`, with tooltips on
  and off (`Tooltips`, `Adjust`).
- **tree cleanup**: `remove_toc_and_head`, `move_table_caption` and
  `footnotes_bottom_separate` (`Cleanup`).
- **headings and navigation**: `add_Head_IDs` and `create_navigation`
  (`Headings`).
- **citations and numbers**: `add_cite` and `paragraph_numbering`
  (`Numbering`).
- **page skeleton**: `style_map_func`, `enclose_body` and the assembly step
  of `write_html` (`StyleMap`, `Skeleton`).

**The tree.** A document is a `Tree.Node`: an element (tag, ordered
attributes, optional text, children, optional tail) or a comment. "Document
order", the order of an XPath result, is the preorder of the tree.
`Labels(n)` lists every node of that preorder with its children emptied.
`ShapeOf(n)` keeps only the structure. So a pass that only rewrites text and
attributes is described completely by three facts:

- it keeps the shape;
- it keeps the number of labels;
- its effect is stated label by label.

Four loops of the source have this form: `add_Head_IDs`,
`paragraph_numbering`, `add_cite`, and `adjust_footnotes` with tooltips off.
Each is an instance of the counted pass in `Rewrite`, and `Rewrite.RunSpec`
describes all of them once.

**Errors.** A Python exception that would end the conversion is an
`Outcome.Fail` carrying the kind of error:

- an index past the end of a list;
- `re.sub` on a missing text;
- `int()` of something that is not a number;
- `getprevious()` returning `None`;
- lxml refusing a sibling for the root.

**lxml behaviour.** The model follows the library as the code uses it:

- `remove()` takes the removed element's tail with it.
- `addnext()` places the new sibling after the element's tail.
- Moving the children of a node one by one with `addnext` reverses them.
- Adding an element that is already in the tree moves it.

## Model

| member | source | states |
|---|---|---|
| Text.NatToString | SciDocx2WebConversion.py:233 | `str(i)` of a natural number is a string of decimal digits with no leading zero |
| Text.ParseNatToString | SciDocx2WebConversion.py:295 | `int()` reads back the number `str()` wrote |
| Text.NatToStringInjective | SciDocx2WebConversion.py:233 | different numbers give different digit strings |
| Text.ParseInt | SciDocx2WebConversion.py:295 | `int()` succeeds exactly on an optionally signed run of digits, and a plain digit run reads as its value |
| Text.PyIndex | SciDocx2WebConversion.py:296 | Python list indexing succeeds exactly for -len <= i < len, and a negative index counts from the end |
| Patterns.StripTags | SciDocx2WebConversion.py:101 | removing `<.*?>` never lengthens the text |
| Patterns.StripTagsLeavesNoTag | SciDocx2WebConversion.py:101 | after the substitution no `<...>` on one line is left |
| Patterns.StripTagsKeepsTagFree | SciDocx2WebConversion.py:101 | text without a tag is left alone |
| Patterns.StripTagsIdempotent | SciDocx2WebConversion.py:101 | removing tags twice is the same as removing them once |
| Patterns.StripTagsDropsTag | SciDocx2WebConversion.py:101 | a tag `<a>` whose inside has no `>` and no newline disappears and the rest is processed on |
| Patterns.StripSpans | SciDocx2WebConversion.py:103 | unwrapping spans never lengthens the text |
| Patterns.StripSpansUnwraps | SciDocx2WebConversion.py:103 | `<span...>b</span>` becomes `b` (the `\4` group), followed by the processed rest |
| Patterns.StripSpansKeepsPlainText | SciDocx2WebConversion.py:103 | text without `<` is left alone |
| Patterns.DropFootnoteLabel | SciDocx2WebConversion.py:104 | dropping the `footnoteN)\t ` labels never lengthens the text |
| Patterns.DropFootnoteLabelOfNote | SciDocx2WebConversion.py:104 | `footnoteN)\t body` on one line becomes `body` |
| Patterns.DropFootnoteLabelKeepsOtherText | SciDocx2WebConversion.py:104 | text that does not contain `footnote` is left alone |
| Patterns.DropFootnoteLabelKeepsNoTag | SciDocx2WebConversion.py:99-104 | dropping labels after stripping tags leaves no tag behind |
| Patterns.StripBrackets | SciDocx2WebConversion.py:184 | the greedy `(\[)(.*)(\])` substitution never lengthens the text |
| Patterns.StripBracketsOfMarker | SciDocx2WebConversion.py:184 | the marker `[d]` becomes `d` |
| Patterns.StripBracketsKeepsPlainText | SciDocx2WebConversion.py:196 | text without `[` is left alone |
| Patterns.InsertWbr | SciDocx2WebConversion.py:132 | each slash adds exactly five characters |
| Patterns.RemoveInsertWbr | SciDocx2WebConversion.py:132 | removing the `<wbr>` after each slash gives the original text back |
| Patterns.InsertWbrAfterEverySlash | SciDocx2WebConversion.py:132 | every slash of the result is followed by `<wbr>` |
| Footnotes.CreateFootnotesList | SciDocx2WebConversion.py:86-106 | one entry per footnote, none longer than before, and with abbreviation on no entry holds a tag |
| Footnotes.CleanLabelledNote | SciDocx2WebConversion.py:99-104 | a docx2python note `footnoteN)\t body` whose body holds no tag or newline comes out as `body` |
| Footnotes.CreateFootnotesListOfNotes | SciDocx2WebConversion.py:99-104 | a list of such notes comes out as the list of their bodies |
| Footnotes.AbbreviateNote | SciDocx2WebConversion.py:121-122 | a text longer than the limit keeps its first `limit` characters followed by `[...]`, and a shorter one is unchanged |
| Footnotes.AbbreviateFootnotes | SciDocx2WebConversion.py:108-126 | a digit threshold K cuts every longer entry to K characters plus `[...]` and leaves the rest; any other non-empty threshold gives the warning and changes nothing |
| Footnotes.AbbreviateFootnotesIdempotent | SciDocx2WebConversion.py:117-124 | abbreviating a second time changes nothing |
| Footnotes.AddWbrFootnotes | SciDocx2WebConversion.py:128-134 | one entry per footnote, each five characters longer per slash |
| Footnotes.AddWbrFootnotesReversible | SciDocx2WebConversion.py:131-132 | removing the `<wbr>` tags gives the list back, and every slash is followed by `<wbr>` |
| Tooltips.Tip | SciDocx2WebConversion.py:143-159 | the counter advances by the number of reference superscripts in the subtree |
| Tooltips.InsertFootnotes | SciDocx2WebConversion.py:136-161 | with tooltips off the tree is unchanged; the root itself never changes |
| Tooltips.TipIsTree | SciDocx2WebConversion.py:145-159 | the insertion raises IndexError exactly when the footnote list is too short for the references it finds, and otherwise builds the tipped tree |
| Tooltips.InsertFootnotesOk | SciDocx2WebConversion.py:143-159 | the same for the whole document, with the counter starting at 1 |
| Tooltips.ReadIsSlice | SciDocx2WebConversion.py:153 | the texts read for `count` references starting after counter k are the list slice from k + 1 |
| Tooltips.InsertFootnotesUndone | SciDocx2WebConversion.py:154-158 | taking every tooltip apart again gives the original document back |
| Tooltips.InsertFootnotesTexts | SciDocx2WebConversion.py:144-159 | the tooltip texts, in document order, are the footnote entries from index 2 on, one per reference superscript |
| Tooltips.TipKeepsUntipped | SciDocx2WebConversion.py:145 | a subtree that is not a reference superscript does not become a tooltip holder |
| Rewrite.RunSpec | SciDocx2WebConversion.py:230-234 | a counted loop over the nodes an XPath query picks, in document order, succeeds exactly when every step succeeds; it then keeps the shape and rewrites the i-th node as the step for its position and count says; a failure is the first failing step's error |
| Rewrite.RankGrows | SciDocx2WebConversion.py:231-234 | the counter at a later picked node is larger |
| Rewrite.RankNth | SciDocx2WebConversion.py:231-234 | every counter value below the final count is reached at some picked node |
| Headings.WithId | SciDocx2WebConversion.py:233 | the heading's `id` becomes `headingK` and every other attribute is kept |
| Headings.HeadingIdInjective | SciDocx2WebConversion.py:233 | different counters give different ids |
| Headings.AddHeadIds | SciDocx2WebConversion.py:224-236 | off: unchanged; on: the shape is kept and the i-th `h1` in document order gets id `heading` i, nothing else changes |
| Headings.HeadIdsDistinct | SciDocx2WebConversion.py:230-234 | two different headings get different ids |
| Headings.FindInLabels | SciDocx2WebConversion.py:232 | `//h1` finds exactly the `h1` nodes, in document order |
| Headings.FoundHeadingsNumbered | SciDocx2WebConversion.py:230-234 | the k-th heading found after the pass carries id `heading` k + 1 |
| Headings.NavItem | SciDocx2WebConversion.py:250-256 | a `p` or `button` holding one link to `#headingK` whose text is the heading's full `itertext()` text: every text and tail below it, a comment giving only its tail |
| Headings.CreateNavigation | SciDocx2WebConversion.py:238-265 | off: the grid is unchanged; on: the grid gains the comment, the title and the navigation (in that order), and the navigation gains one item per heading linking to `#heading` k |
| Headings.NavigationLinksResolve | SciDocx2WebConversion.py:224-265 | after `add_Head_IDs`, the k-th navigation link points at the id of the k-th heading |
| Cleanup.ClearMarked | SciDocx2WebConversion.py:270-277 | a parent of a marked anchor loses all its children and takes the last child's tail as its text, keeping tag, attributes and tail; any other node keeps its own label and number of children; a comment stays a comment |
| Cleanup.ClearMarkedAt | SciDocx2WebConversion.py:270-277 | a node survives exactly when no found parent lies on the path above it; a survivor keeps its label, except that a found parent is cleared |
| Cleanup.ClearMarkedLeavesNone | SciDocx2WebConversion.py:270-277 | afterwards no node has a marked anchor child |
| Cleanup.ClearMarkedKeepsNoMarked | SciDocx2WebConversion.py:279-286 | clearing one kind of anchor does not create parents of the other kind |
| Cleanup.ClearMarkedUnchanged | SciDocx2WebConversion.py:270-277 | the tree is unchanged exactly when no node has a marked anchor child |
| Cleanup.RemoveTocAndHeadLeavesNone | SciDocx2WebConversion.py:267-288 | afterwards no node has a `_Toc` or `_heading` anchor as a child |
| Cleanup.MoveTableCaption | SciDocx2WebConversion.py:310-317 | moving captions keeps every node: the labels are the same multiset |
| Cleanup.MoveTableCaptionOk | SciDocx2WebConversion.py:313-315 | the pass fails (AttributeError on `None.tag`) exactly when the root or some first child is a caption |
| Cleanup.MoveTableCaptionPlaces | SciDocx2WebConversion.py:313-315 | afterwards no caption directly follows a table |
| Cleanup.CaptionJoinsTable | SciDocx2WebConversion.py:313-315 | a caption directly after a table becomes the table's first child, and the walk goes on after the table |
| Cleanup.CaptionsJoinTable | SciDocx2WebConversion.py:313-315 | several captions after one table all become its first children, in reverse order |
| Cleanup.MoveUnchanged | SciDocx2WebConversion.py:313-315 | without captions the tree is unchanged |
| Cleanup.FootnotesBottomSeparate | SciDocx2WebConversion.py:200-212 | without the first footnote item the tree is unchanged; the pass fails exactly when the root holds the list |
| Cleanup.SeekAbsent | SciDocx2WebConversion.py:204 | the search finds nothing exactly when no node below the root is the first footnote item |
| Cleanup.FootnotesBottomSeparateFails | SciDocx2WebConversion.py:204-210 | failure happens exactly when the first footnote item in document order is a child of the root |
| Cleanup.FootnotesBottomSeparatePlaced | SciDocx2WebConversion.py:204-210 | otherwise the result holds every node of the original, in order, with comment, rule and break inserted once; they become the siblings just before the list's holder, found by its index path, which is the parent of the first `footnote-1` item in document order |
| Adjust.StripMarkers | SciDocx2WebConversion.py:193-196 | fails exactly when some reference anchor has no text; otherwise the shape is kept and every anchor's text loses its brackets |
| Adjust.StripMarkersOfMarker | SciDocx2WebConversion.py:194-196 | an anchor with text `[d]` ends with text `d` |
| Adjust.LiftSize | SciDocx2WebConversion.py:176-179 | one run removes exactly one node per dissolved superscript |
| Adjust.LiftCounts | SciDocx2WebConversion.py:176-179 | a run keeps every node that is not a superscript |
| Adjust.LiftAll | SciDocx2WebConversion.py:175-179 | the while loop ends with no superscript around a tooltip left and the root kept, or fails because the root was to be removed |
| Adjust.LiftAllCounts | SciDocx2WebConversion.py:175-179 | the whole loop keeps every node that is not a superscript |
| Adjust.Wrap | SciDocx2WebConversion.py:182-191 | fails exactly when some anchor has no text; each anchor gets the empty text and one child `sup` holding the unbracketed number and its old children |
| Adjust.WrapWrapsAll | SciDocx2WebConversion.py:182-191 | afterwards every reference anchor is wrapped that way |
| Adjust.UnwrapWrap | SciDocx2WebConversion.py:182-196 | taking the new `sup` apart again gives what the tooltips-off branch gives, with the same error condition |
| Adjust.AdjustFootnotes | SciDocx2WebConversion.py:163-198 | off: the marker loop; on: lifting, then wrapping; the only errors are a missing text and a root to remove |
| Adjust.AdjustWithTooltips | SciDocx2WebConversion.py:173-191 | with tooltips on, every anchor holds one superscript carrying what the tooltips-off branch would have left in it |
| Adjust.TooltipReferenceAdjusted | SciDocx2WebConversion.py:136-191 | a paragraph holding `<sup><a id="footnote-ref…">[d]</a></sup>` ends as a tooltip span holding `<a><sup>d</sup></a>` and the third footnote's text |
| Numbering.FirstSupRefList | SciDocx2WebConversion.py:294-295 | what the citation query finds is a reference anchor |
| Numbering.CiteOf | SciDocx2WebConversion.py:294-296 | no anchor: no citation; a citation found is one of the footnote entries |
| Numbering.CiteOfNumber | SciDocx2WebConversion.py:295-296 | an anchor reading N cites entry N + 1, or fails with IndexError past the list's end |
| Numbering.Cited | SciDocx2WebConversion.py:297 | the `cite` attribute becomes the citation and every other attribute is kept |
| Numbering.AddCite | SciDocx2WebConversion.py:290-299 | succeeds exactly when every blockquote's citation resolves; it then keeps the shape, sets the citation of each blockquote and changes nothing else |
| Numbering.NumberedText | SciDocx2WebConversion.py:326-330 | the text starts with `[K] ` followed by the old text, or by nothing when there was none |
| Numbering.NumberPrefixInjective | SciDocx2WebConversion.py:327 | the prefix fixes the number |
| Numbering.ParagraphNumbering | SciDocx2WebConversion.py:319-333 | off: unchanged; on: the shape is kept and the i-th numbered node in document order gets number 1 + the count of numbered nodes before it, others unchanged |
| Numbering.NumbersIncrease | SciDocx2WebConversion.py:323-331 | a later numbered node carries a larger number |
| Numbering.NumbersWithoutGaps | SciDocx2WebConversion.py:323-331 | every number from 1 to the count is used |
| StyleMap.StyleMapFunc | SciDocx2WebConversion.py:36-59 | the custom map comes first, and nothing is added exactly when every field is empty (the unnumbered style only counting with numbering on) |
| StyleMap.StyleMapRules | SciDocx2WebConversion.py:46-57 | the result is the custom map followed by the rules of the non-empty fields, in field order, separated by newlines |
| StyleMap.StyleMapIgnoresUnnumberedWhenOff | SciDocx2WebConversion.py:56-57 | with numbering off the unnumbered style has no effect |
| StyleMap.StyleMapHeadingsOnly | SciDocx2WebConversion.py:46-47 | with only a heading style the map gains exactly its `h1:fresh` rule |
| Skeleton.Opening | SciDocx2WebConversion.py:70-80 | a body-only opening is the body and grid openings alone; a full page's opening starts with `<html><head>`, declares the UTF-8 charset and ends with `</head>` and the body openings; it holds a title element exactly for a full page with a non-empty title |
| Skeleton.EncloseBody | SciDocx2WebConversion.py:62-80 | the input is placed unchanged between that opening and the closing markup |
| Skeleton.EnclosedInputOfEncloseBody | SciDocx2WebConversion.py:70-80 | the input can be read back from the enclosed text |
| Skeleton.EncloseBodyInjective | SciDocx2WebConversion.py:70-80 | different inputs give different pages |
| Skeleton.InsertFirstAt | SciDocx2WebConversion.py:350-356 | `insert(0, x)` at an index path succeeds exactly when the path leads to an element, and `x` becomes its first child ahead of the old ones |
| Skeleton.DropFirstAtInsertFirstAt | SciDocx2WebConversion.py:350-356 | the insertion changes nothing but the one child list |
| Skeleton.Assemble | SciDocx2WebConversion.py:347-356 | fails exactly when a switched-on insertion finds no element at its index path; the stylesheet ends first below the root's first child; the navigation ends first in the grid container of a full page, and in a body-only page first or, after the stylesheet, second; removing both again gives the tree back |
| Skeleton.AssembleSkeleton | SciDocx2WebConversion.py:347-356 | on the skeleton `enclose_body` builds, assembly never fails and puts the stylesheet and navigation exactly where stated |
| Skeleton.ExportText | SciDocx2WebConversion.py:358-362 | a full page is the doctype line followed by the serialised tree; a body-only export is the serialised tree alone |

## Left out

- Reading and writing files, the `unescape` of the written text, and the
  Tk `messagebox`: I/O. The warning is the `warned` flag of
  `Footnotes.AbbreviateFootnotes`.
- Parsing markup into a tree and serialising it (`etree.fromstring`,
  `etree.tostring`): the model starts from and ends at the tree.
  `Skeleton.SkeletonTree` states the tree the skeleton markup parses to;
  `Skeleton.ExportText` takes the serialised text as a parameter.
- mammoth, docx2python and the user interface: external code. The
  configuration values are parameters.
- Python's regular-expression engine in general: only the six patterns the
  passes use are modelled, each as its own scanner.
- Unicode digits: `str.isdigit()` (SciDocx2WebConversion.py:118) and the
  regular expression `\d` (line 104) accept digits beyond ASCII, and
  `int()` also accepts whitespace and underscores. The model reads only
  ASCII digits with an optional sign. For a text such as `²`, which
  `isdigit()` accepts and `int()` rejects with ValueError, the model gives
  the warning instead of the error.
- `add_wbr_text` and `file_insertion_message`: defined in the module but
  outside the modelled passes. Page-number insertion is not part of this
  model.
- `add_cite`'s XPath parameter: fixed to the path the user interface passes,
  `.//sup/a[contains(@id, "footnote-ref")]`.
- Numbering.CiteOf: a negative footnote number is read with Python's
  wrap-around indexing, as the code does, and no range is promised for it.
- Adjust.LiftAll: the loop's termination is proved by the document size,
  which each run lowers; nothing is said about how many runs it takes.
- Headings.CreateNavigation: `findH1` comes from `findall('.//h1')`
  (SciDocx2WebUI.py:702), which returns a list, so the `findH1 != None`
  test is always true and only the enabled flag selects the branch.
- Headings.NavigationLinksResolve: relates `add_Head_IDs` directly to the
  heading search. The user interface runs `remove_toc_and_head` between the
  two (SciDocx2WebUI.py:696-702). That pass can remove a heading that is a
  sibling of a `_Toc` or `_heading` anchor (`Cleanup.ClearMarkedAt` says
  which nodes go). The links then count past the removed heading, so the
  lemma is not stated for the composed passes.

## Behaviour worth knowing

- **Abbreviation marker.** An abbreviated footnote keeps K characters and
  gains `[...]`, so it is K + 5 characters long
  (SciDocx2WebConversion.py:122).
- **Footnote index offset.** `insert_footnotes` gives the n-th reference
  (from 1) the entry at index n + 1 (line 153). `add_cite` gives the number
  N the entry at index N + 1 (line 296).
- **No ARIA attributes.** The tooltip spans get no description link; ARIA
  support is an open item in the module's to-do list (line 30).
- **Superscript text lost.** Dissolving a superscript around a tooltip
  moves only its children (lines 177-179). The superscript's own text and
  its tail go with it.
- **Children reversed.** Each `addnext` puts its child directly after the
  superscript (line 178), so the children end up in reverse order.
- **Captions reversed.** Each caption is inserted at index 0 of the table
  before it (line 315), so several captions after one table end up in
  reverse order.
