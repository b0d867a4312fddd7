# Plazma browser: HTML element tree builder and inspector, in Dafny

This project models the core of the Plazma browser's HTML front end. That
core is the recursive walk that turns a parsed document into a tree of
styled `Element`s, and the developer-tools inspector that flattens the tree
into rows. The walk does four things for every tag child:

- It stamps the `tag`, `text` and `html` attributes onto the child.
- It builds the child's style map: inheritance, the font-size bookkeeping
  keys, the flags of formatting tags, the forced pixel font size, and the
  inline `style` declarations.
- It wraps the bare text runs of text-bearing tags in
  `<browser_text>…</browser_text>` and re-parses the result.
- It creates one element and recurses into the child.

A cancellation flag is read at the top of every recursive call and once
more after the walk.

Files:

- `common.dfy`: `Option`, Python's `dict.get` and `replace('\n', '')`.
- `segmenter.dfy`: the text-run splice loop.
  - `SegmentAsWritten` is the literal model: positions found up front,
    offsets of 14 and 15, Python slicing, and an `IndexError` shown as
    `None`.
  - On markup whose `<` and `>` alternate, it is proved equal to an
    independent gap-by-gap rewrite, `Segmented`. On other markup the loop
    can raise.
  - On markup whose brackets alternate and that holds neither marker,
    deleting the markers from its output gives back the input.
  - On markup whose brackets alternate, a second pass changes nothing.
- `styles.dfy`: the style map of one child.
  - `Overlay` applies the inline declarations. It is proved against a
    last-declaration-wins reference, `LastFor`.
  - Python's `str(int)` is modelled together with a reader, and the two are
    proved to round-trip. Its output is canonical (no leading zero, no
    `-0`), and no other canonical text reads back as the same number.
- `builder.dfy`: the walk itself.
  - `MakeChild` handles one child. `Visit` and `VisitChildren` are the
    recursion, and `ParseHtml` is the document.
  - They are compared with a reference list of one element per tag child
    (`Heads`), and with the walk that never sees the flag.
- `inspector.dfy`: the inspector.
  - `IterativeDfs` is the explicit-stack traversal. It is proved equal to
    the recursive pre-order.
  - `LoadElementTree` is the row layout.

These parts are parameters of `Builder.Env`, because the model does not
contain them:

- the markup library: the document parser, the fragment parser and
  `str(tag)`;
- the CSS parser;
- `remove_units`;
- the text renderer;
- the text-tag table and the font-size table.

The library's `.text` is not a parameter; `Builder.TagText` defines it.
Nodes carry the string kinds the HTML builders of the markup library use:

- `Text`: a run of text (CDATA included).
- `Special`: a comment, doctype, declaration or processing instruction.
- `Contained`: a string inside `rt`, `rp`, `style`, `script` or
  `template`, marked with the innermost such tag around it.

An ordinary tag's `.text` is its `Text` strings in document order. A
container tag's `.text` is only the strings of its own kind. So in
`<p>Hi<script>x</script></p>` the paragraph reads `Hi` and the script reads
`x`. The walk skips every string, and `str(tag)` prints them all.

The cancellation flag is a schedule, `Stop`. Either it never turns on, or
it is first seen at the n-th read.

Elements, nodes and style maps are immutable values. So the parent's style
map is never changed by computing a child's, and the traversal changes no
element, without a lemma to say so.

In these places a reader might expect other behaviour than the code's. The
model follows the code:

- Cancellation. The flag is read only at the top of a call. A call that
  sees the flag returns at once, but the loop of the call above it keeps
  going. That loop still appends one childless element for every remaining
  tag child, as `Builder.CancelledLoopKeepsAppending` shows. The parse as a
  whole still gives "no result", because of the final read.
- `font-family`. The first family is `value.split(',')[0]`, with no
  trimming.
- Placeholder rectangles. A non-text element gets the Python set literals
  `{0, 0, width, height}` and `{0, 0, 0, 0}` rather than rectangles.
- The re-parsed node. After segmenting, the node recursed into is whatever
  the fragment parser returns, with its own name and attributes, and it is
  stamped again.

## Model

| member | source | states |
|---|---|---|
| Common.Get | Engine/html_parser.py:50-51 | `dict.get`: the stored value when the key is present, the default otherwise |
| Common.DropNewlines | Engine/html_parser.py:37-38 | the result holds no newline and is no longer than the input. A single newline becomes empty and any other single character is kept. Input without a newline is returned unchanged |
| Common.DropNewlinesAppend | Engine/html_parser.py:37-38 | dropping newlines from a concatenation is the concatenation of the pieces' results. With the one-character case, every character other than a newline is kept, in order |
| Segmenter.PositionsExact | Engine/html_parser.py:71-72 | the positions `finditer` reports for one character increase strictly and include every occurrence of that character |
| Segmenter.WellBracketedMeans | Engine/html_parser.py:71-72 | the splice loop's precondition holds exactly when there are as many `<` as `>`, the i-th `<` comes before the i-th `>`, and every `>` comes before every later `<` |
| Segmenter.SegmentWrapsGaps | Engine/html_parser.py:71-84 | on well-bracketed markup the splice loop never raises; it wraps exactly the non-empty gaps between consecutive tags (text before the first tag and after the last is untouched), and the markup grows by 29 characters per wrapped gap |
| Segmenter.StripUndoesSegment | Engine/html_parser.py:76-84 | on markup whose brackets alternate and that holds neither marker, the loop does not raise, and deleting the two markers from its output gives back the original markup |
| Segmenter.SegmentIsIdempotent | Engine/html_parser.py:69-84 | on markup whose brackets alternate, the first pass does not raise, and on its output a second pass either is skipped by the `<browser_text>` guard or returns the markup unchanged |
| Segmenter.Contains | Engine/html_parser.py:70 | Python's `sub in s`. `ContainsMeans` proves it holds exactly when `sub` occurs at some index of `s` |
| Segmenter.ContainsMeans | Engine/html_parser.py:70 | `sub in s` holds exactly when `sub` occurs in `s` starting at some index |
| Segmenter.SegmentAsWritten | Engine/html_parser.py:71-84 | the splice loop as written, `None` standing for `IndexError`. `Splice` runs the iterations from the i-th `>` on, and `SpliceAt` is one iteration: offsets 14 and 15, clamped slices, and the indexing that can raise. Its properties are stated by `SegmentWrapsGaps`, `StripUndoesSegment`, `SegmentIsIdempotent` and `PreParseOnBracketed` |
| Segmenter.ContainsInPrefix | Engine/html_parser.py:70 | text that contains the marker still contains it after more text is appended |
| Styles.TagSize | Engine/html_parser.py:50 | the table's font size for the tag, or 16 when the tag is missing |
| Styles.Inherit | Engine/html_parser.py:47-51 | a copy of the parent's styles plus `text-tag-size` (the child's table size) and `parent-tag-size` (the parent's `text-tag-size`, or 16); every other key keeps the parent's value |
| Styles.ShorthandFlag | Engine/html_parser.py:53-55 | `italic` exactly for `i`, `bold` exactly for `b` and `strong`, `underline` exactly for `u`, and no flag for any other tag |
| Styles.Shorthand | Engine/html_parser.py:53-55 | a formatting tag adds its flag set to true; no other key changes, and other tags change nothing |
| Styles.DecimalRoundTrip | Engine/html_parser.py:99 | reading back the decimal text of any int gives that int |
| Styles.Decimal | Engine/html_parser.py:99 | `str(int)` is canonical: digits with no leading zero, after a minus sign only for a negative number |
| Styles.CanonicalRoundTrip | Engine/html_parser.py:99 | every canonical text reads back as a number whose `str` is that text |
| Styles.CanonicalUnique | Engine/html_parser.py:99 | two canonical texts that read back as the same number are equal, so `str(n)` is the only canonical text for `n` |
| Styles.PixelSize | Engine/html_parser.py:99 | the forced font size ends in `px`, and what precedes `px` is canonical and reads back as the tag's table size. So it is exactly `str(size)` followed by `px` |
| Styles.ForceFontSize | Engine/html_parser.py:99 | `font-size` becomes the pixel size; no other key changes |
| Styles.FirstFamily | Engine/html_parser.py:110-111 | a prefix of the value with no comma, ended by the first comma when there is one |
| Styles.LastForCons | Engine/html_parser.py:108-113 | the last declaration for a key, over a first declaration and the rest, is the rest's last one if there is one, else the first one's |
| Styles.Overlay | Engine/html_parser.py:103-113 | every key holds the value of the last declaration for that key (`font-family` is stored under `font`), or the previous value when no declaration names it |
| Styles.ChildStyles | Engine/html_parser.py:47-113 | a child's style map, built in the source's order: inherit, formatting flag, forced pixel size, inline declarations. Its properties are stated by `ChildInherits`, `ChildHasSizeKeys` and, step by step, by `Inherit`, `Shorthand`, `ForceFontSize` and `Overlay` |
| Styles.ChildInherits | Engine/html_parser.py:47-113 | a parent key is copied unchanged into the child's styles when the child does not compute or declare it |
| Styles.ChildHasSizeKeys | Engine/html_parser.py:47-51 | every child's styles hold `text-tag-size` and `parent-tag-size` |
| Builder.Stamp | Engine/html_parser.py:36-38 | the stamped node keeps its name and children, and sets `tag` to the name and `text` to the text without newlines. It also sets `html` to the serialization of the node with `tag` and `text` already set, newlines dropped. Every other attribute is kept |
| Builder.KindOf | Engine/html_parser.py:37 | a tag's `.text` reads strings of its own kind exactly when the tag is `rt`, `rp`, `style`, `script` or `template`, and plain text otherwise |
| Builder.TagText | Engine/html_parser.py:37 | `.text` of a tag, read at lines 37 and 69: the strings of the tag's kind below it, in document order. Its properties are stated by `SpecialsHaveNoText`, `TextSkipsSpecial`, `ContainerTextIsOwn` and `ScriptTextExample` |
| Builder.SpecialsHaveNoText | Engine/html_parser.py:37 | children that are all comments or other special strings give no strings of any kind |
| Builder.TextSkipsSpecial | Engine/html_parser.py:37 | removing a comment or other special string from anywhere among the children leaves the strings of every kind unchanged |
| Builder.ContainerTextIsOwn | Engine/html_parser.py:37 | a container tag holding strings of its own kind reads them, so its `.text` is empty exactly when they all are, and an ordinary tag around it reads none of them |
| Builder.ScriptTextExample | Engine/html_parser.py:37 | in `<p>Hi<script>x</script></p>` the paragraph's `.text` is `Hi` and the script's is `x` |
| Builder.SpecialsOnlyDoNotSegment | Engine/html_parser.py:69 | a text tag that holds only comments or other special strings has empty text, so it is not segmented |
| Builder.ContainerOnlyDoesNotSegment | Engine/html_parser.py:69 | an ordinary text tag whose only child is a script, style sheet, template or ruby text holding its own strings is not segmented |
| Builder.StampKeeps | Engine/html_parser.py:62-63 | looking up any attribute other than `tag`, `text` and `html` (so `width` and `height`) gives the same value before and after stamping |
| Builder.Reparsed | Engine/html_parser.py:87-91 | the fragment parser's object for the segmented markup, with `tag`, `text` and `html` stamped onto it again |
| Builder.InlineDeclarations | Engine/html_parser.py:103-106 | no declarations without a `style` attribute; otherwise the CSS parser's declarations for the tag's name and style text, in order |
| Builder.PreParse | Engine/html_parser.py:65-99 | the splice loop raises exactly for a non-empty text tag without a marker whose loop fails. Otherwise such a tag is replaced by the stamped re-parse of the spliced markup. The pixel size is forced exactly when a non-empty text tag already holds a marker, and then the node is kept. Other tags are kept as they are |
| Builder.PreParseOnBracketed | Engine/html_parser.py:69-91 | pre-parsing never raises on well-bracketed markup |
| Builder.ForceMeans | Engine/html_parser.py:69-99 | stamping does not change whether a child is a non-empty text tag. After stamping, pre-parsing forces the pixel size exactly for a non-empty text tag whose stamped markup holds a marker |
| Builder.Placeholder | Engine/html_parser.py:132 | the placeholder is the set of 0, the container width and the container height |
| Builder.Fresh | Engine/html_parser.py:115-133 | a new element has the node's name and attributes and no children. A `browser_text` element gets the renderer's two rectangles; any other gets the placeholder and `{0}` |
| Builder.MakeChild | Engine/html_parser.py:34-133 | the child fails exactly when it is a non-empty text tag without a marker whose splice loop raises. Otherwise the node recursed into is one of two things. For such a tag it is the stamped re-parse of the spliced stamped markup. For any other tag it is the stamped child itself. The appended element has that node's name and attributes and no children. Its width and height come from the original attributes through the unit resolver. It has measured rectangles exactly for `browser_text`, and the styles computed from the parent, the tag, the forced size and the node's inline declarations. The only failure is the splice loop's |
| Builder.Visit | Engine/html_parser.py:31-32 | one call of `recurse_tag_children`: it reads the flag once and returns at once when the flag is seen, otherwise runs the loop over the children; each successful call makes at least one more read. Its properties are stated by `OneElementPerTag`, `VisitSized`, `VisitUnderFlag` and `ParseUnderFlag` |
| Builder.VisitChildren | Engine/html_parser.py:34-134 | the loop over the children: strings are skipped, and each tag child is prepared by `MakeChild`, appended, and recursed into before the next child. Its properties are stated by `OneElementPerTag`, `VisitChildrenSized`, `CancelledLoopKeepsAppending` and `ChildrenUnderFlag` |
| Builder.RootElement | Engine/html_parser.py:139-145 | the root element: the first tag's name and attributes, with the two viewport styles |
| Builder.RootWalk | Engine/html_parser.py:137-147 | the document parse, the first tag, and the walk below it; no tag at all is a failure |
| Builder.ParseHtml | Engine/html_parser.py:137-152 | the document, or "no result" when the final read sees the flag. Its properties are stated by `ParseUnderFlag`, `CancelledBeforeStart` and `ParseWithoutFlag` |
| Builder.FirstTagAt | Engine/html_parser.py:140 | the index of the first tag among the top-level nodes, or the length when there is none |
| Builder.Heads | Engine/html_parser.py:34-133 | the reference list has one element per tag child |
| Builder.OneElementPerTag | Engine/html_parser.py:34-135 | the loop appends one element per tag child, in order, and those elements without their children are the reference list |
| Builder.VisitChildrenSized | Engine/html_parser.py:31-135 | every element the walk appends, at any depth, holds `text-tag-size` and `parent-tag-size` |
| Builder.CancelledLoopKeepsAppending | Engine/html_parser.py:31-35 | once the flag has been seen, each remaining tag child still gets its childless reference element, and each one costs one more read of the flag |
| Builder.ChildrenUnderFlag | Engine/html_parser.py:31-135 | with the flag raised before the n-th read, the loop agrees with the unflagged loop when that loop makes at most n reads; otherwise the loop makes its n-th read. It never fails where the unflagged loop succeeds |
| Builder.ParseUnderFlag | Engine/html_parser.py:137-148 | the flagged parse gives "no result" exactly when the unflagged walk reaches the flag's read, and gives the unflagged document otherwise |
| Builder.CancelledBeforeStart | Engine/html_parser.py:147-148 | a flag raised before parsing starts always gives "no result" |
| Builder.ParseWithoutFlag | Engine/html_parser.py:137-152 | a successful walk without the flag gives a document. Its root has the first tag's name and attributes and exactly the two viewport styles, and every element below it is sized |
| Inspector.PreOrder | devtools.py:65-75 | the pre-order of a tree starts with its root |
| Inspector.ReverseTwice | devtools.py:75 | reversing twice gives the list back |
| Inspector.DfsStep | devtools.py:70-75 | popping an element, yielding it and pushing its children in reverse keeps yielded-plus-pending unchanged |
| Inspector.IterativeDfs | devtools.py:65-75 | the explicit-stack traversal yields exactly the recursive pre-order: the root first, and every element of the tree once |
| Inspector.PreOrderCountsNodes | devtools.py:65-75 | the pre-order has as many entries as the tree has elements |
| Inspector.LoadElementTree | devtools.py:77-85 | the k-th visited element gets the row at y = 20k, 20 high, indented by 10 per level of its depth field, as wide as the window less the indent, with caption `<tag>`; so each row lies wholly below the rows visited before it |

## Left out

- The markup library, the CSS parser, `remove_units` and the text
  renderer are function fields of `Builder.Env`. Their results are taken
  as given.
- The `br` and line-feed adjustments (Engine/html_parser.py:56-60 and
  94-97) are left out. Lines 58 and 95 grow the height of the parent's
  rectangle, an element already in the output tree, whenever that
  rectangle is a real rectangle. The model never changes an element after
  it has been appended.
- The text renderer's layout state is not modelled. Lines 60 and 97 call
  the renderer on a line feed only to move it on, and each measurement
  moves it too. So the rectangles a later `browser_text` element gets
  depend on everything rendered before it. In the model, `measure` is a
  function of the text and the styles alone.
- The window caption set for `title` (line 41) is left out. It is a side
  effect on the window.
- The debug overlay of text rectangles (lines 118-127) is left out. It is
  drawing.
- Builder.Visit: Python's recursion limit is modelled by a `frames` budget.
  The walk fails with `RecursionLimit` when the budget runs out, because a
  re-parsed child is not structurally smaller than the node it came from.
- Builder.RootElement: the `Element` class is not part of this model. The
  root's rectangles are `Unset`, and its styles hold only the two viewport
  keys, as the constructor's defaults are assumed to give.
- Attribute order is not modelled. Attributes are a map, so `str(tag)`
  cannot follow the order in which they were written or set. The
  serializer is a field of `Builder.Env` that sees only the map.
- Builder.TagText follows the string containers of the markup library's
  HTML builders (versions 4.10 and later). A parser configured with other
  string containers, or an older library version, is not modelled.
- Attribute values are strings. The integer default of `get("width", 0)`
  becomes `"0"` after `str`. The markup library stores multi-valued
  attributes such as `class` and `rel` as lists; the model keeps their
  text as given, and the serializer and the CSS parser are fields of
  `Builder.Env` either way.
- Inspector.IterativeDfs: the `root is None` branch is left out, because
  elements in the model are never absent. The generator is modelled as the
  sequence of values it yields.
- Inspector.LoadElementTree: each element's `depth` field is kept by the
  `Element` class, which is not part of this model. So the depths come in
  as a list, one entry per visited element in visiting order. The model
  does not promise that they are the elements' nesting depths. The caption
  is the `<tag>` string rather than a rendered surface.
- The inspector's rendering and event loop (devtools.py after line 85) are
  left out.
- Cancellation is modelled as the index of the first flag read that sees
  the flag. Another thread setting the flag is not modelled.
