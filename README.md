# ParsedownExtra, modelled in Dafny

ParsedownExtra extends the Parsedown Markdown-to-HTML engine with several features:

- footnotes (`[^label]: text` definitions and `[^label]` markers);
- abbreviations (`*[term]: meaning`);
- definition lists (`:` lines under a paragraph);
- tables whose empty cells widen their neighbours through `colspan`;
- fenced figures with captions;
- blockquotes with an attribute annotation;
- `{#id .class}` annotations on headings, links, blockquotes and figures.

This project models the extension's own logic and proves properties of it. The base engine is not part of this model. Its calls are parameters of the modelled operations:

- the heading and link it builds (`parent::blockHeader`, `parent::blockSetextHeader`, `parent::inlineLink`);
- its renderers (`parent::text`, `line`);
- the order in which it hands lines and excerpts to the extension.

Files, one module each:

| file | module | models |
|---|---|---|
| options.dfy | Options | `Option`, for PHP's `null` and unset keys |
| strings.dfy | Strings | `trim`, `substr`, `explode`/`implode`, `preg_split('/[ ]+/')`, integer-to-string |
| lines.dfy | Lines | the line record; the `[^label]:`, `*[term]:` and `[^label]` patterns |
| attributes.dfy | Attributes | the `{#id .class}` fragment grammar and `parseAttributeData` |
| registry.dfy | Registry | the footnote/abbreviation registry and its counter, as values and transitions |
| extra.dfy | Extra | the parser object: a class whose fields are the registry, with methods specified by the transitions |
| footnote_block.dfy | FootnoteBlocks | the footnote definition block |
| footnotes.dfy | Footnotes | the footnote section (`buildFootnoteElement`, `sortFootnotes`) |
| definition_list.dfy | DefinitionLists | definition lists |
| blockquote.dfy | Blockquotes | blockquotes |
| figure.dfy | Figures | fenced figures |
| table.dfy | Tables | table body rows and their `colspan` |
| headers.dfy | Headers | annotations on atx and setext headings and on links |

The model keeps several behaviours of the code exactly as written:

- `footnoteCount` is never reset between documents.
- A footnote block never clears `interrupted`.
- Blockquote continuation reads the line's `body`, indentation included.
- A figure fence that has only `{attrs}` gets the empty caption.
- A table row is split on every `|`. A cell of spaces only is not empty, so it yields an empty `td`.
- The running `colspan` is not reset after it widens an earlier `td`, so `a||b` gives both cells `colspan` 2.
- `range(1, 0)` is `[1, 0]`.
- PHP's `+=` on arrays keeps the keys already present.

A string is a sequence of bytes, as in PHP: a character of the model is one byte of the line. Offsets and extents, such as a footnote marker's, count bytes as `strlen` does, so a non-ASCII label is as long as its UTF-8 encoding. The name characters of an attribute fragment are the ASCII letters, digits, `_` and `-`, as `\w` is without the `u` flag.

## Model

| member | source | states |
|---|---|---|
| Lines.FootnoteDefinition | ParsedownExtra.php:89-101 | a match has a non-empty label; the line starts `[^label]:`; no `]:` occurs earlier in the label; the text is the rest of the line, less at most one leading space. Without a match, the line does not start `[^` or has no `]:` after the label's first character |
| Lines.AbbreviationDefinition | ParsedownExtra.php:72-84 | a match has a non-empty term and a non-empty meaning, the line starts `*[term]:`, and the term ends at the first `]:` followed by at least one character; the meaning is the rest of the line without its surrounding spaces, or a single space when the rest is only spaces. Without a match, no such `]:` exists |
| Lines.FootnoteReference | ParsedownExtra.php:261-264 | a marker has a non-empty label; the excerpt starts `[^label]`; the extent is the label's length plus 3; the label holds no `]` after its first character. Without a marker, the excerpt does not start `[^` or has no `]` from position 3 on |
| Lines.FootnoteDefinitionRoundTrip | ParsedownExtra.php:91 | `[^name]: text` reads back as exactly that name and text, for every name without `]` |
| Lines.AbbreviationDefinitionRoundTrip | ParsedownExtra.php:74 | `*[term]:` followed by a meaning padded with any spaces reads back as that term and the unpadded meaning |
| Lines.AbbreviationDefinitionOfBlank | ParsedownExtra.php:74 | `*[term]:` followed by spaces only reads back as that term with the meaning ` ` |
| Lines.FootnoteReferenceRoundTrip | ParsedownExtra.php:263 | `[^name]` at the head of any excerpt reads back as that name, with extent `|name| + 3` |
| Strings.Trim | ParsedownExtra.php:346 | `trim` yields the infix of its input that neither starts nor ends with a trim character, and everything it removes before and after that infix is trim characters |
| Strings.Split | ParsedownExtra.php:154 | `explode` yields at least one part; no part holds the separator; joining the parts back gives the input |
| Strings.SplitOfJoin | ParsedownExtra.php:154 | separator-free parts joined by the separator are split back into the same parts |
| Strings.Words | ParsedownExtra.php:641 | the tokens are non-empty and space-free, and together they hold exactly the non-space characters of the input |
| Strings.WordsOfJoin | ParsedownExtra.php:641 | tokens written out with single spaces are split back into the same tokens |
| Strings.WordsOfSpaced | ParsedownExtra.php:641 | tokens laid out with any runs of spaces between them (at least one) and before and after them split back into exactly those tokens |
| Strings.SpacedWords | ParsedownExtra.php:641 | every string is such a layout of its own tokens, so the tokens are the maximal runs of non-space characters in order |
| Strings.NatToString | ParsedownExtra.php:283 | the decimal text of a number is non-empty, all digits, and has no leading zero |
| Strings.NatToStringRoundTrip | ParsedownExtra.php:405 | reading the decimal text back gives the number, so distinct numbers have distinct texts |
| Attributes.ParseAttributeData | ParsedownExtra.php:637-661 | the token loop computes the attribute map AttributeData defines |
| Attributes.AttributeData | ParsedownExtra.php:637-661 | the only keys are `id` and `class`; the empty string gives the empty map |
| Attributes.DataOf | ParsedownExtra.php:643-658 | `id` is present exactly when the tokens give an id, and `class` exactly when they give a class name |
| Attributes.IdOfAppend | ParsedownExtra.php:645-648 | a later `#` token overrides every earlier one |
| Attributes.ClassesOfAppend | ParsedownExtra.php:649-652 | class names keep the order of their tokens |
| Attributes.IdIsLastHashToken | ParsedownExtra.php:645-648 | the `id` is the suffix of the last `#` token |
| Attributes.NoHashTokenNoId | ParsedownExtra.php:645-648 | without a `#` token there is no `id` |
| Attributes.ClassesOfEmpty | ParsedownExtra.php:655-658 | there are no class names exactly when every token is a `#` token |
| Attributes.IdOfPresent | ParsedownExtra.php:645-648 | there is an `id` exactly when some token is a `#` token |
| Attributes.AttributeDataOfTokens | ParsedownExtra.php:637-661 | for space-free tokens joined by spaces: `id` is present iff a `#` token exists; `class` is present iff a `.` token exists and is their suffixes joined by single spaces in source order |
| Attributes.AttrListChars | ParsedownExtra.php:730 | an attribute fragment holds only name characters, `#`, `.` and spaces, so no braces or brackets |
| Attributes.LeadingAnnotation | ParsedownExtra.php:503 | a recognised `{F}` prefix is literally at the head of the text, and `F` is an attribute fragment |
| Attributes.LeadingAnnotationOf | ParsedownExtra.php:503 | `{F}` followed by anything is recognised as `F`, for every fragment `F` |
| Registry.Refer | ParsedownExtra.php:267-277 | an undefined label changes nothing. A defined label has its count raised by one; on its first reference only, it gets number `footnoteCount + 1` and the counter moves with it. No other definition changes |
| Registry.FootnoteMarker | ParsedownExtra.php:261-295 | no marker exactly when the excerpt is not a marker or its label is undefined, and then the registry is unchanged. Otherwise the registry takes a reference, and the marker has id `fnref<count>:<label>`, href `#fn:<label>` and the label's number |
| Registry.DefinePreservesValid | ParsedownExtra.php:127-136 | a definition keeps numbers distinct, within 1..footnoteCount, and present exactly on referenced footnotes |
| Registry.RedefinitionOverwrites | ParsedownExtra.php:129-133 | a second definition of a label replaces the first, its references forgotten |
| Registry.ReferPreservesValid | ParsedownExtra.php:267-277 | a reference keeps the registry valid: the new number exceeds every number given out |
| Registry.FirstReferences | ParsedownExtra.php:274-277 | the labels listed are defined, referenced, distinct, and include every referenced defined label |
| Registry.ReferAllCounts | ParsedownExtra.php:272 | after any references, a definition's count is its old count plus its occurrences among them |
| Registry.FirstReferenceOrder | ParsedownExtra.php:274-277 | footnotes are numbered footnoteCount+1, +2, ... in order of first reference; undefined labels are ignored; the rest stay unnumbered |
| Registry.DefineAllUnreferenced | ParsedownExtra.php:127-136 | definitions never give a footnote a reference or a number, and define every label they name |
| Registry.ReferAllPreservesValid | ParsedownExtra.php:261-295 | any sequence of references keeps the registry valid |
| Registry.RenderAsWrittenContinues | ParsedownExtra.php:45-63 | as written, a document's footnotes are numbered after the previous document's last number, in first-reference order. The registry stays valid and holds footnotes exactly when the document defines one |
| Registry.RenderNumbersFromOne | ParsedownExtra.php:45-63 | with the counter reset per document, footnotes are numbered 1, 2, 3, ... in first-reference order, whatever the order of their definitions |
| Registry.NumberedByFirstReference | ParsedownExtra.php:274-277 | defining `b` then `a` and referencing `a` then `b` numbers `a` 1 and `b` 2 |
| Registry.RenderSingle | ParsedownExtra.php:276 | a one-footnote document numbers its footnote one past the counter it started from |
| Registry.RenderAsWrittenRenumbers | ParsedownExtra.php:297 | rendering the same document twice with one object numbers its footnote 1, then 2; a reset counter gives 1 both times |
| Extra.ParsedownExtra.constructor | ParsedownExtra.php:297 | a new object has no definitions, and its counter is 0 |
| Extra.ParsedownExtra.BeginDocument | ParsedownExtra.php:47 | the definitions are emptied and the counter is kept |
| Extra.ParsedownExtra.BlockAbbreviation | ParsedownExtra.php:72-84 | a hidden block exactly when the line is an abbreviation definition, which is then registered; otherwise nothing changes; validity is kept |
| Extra.ParsedownExtra.BlockFootnoteComplete | ParsedownExtra.php:127-136 | the label is (re)defined with the block's text and is unreferenced; the block is returned unchanged; validity is kept |
| Extra.ParsedownExtra.InlineFootnoteMarker | ParsedownExtra.php:261-295 | the object's state and the marker are those of the FootnoteMarker transition; validity is kept |
| Extra.ParsedownExtra.BuildFootnoteElement | ParsedownExtra.php:368-429 | every numbered footnote is listed once, by ascending number; each item is its label's `li` with its back-links |
| Extra.ParsedownExtra.Text | ParsedownExtra.php:45-63 | the state after a document is RenderAsWritten of the state before. A section is appended exactly when the document defines a footnote; it lists the referenced footnotes in first-reference order |
| Extra.MarkerNamesOfMarkers | ParsedownExtra.php:263 | excerpts written as `[^name]...` yield exactly their labels as references |
| FootnoteBlocks.BlockFootnote | ParsedownExtra.php:89-101 | a block opens exactly on a definition line, with that line's label and text, and not interrupted |
| FootnoteBlocks.BlockFootnoteContinue | ParsedownExtra.php:103-125 | a definition line never continues the block. Uninterrupted, any other line is appended after `\n`. Interrupted, only a line indented 4 or more is appended, after `\n\n`. The label and flag are unchanged |
| FootnoteBlocks.ContinueAllExtends | ParsedownExtra.php:103-125 | however many lines a block absorbs, its label is kept and its first text is a prefix of its final text |
| FootnoteBlocks.InterruptedIsSticky | ParsedownExtra.php:109-125 | once interrupted, a footnote block stays interrupted |
| Footnotes.RefNumbers | ParsedownExtra.php:399 | `range(1, count)` is 1..count for a positive count, and never empty |
| Footnotes.BackLinks | ParsedownExtra.php:401-408 | the loop and the `substr` produce the back-links separated by single spaces |
| Footnotes.BackLinksPerReference | ParsedownExtra.php:399-408 | a footnote with `count` references gets exactly `count` back-links, to `#fnref1..count:label` in order |
| Footnotes.BackLinksDistinct | ParsedownExtra.php:405 | back-links to different references are different |
| Footnotes.Splice | ParsedownExtra.php:410-419 | the result ends with the links and `</p>`. A text ending `</p>` keeps what preceded that tag and adds `&#160;`; any other text is kept whole and followed by `\n<p>` |
| Footnotes.LabelNumbered | ParsedownExtra.php:386 | finds the footnote carrying a given number, or establishes that none does |
| Footnotes.NumberedLabels | ParsedownExtra.php:386-393 | in a valid registry, the labels are exactly the numbered footnotes, by strictly ascending number |
| Footnotes.BuildFootnoteElement | ParsedownExtra.php:368-429 | the items list every numbered footnote once, by ascending number, each `fn:<label>` with its rendered text spliced with its back-links |
| Footnotes.ListedFootnotesAreReferenced | ParsedownExtra.php:390-393 | a listed footnote has been referenced at least once |
| Footnotes.NumberOrderUnique | ParsedownExtra.php:721-724 | two lists of the same footnotes by ascending number are equal, so the section's order is determined |
| Footnotes.SectionInFirstReferenceOrder | ParsedownExtra.php:368-429 | the section of a rendered document lists its footnotes in the order of their first reference |
| DefinitionLists.AddDd | ParsedownExtra.php:343-366 | the new last `dd` holds the trimmed text after the marker, with handler `text` iff the block was interrupted; the flag is cleared |
| DefinitionLists.BlockDefinitionList | ParsedownExtra.php:141-170 | a list starts exactly when a previous block exists and has no type. Its terms are the block's lines, which joined by `\n` give the block's text back |
| DefinitionLists.BlockDefinitionListContinue | ParsedownExtra.php:172-201 | a `:` line adds a `dd`. An interrupted unindented line ends the list. Any other line is appended to the last `dd` after `\n` (after `\n\n\n` when interrupted, which also switches it to `text`), less min(indent, 4) leading characters |
| DefinitionLists.ContinuationKeepsDeepIndent | ParsedownExtra.php:195-197 | a continuation line loses at most four spaces of indentation |
| DefinitionLists.ContinueAllShape | ParsedownExtra.php:172-201 | continuing a list keeps its terms and earlier `dd`s and adds one `dd` per `:` line |
| DefinitionLists.BlankThenIndentedIsBlockContent | ParsedownExtra.php:182-197 | a blank line then an indented line turns the last `dd` into block content separated by a blank line |
| DefinitionLists.BlankThenUnindentedEnds | ParsedownExtra.php:182-185 | a blank line then an unindented non-`:` line ends the list |
| Blockquotes.BlockQuote | ParsedownExtra.php:501-520 | a quote opens exactly on a `>` line with one first line. After the `>` and at most one space: an annotation `{F}` gives the attributes of `F` and the first line is what follows it, less at most one space; without one the attributes are empty and the first line is the rest, less at most one more space |
| Blockquotes.BlockQuoteContinue | ParsedownExtra.php:522-545 | a `>` line ends the quote iff its content starts with `{` or `(`, else is appended (after an empty line when interrupted); another line is appended only when not interrupted; attributes are kept |
| Blockquotes.QuotedLineContinues | ParsedownExtra.php:524-536 | a `> c` line appends exactly `c` |
| Blockquotes.QuotedLinesRecovered | ParsedownExtra.php:522-545 | contents written as `> c` lines read back as exactly those contents, when none starts with `{` or `(` |
| Blockquotes.OpeningAnnotationRecovered | ParsedownExtra.php:503-515 | `> {F} c` opens a quote with first line `c` and the attributes of `F` |
| Blockquotes.AnnotatedOpening | ParsedownExtra.php:503-515 | `>{F}` with or without a space after the `>`, then any rest, opens a quote with the attributes of `F` and the rest less at most one leading space as its first line |
| Figures.MatchFence | ParsedownExtra.php:552-568 | fewer than three fence characters never match. Three or more followed by spaces only give the bare fence, and only such a line has no caption. Otherwise what follows the fence and its spaces is `[caption]` (to the last `]`) with an optional annotation after it, or an annotation alone with the empty caption; a matched annotation is an attribute fragment |
| Figures.BareFence | ParsedownExtra.php:552 | three or more fence characters and spaces form a fence with no caption and no annotation |
| Figures.JunkAfterFence | ParsedownExtra.php:552 | a fence followed by anything that starts with neither `[` nor `{` is no fence |
| Figures.FenceWithCaption | ParsedownExtra.php:552-564 | after `[caption]`, the line is a fence exactly when the rest is an optional annotation between spaces, and then it carries that caption and annotation |
| Figures.NoClosingBracket | ParsedownExtra.php:552 | a fence followed by `[` with no `]` after it is no fence |
| Figures.BlockFigure | ParsedownExtra.php:550-573 | a figure opens exactly on a fence line; its body is empty, and its caption and attributes are the fence's |
| Figures.BlockFigureContinue | ParsedownExtra.php:575-597 | a complete figure takes no line. A fence completes it and overrides only the caption and attributes it carries. Any other line is appended after `\n` |
| Figures.BlockFigureComplete | ParsedownExtra.php:599-615 | without a caption the figure is its body. With one, it gets a `figcaption` of the rendered caption and a `title` of its stripped text, and keeps every other attribute with its value, gaining none |
| Figures.TrailingAnnotationOf | ParsedownExtra.php:552 | an annotation written after a fence reads back, and holds no `]` |
| Figures.FenceRoundTrip | ParsedownExtra.php:552-564 | a fence with a caption (which may hold brackets) and an optional annotation reads back as that caption and annotation |
| Figures.AnnotationOnlyGivesEmptyCaption | ParsedownExtra.php:562-568 | a fence with only an annotation reads back with the empty caption |
| Figures.BodyLinesAppended | ParsedownExtra.php:575-597 | until the closing fence the text gains exactly the lines' bodies, and caption and attributes are kept |
| Tables.Cells | ParsedownExtra.php:444-445 | a row yields at least one cell and no cell holds a `|` |
| Tables.BlockTableContinue | ParsedownExtra.php:431-499 | an interrupted table, or a line without `|`, is not continued; otherwise exactly one row, the closed-form row of its cells, is appended |
| Tables.ScanRow | ParsedownExtra.php:446-487 | the loop over the cells builds the closed-form row |
| Tables.ScanIsRow | ParsedownExtra.php:450-487 | after any number of cells, the loop holds a `td` per non-empty cell so far; the running count is one more than the empty cells at their end |
| Tables.LastCellBefore | ParsedownExtra.php:455-463 | the backward scan stops at the nearest earlier `td`, or at -1 |
| Tables.RowSpecAt | ParsedownExtra.php:450-487 | a `td` exists exactly under each non-empty cell's index. It holds the trimmed cell and the column's style; its `colspan` comes from the empty cells just before and just after it |
| Tables.NoEmptyCellNoColspan | ParsedownExtra.php:481-484 | a row with no empty cell has no `colspan` |
| Tables.GapBetweenCells | ParsedownExtra.php:452-484 | `t` empty cells between two cells widen the first to `colspan` Spread(t); the count is not reset, so the second gets `t + 1` |
| Tables.DoublePipeSpansBoth | ParsedownExtra.php:452-484 | the row `a||b` gives both `td`s `colspan` 2 |
| Tables.CellsOfPlainRow | ParsedownExtra.php:444-445 | pipe-free cells joined by `|` read back as the same cells |
| Tables.CellsOfPipedRow | ParsedownExtra.php:444-445 | the same cells between an outer pair of pipes read back unchanged |
| Tables.StripPipesOfPadded | ParsedownExtra.php:444 | an outer pair of pipes, with any spaces on either side of each, is removed with those spaces, and the text between is kept whole |
| Tables.CellsOfPaddedRow | ParsedownExtra.php:444-445 | cells between outer pipes padded with any spaces read back as exactly those cells |
| Tables.UsualRow | ParsedownExtra.php:444-445 | the row `| a | b |` has the cells `a ` and ` b` |
| Headers.TrailingAnnotation | ParsedownExtra.php:210 | a found annotation is an attribute fragment; the kept text is a prefix of the heading text that does not end in a mark character |
| Headers.Annotate | ParsedownExtra.php:210-217 | without an annotation the heading is unchanged; with one, its text is cut before the match and its attributes are the fragment's |
| Headers.BlockHeader | ParsedownExtra.php:206-220 | an atx heading exists exactly when the base engine made one, and carries its annotation with `[ #]` marks |
| Headers.BlockSetextHeader | ParsedownExtra.php:238-252 | a setext heading exists exactly when the base engine made one, and carries its annotation with `[ ]` marks |
| Headers.AnnotatedIsShorter | ParsedownExtra.php:216 | stripping an annotation always shortens the text |
| Headers.AtxHeadingRoundTrip | ParsedownExtra.php:206-220 | `Title #… {F}` reads back as `Title` with the attributes of `F` |
| Headers.SetextHeadingRoundTrip | ParsedownExtra.php:238-252 | `Title {F}` reads back as `Title` with the attributes of `F`; a `#` before the annotation is kept |
| Headers.UnannotatedHeadingUnchanged | ParsedownExtra.php:210 | a heading whose text does not end in `}` (trailing spaces aside) is unchanged |
| Headers.BadAnnotationUnchanged | ParsedownExtra.php:210 | a heading ending in braces that do not hold an attribute fragment, such as `Title {foo}`, is unchanged |
| Headers.NoOpeningBraceUnchanged | ParsedownExtra.php:210 | a heading with no `{`, such as `Title}`, is unchanged |
| Headers.InlineLink | ParsedownExtra.php:302-316 | there is a link exactly when the base engine made one. It consumes at least as much input, keeps every attribute it had, and gains only `id` and `class` |
| Headers.LinkAnnotationRoundTrip | ParsedownExtra.php:306-313 | `[text](url) {F}` consumes the annotation too and gains its attributes where the link lacks them |
| Headers.UnannotatedLinkUnchanged | ParsedownExtra.php:308 | without an annotation right after it, the link is unchanged |
| Headers.BadLinkAnnotationUnchanged | ParsedownExtra.php:308 | a link followed by spaces and braces that do not hold an attribute fragment, such as `[a](b) {foo}`, is unchanged |

## Left out

- `processTag` and `blockMarkupComplete` (ParsedownExtra.php:225-233, :665-717): they depend on DOMDocument and libxml parsing and serialisation.
- `multiple` (ParsedownExtra.php:617-633): it dispatches by handler name into the base engine's renderers. The figure model stops at the element it would render.
- `unmarkedText` (ParsedownExtra.php:322-337): the `\b` word-boundary replacement of abbreviations is PCRE behaviour. The model registers abbreviations but does not substitute them.
- The `</dl>\s+<dl>` merge in `text` (ParsedownExtra.php:51), the serialisation of elements to HTML, and HTML escaping.
- The constant parts of the built elements: the marker's `sup` and `a` names and its `footnote-ref` class (ParsedownExtra.php:279-288), and the section's `div.footnotes` wrapper with its `hr` and `ol` (ParsedownExtra.php:370-384). The model keeps the varying parts: ids, hrefs, numbers, items and their order.
- The constructor's version check and its registration of block and inline types (ParsedownExtra.php:24-40).
- `blockTable` itself (the header row and the alignments) belongs to the base engine. The model takes the alignments as given.
- The `preg_match_all` at ParsedownExtra.php:447: its result is never used, so it has no effect.
- The base engine's `text`, `line`, `blockHeader`, `blockSetextHeader` and `inlineLink` are function parameters or given values. `strip_tags` is also a parameter.
- Extra.ParsedownExtra.BeginDocument: the emptying of the definition data at the start of a document is the base engine's, and is assumed here.
- Extra.ParsedownExtra.BuildFootnoteElement: the base engine's `text`, called once per footnote, is a pure function here. Any effect it has on the object's definition data is not modelled.
- Extra.ParsedownExtra.Text: the document is given as the completed footnote definitions and the excerpts offered to the footnote marker, in the base engine's order. Abbreviation lines in the same document are not interleaved.
- Footnotes.NumberedLabels: `uasort` by number is modelled by taking the footnote numbered 1, then 2, and so on. Under the registry invariant this gives the same order. In-place reordering of the PHP array is not modelled.
- Headers.InlineLink: when the base engine returns no link, PHP matches the annotation against the whole excerpt. That excerpt starts with `[`, so nothing matches, and the model returns no link.
- Lines.FootnoteReference: PCRE's `.` does not match a newline, so PHP refuses a marker label holding one; the model accepts it. The label is then looked up among the definitions, whose labels come from single lines and so hold no newline; an undefined label gives no marker, so the result is the same.
- Tables.Cells: a row with a pipe on one side only is covered by the definition of StripPipes and no separate lemma.
- PCRE's `$` also matches before a final newline. Lines never hold a newline, so the model matches only at the end.

## Findings

| source | as written | input that shows it | evidently intended | confidence | as-written member | corrected member |
|---|---|---|---|---|---|---|
| ParsedownExtra.php:297 | `footnoteCount` is an object field that `text()` never resets, so a second document rendered with the same object continues the numbering | render `x[^a]` with the definition `[^a]: note` twice with one object: the second rendering numbers the footnote 2 | numbering restarts at 1 for every document, as it does for the definitions | not executed | Registry.RenderAsWrittenRenumbers | Registry.RenderNumbersFromOne |
