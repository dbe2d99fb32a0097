# PDF text to Markdown: the text-structure engine

This project models the rendering half of the PDF-to-Markdown converter
(`src/lib/pdf-to-markdown.ts`) in Dafny and proves what it promises. The
converter takes, for every page, the positioned text blocks pdf.js
extracted (text, font size, font name, x, y and the bold and italic flags
read off the font name) and then:

- collects every block's font size. Each block counts once, and the first
  size met wins a tie. The most common size is the body size, and the
  distinct sizes above 1.15 times the body size, largest first, are the
  heading sizes;
- groups each page's blocks into visual lines (`groupIntoLines`): sorted
  top to bottom, cut where a block is not within half its font size of
  the y of the block that opened the line, and each line sorted left to
  right;
- joins each line's texts with single spaces and trims them. A line with
  text becomes a heading (`getHeadingLevel`, levels 1 to 3), a list item
  (the list-marker regular expression), or a plain line that is cleaned
  (`cleanLine`) and put in bold when a block is bold and the cleaned text
  is shorter than 200 characters;
- puts `''`, `'---'`, `''` after every page with blocks that is not the
  last page, joins the lines with line feeds, collapses runs of blank lines
  (`collapseBlankLines`) and trims the result.

Font sizes are naturals in tenths of a unit (the extractor rounds them to
0.1). The test `s > body * 1.15` is modelled as the exact comparison
`20 * s > 23 * body`; it agrees with the source's double arithmetic except
where `20 * s == 23 * body` (see "## Left out"). The line test
`|dy| < fontSize * 0.5` is modelled as the exact comparison
`|dy| < fontSize / 20` over reals; near that boundary the source's double
arithmetic can decide the other way (see "## Left out").
The y sort of `groupIntoLines` orders blocks by y, top first, when their
y values are more than 3 units apart, and by x when they are at most 3
units apart. That comparator is not transitive, so the order it produces
depends on the JavaScript engine. The model therefore
takes that order as an argument (`sorted`), which may be any permutation
of the page's blocks, and every property holds whatever it is.

Modules: `JsStrings` (the string built-ins used), `TextBlocks` (the block
and its font flags), `LineGrouping`, `FontSizes`, `Classify`, `Cleaning`,
`Render` (the loops of `pdfToMarkdown`) and `RenderFacts` (properties of
the output).

The converter makes these choices, and the model keeps them:

- the body size counts blocks, not characters;
- a tie goes to the size met first, not to the largest size;
- only the ratio 1.15 is used for heading sizes;
- there is no paragraph merging, no ligature expansion, no tagged-tree
  path and no gap-based spacing: blocks are joined with one space;
- a page separator is pushed after a page with blocks whenever later
  pages exist, even if they are all empty, so a document whose last page
  is empty ends with `---` (`RenderFacts.TrailingEmptyPageEndsWithBreak`).

## Model

| member | source | states |
|---|---|---|
| `TextBlocks.NewBlock` | src/lib/pdf-to-markdown.ts:45-63 | a block keeps its text, size, name and position; it is bold exactly when `bold` or `black` occurs in the font name in any letter case, and italic exactly when `italic` or `oblique` does |
| `TextBlocks.ContainsLowerIff` | src/lib/pdf-to-markdown.ts:46-51 | `toLowerCase().includes(k)` for a lower-case keyword finds `k` exactly when the name holds `k` with each letter in either case |
| `TextBlocks.FlagsByLetters` | src/lib/pdf-to-markdown.ts:46-51 | the bold and italic flags are case-blind searches of the font name for their keywords |
| `TextBlocks.FlagsSurviveLongerName` | src/lib/pdf-to-markdown.ts:46-51 | a keyword found in a font name is still found when text is added before or after the name |
| `TextBlocks.FlagsIgnoreCase` | src/lib/pdf-to-markdown.ts:46-51 | two names of the same length that differ only in the case of ASCII letters get the same flags |
| `TextBlocks.BoldFontExample` | src/lib/pdf-to-markdown.ts:46-51 | `Arial-BoldMT` is bold and not italic |
| `TextBlocks.BoldObliqueFontExample` | src/lib/pdf-to-markdown.ts:46-51 | `Helvetica-BoldOblique` is both bold and italic |
| `TextBlocks.ItalicFontExample` | src/lib/pdf-to-markdown.ts:46-51 | `Times-Italic` is italic and not bold |
| `JsStrings.Trim` | src/lib/pdf-to-markdown.ts:103 | the trimmed text has no white space at either end, and it is empty exactly when the input is all white space |
| `JsStrings.TrimSlice` | src/lib/pdf-to-markdown.ts:103 | the trimmed text is a slice of the input with only white space before and after it |
| `JsStrings.TrimJoin` | src/lib/pdf-to-markdown.ts:243 | trimming two texts joined by one space, with no other white space beside it, trims each side on its own |
| `JsStrings.Contains` | src/lib/pdf-to-markdown.ts:47-51 | `includes` holds exactly when the pattern occurs at some index |
| `JsStrings.RemoveAllSpec` | src/lib/pdf-to-markdown.ts:241-242 | a global removal leaves no occurrence of the character, keeps the count of every other character, and leaves a text without it unchanged |
| `LineGrouping.SameRow` | src/lib/pdf-to-markdown.ts:184 | the line test: the block is less than half its font size away from the line's anchor in y (`RowsSegmentPage` and `RowsUnique` state how it cuts the rows) |
| `LineGrouping.RowsFrom` | src/lib/pdf-to-markdown.ts:179-197 | the rows built from the open row and the blocks still to come: at least one, each non-empty, the first opened by the open row's first block |
| `LineGrouping.Rows` | src/lib/pdf-to-markdown.ts:169-197 | no rows exactly for no blocks, and every row non-empty; `RowsSegmentPage` and `RowsUnique` characterise the rows completely |
| `LineGrouping.GroupLines` | src/lib/pdf-to-markdown.ts:167-198 | the rows, each sorted by x: `GroupLinesShape` states the grouping properties and `GroupIntoLines` that the loop computes it |
| `LineGrouping.SortByX` | src/lib/pdf-to-markdown.ts:188 | the stable sort of a line by x: `SortByXSorts` and `SortByXStable` state it is an ascending, stable permutation |
| `LineGrouping.GroupIntoLines` | src/lib/pdf-to-markdown.ts:167-198 | for any y order of the page: no lines exactly when there are no blocks; the lines together are a permutation of the blocks; each line is non-empty, sorted by x, and anchored at one of its blocks that has every other block within half its font size |
| `LineGrouping.GroupLoop` | src/lib/pdf-to-markdown.ts:177-197 | the loop builds exactly the rows of the segmentation function, each sorted by x |
| `LineGrouping.GroupLinesShape` | src/lib/pdf-to-markdown.ts:167-198 | the grouping properties above, for the specification function |
| `LineGrouping.RowsSegmentPage` | src/lib/pdf-to-markdown.ts:181-193 | the rows put back together are the ordered blocks; every block of a row is close to the y of the row's first block; each new row starts at a block that is not close to the previous row's anchor |
| `LineGrouping.RowsUnique` | src/lib/pdf-to-markdown.ts:181-193 | any split into rows with those three properties is the one the loop builds |
| `LineGrouping.SortByXSorts` | src/lib/pdf-to-markdown.ts:188 | sorting a line by x gives a permutation of it in ascending x |
| `LineGrouping.SortByXStable` | src/lib/pdf-to-markdown.ts:188 | blocks with equal x keep their relative order, as the stable `Array.prototype.sort` does |
| `LineGrouping.SortedRowAnchored` | src/lib/pdf-to-markdown.ts:184-194 | sorting a row by x keeps it anchored at the block that opened it |
| `FontSizes.TallySizes` | src/lib/pdf-to-markdown.ts:80-83 | the map's keys are exactly the sizes met, each mapped to its total weight, and its key order is the order of first appearance |
| `FontSizes.TotalsStep` | src/lib/pdf-to-markdown.ts:204 | adding one weight to the running total of its size keeps the map holding the totals of the sizes met so far |
| `FontSizes.TallyStep` | src/lib/pdf-to-markdown.ts:80-83 | one turn of the tally loop keeps the map holding the totals and the key order holding the sizes in order of first appearance |
| `FontSizes.MostFrequent` | src/lib/pdf-to-markdown.ts:84-86 | the result is the first size, in insertion order, with the largest total |
| `FontSizes.HeaviestIsFirstMode` | src/lib/pdf-to-markdown.ts:80-86 | the picked size occurs, no size weighs more, and any size of equal weight is met no earlier |
| `FontSizes.BodyFontSize` | src/lib/pdf-to-markdown.ts:79-86 | the body size, the most common size counting blocks: `BodyIsMostCommon` states it occurs, no size occurs more often, and it is met first among equally common sizes |
| `FontSizes.BodyIsMostCommon` | src/lib/pdf-to-markdown.ts:79-86 | the body size occurs in the document, no size occurs more often, and among equally common sizes it is met first |
| `FontSizes.DominantFontSize` | src/lib/pdf-to-markdown.ts:200-207 | the size covering the most characters of a line: `DominantCoversMostChars` states it is a block's size, none covers more, and it is met first on a tie |
| `FontSizes.DominantCoversMostChars` | src/lib/pdf-to-markdown.ts:200-207 | on a non-empty line the dominant size is the size of one of its blocks, no size covers more characters, and it is met first among sizes covering as many |
| `FontSizes.WeightOnes` | src/lib/pdf-to-markdown.ts:81-83 | counting with weight one gives the number of occurrences |
| `FontSizes.Distinct` | src/lib/pdf-to-markdown.ts:89 | `[...new Set(sizes)]` holds exactly the sizes met |
| `FontSizes.DistinctNoDup` | src/lib/pdf-to-markdown.ts:89 | `[...new Set(sizes)]` lists no size twice |
| `FontSizes.DistinctPrefix` | src/lib/pdf-to-markdown.ts:89 | the distinct sizes of a prefix come first, in the same order, so the set keeps the order of first appearance |
| `FontSizes.HeadingSizes` | src/lib/pdf-to-markdown.ts:88-91 | the distinct sizes above 1.15 times the body, largest first: `HeadingSizesSpec` states exactly which sizes and their strict descending order |
| `FontSizes.HeadingSizesSpec` | src/lib/pdf-to-markdown.ts:88-91 | the heading sizes are exactly the document's sizes above 1.15 times the body size, strictly descending and so free of duplicates |
| `FontSizes.BodyIsNoHeadingSize` | src/lib/pdf-to-markdown.ts:89-91 | the body size is never a heading size |
| `FontSizes.SortDescSorts` | src/lib/pdf-to-markdown.ts:91 | sorting distinct sizes with `b - a` gives the same sizes strictly descending |
| `FontSizes.KeepAboveBody` | src/lib/pdf-to-markdown.ts:90 | the filter keeps exactly the sizes above 1.15 times the body size, and no duplicates appear |
| `Classify.IndexOf` | src/lib/pdf-to-markdown.ts:221 | `indexOf` is -1 exactly when the value is absent, and otherwise the first position holding it |
| `Classify.HeadingLevel` | src/lib/pdf-to-markdown.ts:209-236 | the level is 1, 2 or 3 or none; none for text longer than 200; none when the size is not above 1.15 times the body and the bold rule does not apply |
| `Classify.HeadingIff` | src/lib/pdf-to-markdown.ts:216-235 | with the document's heading sizes, a line of at most 200 characters is a heading exactly when its size is above 1.15 times the body or the bold rule applies; the bold rule alone gives level 3 |
| `Classify.HeadingLevelByRank` | src/lib/pdf-to-markdown.ts:220-225 | the heading size at rank i gets level min(i + 1, 3) |
| `Classify.BodySizeOnlyBoldHeading` | src/lib/pdf-to-markdown.ts:227-233 | body-sized text is a heading only through the bold rule |
| `Classify.LevelOneIsLargest` | src/lib/pdf-to-markdown.ts:220-222 | level 1 goes exactly to the largest size of the document, when it is above 1.15 times the body |
| `Classify.LargerSizeNoDeeperLevel` | src/lib/pdf-to-markdown.ts:220-225 | of two heading-sized lines, the larger size never gets a larger level number |
| `Classify.ListMarker` | src/lib/pdf-to-markdown.ts:120-122 | a match is longer than the leading white space and fits in the text |
| `Classify.ListMarkerSound` | src/lib/pdf-to-markdown.ts:120-122 | a match is white space followed by one marker: a bullet, digits with `.` or `)` and a white-space character, or one letter with `.` or `)` and a white-space character |
| `Classify.ListMarkerComplete` | src/lib/pdf-to-markdown.ts:120-122 | every text that starts with white space and a marker matches, with that very marker |
| `Classify.OrderedIffDigits` | src/lib/pdf-to-markdown.ts:136 | a list item is numbered exactly when its marker starts with a digit |
| `Classify.TrimmedMarker` | src/lib/pdf-to-markdown.ts:136 | the trimmed match is the marker without its final white space |
| `Cleaning.CleanLine` | src/lib/pdf-to-markdown.ts:238-244 | `cleanLine`: `CleanLineShape`, `CleanLineKeepsText` and `CleanLineJoinsWords` state its result's shape, that it drops only white space, soft hyphens and replacement characters, and that words stay one space apart |
| `Cleaning.CleanLineShape` | src/lib/pdf-to-markdown.ts:238-244 | the cleaned line has no white space at its ends, no soft hyphen, no replacement character, and no white space other than plain spaces |
| `Cleaning.CleanLineKeepsText` | src/lib/pdf-to-markdown.ts:238-244 | cleaning removes only white space, soft hyphens and replacement characters: the other characters are kept, in order |
| `Cleaning.CleanLineNotIdempotent` | src/lib/pdf-to-markdown.ts:240-243 | a soft hyphen between two spaces leaves a double space, which a second cleaning merges |
| `Cleaning.CollapseSpacesShape` | src/lib/pdf-to-markdown.ts:240 | after `replace(/\s+/g, ' ')` the only white space is single plain spaces |
| `Cleaning.CollapseSpacesJoin` | src/lib/pdf-to-markdown.ts:240 | a run of white space between two characters that are not white space becomes exactly one space: the text on each side collapses on its own and the two are joined by `" "` |
| `Cleaning.CleanLineJoinsWords` | src/lib/pdf-to-markdown.ts:238-244 | white space between two kept characters becomes one space: the line cleans to its two sides cleaned on their own, joined by a single space |
| `Cleaning.CollapseBlankLines` | src/lib/pdf-to-markdown.ts:246-248 | `collapseBlankLines`: the result is non-empty for non-empty text and starts with a line feed exactly when the text does; the lemmas below state the rest |
| `Cleaning.CollapseRun` | src/lib/pdf-to-markdown.ts:246-248 | a whole run of line feeds is kept when shorter than three and becomes exactly two line feeds otherwise, and the text after it collapses on its own |
| `Cleaning.CollapseHasNoTriple` | src/lib/pdf-to-markdown.ts:246-248 | the collapsed text never holds three line feeds in a row |
| `Cleaning.CollapseKeepsText` | src/lib/pdf-to-markdown.ts:246-248 | collapsing removes only line feeds |
| `Cleaning.CollapseFixesNoTriple` | src/lib/pdf-to-markdown.ts:246-248 | a text without three line feeds in a row is left unchanged |
| `Cleaning.CollapseIdempotent` | src/lib/pdf-to-markdown.ts:246-248 | collapsing twice is collapsing once |
| `Cleaning.CollapseSplit` | src/lib/pdf-to-markdown.ts:246-248 | a character other than a line feed splits the text into parts that collapse on their own |
| `Render.HeadingLine` | src/lib/pdf-to-markdown.ts:129-132 | the heading line: `level` times `#`, a space, and the cleaned text (`HeadingFramedByBlanks` states how it is pushed) |
| `Render.ListItem` | src/lib/pdf-to-markdown.ts:135-141 | the list line: `1. ` or `- `, then the trimmed rest or the whole line (`ListItemIsOneLine`) |
| `Render.PlainLine` | src/lib/pdf-to-markdown.ts:144-150 | the plain line: the cleaned text, in `**` when bold and under 200 characters (`PlainLineIsOneLine`) |
| `Render.RenderText` | src/lib/pdf-to-markdown.ts:111-151 | heading first, then list item, then plain line, as `HeadingFramedByBlanks`, `ListItemIsOneLine` and `PlainLineIsOneLine` state |
| `Render.RenderPages` | src/lib/pdf-to-markdown.ts:95-160 | the page loop: pages without blocks are skipped and a separator follows every page with blocks that is not the last (`EmptyPageSkipped`, `TrailingEmptyPageAddsSeparator`) |
| `Render.Markdown` | src/lib/pdf-to-markdown.ts:69-164 | the whole conversion: `MarkdownShape`, `NoBlocksNoText` and `MarkdownIgnoresEmptyPage` state its properties, and `PdfToMarkdown` that the imperative code computes it |
| `Render.CollectFontSizes` | src/lib/pdf-to-markdown.ts:69-75 | the loop collects every block's size, page after page |
| `Render.RenderLineInto` | src/lib/pdf-to-markdown.ts:102-152 | one turn of the loop over lines matches the rendering function: nothing for a line without text, otherwise a heading, list item or plain line |
| `Render.PushLine` | src/lib/pdf-to-markdown.ts:124-151 | the pushes for one line with text match the rendering function |
| `Render.RenderPageLines` | src/lib/pdf-to-markdown.ts:102-152 | the loop over a page's lines matches the rendering function |
| `Render.PdfToMarkdown` | src/lib/pdf-to-markdown.ts:69-164 | for any y order of each page, the result is the empty string when there are no blocks, and otherwise the joined lines of every page, with blank-line runs collapsed and trimmed |
| `RenderFacts.RenderLineAppends` | src/lib/pdf-to-markdown.ts:102-152 | rendering a line only appends, and it appends something exactly when the line has text |
| `RenderFacts.HeadingFramedByBlanks` | src/lib/pdf-to-markdown.ts:124-133 | a heading only appends: a blank line exactly when something precedes it and the line before is not blank, then the `#` text, then a blank line |
| `RenderFacts.ListItemIsOneLine` | src/lib/pdf-to-markdown.ts:134-141 | a list item that is not a heading takes one Markdown line: `1. ` when the line starts with a digit and `- ` otherwise, then the trimmed text after the marker, or the whole line when nothing follows it |
| `RenderFacts.PlainLineIsOneLine` | src/lib/pdf-to-markdown.ts:142-151 | any other line takes one Markdown line: its cleaned text, wrapped in `**` exactly when a block is bold and the cleaned text is under 200 characters |
| `RenderFacts.EmptyPageSkipped` | src/lib/pdf-to-markdown.ts:95-97 | an empty page before the last one adds nothing, not even a separator |
| `RenderFacts.MarkdownIgnoresEmptyPage` | src/lib/pdf-to-markdown.ts:95-97 | the document converts the same with an empty page inserted before the last page |
| `RenderFacts.TrailingEmptyPageAddsSeparator` | src/lib/pdf-to-markdown.ts:154-159 | the separator test counts pages, so a trailing empty page adds one more separator after the last page with blocks |
| `RenderFacts.TrailingEmptyPageEndsWithBreak` | src/lib/pdf-to-markdown.ts:154-164 | such a document's Markdown ends with `---` |
| `RenderFacts.MarkdownShape` | src/lib/pdf-to-markdown.ts:162-164 | the Markdown has no white space at either end and never three line feeds in a row; with no blocks it is empty |
| `RenderFacts.NoBlocksNoText` | src/lib/pdf-to-markdown.ts:77 | a document whose pages are all empty converts to the empty string |

## Left out

- Loading the PDF with pdf.js, the worker URL, `getDocument`, `getPage` and `getTextContent` (src/lib/pdf-to-markdown.ts:1-6, 30-67): these are asynchronous I/O in a foreign library. The extracted blocks of every page are the input.
- The font size computed from the transform with `Math.sqrt` and rounded to 0.1 (src/lib/pdf-to-markdown.ts:44, 55): this is floating-point work. The size is given as a natural in tenths.
- The y order of `groupIntoLines` (src/lib/pdf-to-markdown.ts:171-175): its comparator is not transitive, so the order depends on the engine. It is an argument, any permutation of the page's blocks.
- `LineGrouping.SortByX` models `sort((a, b) => a.x - b.x)` as a stable insertion sort. x values are reals, so NaN coordinates are not modelled.
- String lengths (`text.length` in `getHeadingLevel`, `getDominantFontSize` and the bold test) count Unicode scalar values. JavaScript counts UTF-16 code units, so the two differ for characters outside the Basic Multilingual Plane.
- `FontSizes.AboveBody`, `FontSizes.HeadingSizes` and `Classify.HeadingLevel` compare `20 * s > 23 * body` exactly, so a size of exactly 1.15 times the body is never above it. The source computes `body * 1.15` in doubles, which can round below the exact product (12 * 1.15 is 13.799999999999999), so for about half of the pairs with `20 * s == 23 * body` (such as body 12.0 and size 13.8) the source treats the size as a heading size and the model does not. Double rounding is not modelled.
- `LineGrouping.SameRow` compares `|block.y - currentY| < fontSize / 20` exactly over reals. The source computes `block.y - currentY` and `block.fontSize * 0.5` in doubles (src/lib/pdf-to-markdown.ts:184), and that rounding is not modelled, so a block about half a font size from the line's anchor can fall on the other side of the cut: with size 10.0, anchor 123.01 and y 128.01 the source's difference is 4.999999999999986 and the block joins the line, while the model's is exactly 5 and the block opens a new line.
- `TextBlocks.FoldCase` models `toLowerCase` only as far as the keyword search can tell: ASCII letters and the Kelvin sign. Other characters are left as they are.
- `isItalic` is computed and never used when rendering, so the model only defines it.
- The rest of the repository: the pdf-lib wrappers in src/lib/pdf-utils.ts, thumbnails, the network monitor, and every React component and page. They are user-interface code and library calls.
