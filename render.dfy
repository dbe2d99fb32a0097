/**
 * The rendering half of `pdfToMarkdown`: from the text blocks of every
 * page to the Markdown document. Each page's blocks are grouped into
 * lines; each line with text becomes a heading, a list item or a plain
 * line; pages are separated by a thematic break; finally runs of blank
 * lines are collapsed and the result is trimmed.
 *
 * `pages[p]` holds the blocks of page `p` in extraction order, and
 * `sorted[p]` the same blocks in the order the y sort of `groupIntoLines`
 * leaves them (see the LineGrouping module).
 */
module Render {
  import opened Wrappers
  import opened JsStrings
  import opened TextBlocks
  import opened LineGrouping
  import opened FontSizes
  import opened Classify
  import opened Cleaning

  // ---------------------------------------------------------------------
  // One line.
  // ---------------------------------------------------------------------

  /** The texts of a line's blocks. */
  function Texts(line: seq<TextBlock>): (r: seq<string>)
    ensures |r| == |line| && forall i :: 0 <= i < |line| ==> r[i] == line[i].text
  {
    seq(|line|, i requires 0 <= i < |line| => line[i].text)
  }

  /** `line.map((b) => b.text).join(' ').trim()`. */
  function LineText(line: seq<TextBlock>): string
  {
    Trim(Join(Texts(line), " "))
  }

  /** `line.some((b) => b.isBold)`. */
  predicate AnyBold(line: seq<TextBlock>)
  {
    exists i :: 0 <= i < |line| && line[i].isBold
  }

  /** What the rendering loop knows of the whole document: the body size
      and the heading sizes. */
  datatype Context = Context(body: nat, headingSizes: seq<nat>)

  /** `${'#'.repeat(level)} ${cleanLine(text)}`. */
  function HeadingLine(level: nat, text: string): string
  {
    Repeat('#', level) + " " + CleanLine(text)
  }

  /** The list item for a line whose marker match is `k` characters long:
      the rest of the line, trimmed, after `1. ` or `- `; the whole line
      when nothing follows the marker. The item text is not cleaned. */
  function ListItem(text: string, k: nat): string
    requires k <= |text|
  {
    var content := Trim(text[k..]);
    (if IsOrderedItem(text, k) then "1. " else "- ") + (if content == [] then text else content)
  }

  /** A plain line: cleaned, and wrapped in `**` when the line has a bold
      block and the cleaned text is shorter than 200 characters. */
  function PlainLine(text: string, bold: bool): string
  {
    var clean := CleanLine(text);
    if bold && |clean| < 200 then "**" + clean + "**" else clean
  }

  lemma EmptyLineHasNoText(line: seq<TextBlock>)
    ensures line == [] ==> LineText(line) == []
  {
    if line == [] {
      assert Join(Texts(line), " ") == "";
      assert AllSpace("");
    }
  }

  /** The Markdown lines `acc` becomes once one grouped line is rendered. */
  function RenderLine(acc: seq<string>, line: seq<TextBlock>, ctx: Context): seq<string>
  {
    var text := LineText(line);
    if text == [] then acc
    else
      EmptyLineHasNoText(line);
      RenderText(acc, text, DominantFontSize(line), AnyBold(line), ctx)
  }

  /** The Markdown lines `acc` becomes for a line with text `text`, dominant
      size `dominant` and a bold block exactly when `bold`: a heading, a
      list item or a plain line. */
  function RenderText(acc: seq<string>, text: string, dominant: nat, bold: bool, ctx: Context): seq<string>
  {
    var level := HeadingLevel(dominant, ctx.body, ctx.headingSizes, bold, text);
    if level.Some? then
      acc + (if |acc| > 0 && acc[|acc| - 1] != "" then [""] else []) + [HeadingLine(level.value, text), ""]
    else if ListMarker(text).Some? then
      acc + [ListItem(text, ListMarker(text).value)]
    else
      acc + [PlainLine(text, bold)]
  }

  /** One turn of the loop over a page's lines. */
  method RenderLineInto(acc: seq<string>, line: seq<TextBlock>, ctx: Context) returns (r: seq<string>)
    ensures r == RenderLine(acc, line, ctx)
  {
    var text := Trim(Join(Texts(line), " "));
    if text == [] {
      return acc;
    }
    EmptyLineHasNoText(line);
    var dominant := MostFrequent(LineSizes(line), CharCounts(line));
    var bold := AnyBold(line);
    r := PushLine(acc, text, dominant, bold, ctx);
  }

  /** The pushes for one line with text. */
  method PushLine(acc: seq<string>, text: string, dominant: nat, bold: bool, ctx: Context) returns (r: seq<string>)
    ensures r == RenderText(acc, text, dominant, bold, ctx)
  {
    var level := HeadingLevel(dominant, ctx.body, ctx.headingSizes, bold, text);
    var marker := ListMarker(text);
    r := acc;
    if level.Some? {
      if |r| > 0 && r[|r| - 1] != "" {
        r := r + [""];
      }
      r := r + [Repeat('#', level.value) + " " + CleanLine(text)];
      r := r + [""];
    } else if marker.Some? {
      var content := Trim(text[marker.value..]);
      var item := if content == [] then text else content;
      if IsOrderedItem(text, marker.value) {
        r := r + ["1. " + item];
      } else {
        r := r + ["- " + item];
      }
    } else {
      var formatted := CleanLine(text);
      if bold && |formatted| < 200 {
        formatted := "**" + formatted + "**";
      }
      r := r + [formatted];
    }
  }

  // ---------------------------------------------------------------------
  // Pages and the document.
  // ---------------------------------------------------------------------

  /** The loop over the grouped lines of one page. */
  function RenderLines(acc: seq<string>, lines: seq<seq<TextBlock>>, ctx: Context): seq<string>
    decreases |lines|
  {
    if lines == [] then acc else RenderLines(RenderLine(acc, lines[0], ctx), lines[1..], ctx)
  }

  /** The loop over the pages from some page on: an empty page is skipped
      with no separator; any other page is rendered and, unless it is the
      last page of the document, followed by `''`, `'---'`, `''`. */
  function RenderPages(acc: seq<string>, pages: seq<seq<TextBlock>>, sorted: seq<seq<TextBlock>>, ctx: Context): seq<string>
    requires |sorted| == |pages|
    decreases |pages|
  {
    if pages == [] then acc
    else
      var next := if pages[0] == [] then acc
                  else RenderLines(acc, GroupLines(sorted[0]), ctx) + (if |pages| > 1 then ["", "---", ""] else []);
      RenderPages(next, pages[1..], sorted[1..], ctx)
  }

  /** The font size of every block, page after page. */
  function AllSizes(pages: seq<seq<TextBlock>>): seq<nat>
  {
    LineSizes(Flatten(pages))
  }

  /** The body size and heading sizes of the document. */
  function DocumentContext(all: seq<nat>): Context
    requires all != []
  {
    var body := BodyFontSize(all);
    Context(body, HeadingSizes(all, body))
  }

  /** Each page's sort order holds exactly that page's blocks. */
  predicate ValidOrders(pages: seq<seq<TextBlock>>, sorted: seq<seq<TextBlock>>)
  {
    |sorted| == |pages| && forall p :: 0 <= p < |pages| ==> multiset(sorted[p]) == multiset(pages[p])
  }

  /** The array `markdownLines` once every page is rendered. */
  function MarkdownLines(pages: seq<seq<TextBlock>>, sorted: seq<seq<TextBlock>>): seq<string>
    requires |sorted| == |pages| && AllSizes(pages) != []
  {
    RenderPages([], pages, sorted, DocumentContext(AllSizes(pages)))
  }

  /** The converter's result: the empty string for a document without
      text blocks, otherwise the Markdown lines joined by line feeds, with
      blank-line runs collapsed and the ends trimmed. */
  function Markdown(pages: seq<seq<TextBlock>>, sorted: seq<seq<TextBlock>>): string
    requires |sorted| == |pages|
  {
    if AllSizes(pages) == [] then ""
    else Trim(CollapseBlankLines(Join(MarkdownLines(pages, sorted), "\n")))
  }

  lemma LineSizesSnoc(s: seq<TextBlock>, b: TextBlock)
    ensures LineSizes(s + [b]) == LineSizes(s) + [b.fontSize]
  {
  }

  lemma FlattenSnoc(pages: seq<seq<TextBlock>>, p: nat)
    requires p < |pages|
    ensures Flatten(pages[..p + 1]) == Flatten(pages[..p]) + pages[p]
  {
    assert pages[..p + 1] == pages[..p] + [pages[p]];
    FlattenAppend(pages[..p], [pages[p]]);
    assert Flatten([pages[p]]) == pages[p] + Flatten([]);
  }

  /** The loop that collects every block's font size, page by page. */
  method CollectFontSizes(pages: seq<seq<TextBlock>>) returns (fontSizes: seq<nat>)
    ensures fontSizes == AllSizes(pages)
  {
    fontSizes := [];
    var p := 0;
    while p < |pages|
      invariant 0 <= p <= |pages|
      invariant fontSizes == LineSizes(Flatten(pages[..p]))
    {
      var b := 0;
      while b < |pages[p]|
        invariant 0 <= b <= |pages[p]|
        invariant fontSizes == LineSizes(Flatten(pages[..p]) + pages[p][..b])
      {
        assert pages[p][..b + 1] == pages[p][..b] + [pages[p][b]];
        LineSizesSnoc(Flatten(pages[..p]) + pages[p][..b], pages[p][b]);
        fontSizes := fontSizes + [pages[p][b].fontSize];
        b := b + 1;
      }
      assert pages[p][..b] == pages[p];
      FlattenSnoc(pages, p);
      p := p + 1;
    }
    assert pages[..p] == pages;
  }

  /** The lines of one page rendered onto `acc`. */
  method RenderPageLines(acc: seq<string>, lines: seq<seq<TextBlock>>, ctx: Context) returns (r: seq<string>)
    ensures r == RenderLines(acc, lines, ctx)
  {
    r := acc;
    var j := 0;
    while j < |lines|
      invariant 0 <= j <= |lines|
      invariant RenderLines(r, lines[j..], ctx) == RenderLines(acc, lines, ctx)
    {
      assert lines[j..][1..] == lines[j + 1..];
      r := RenderLineInto(r, lines[j], ctx);
      j := j + 1;
    }
  }

  /** `pdfToMarkdown` from the extracted blocks on. */
  method PdfToMarkdown(pages: seq<seq<TextBlock>>, sorted: seq<seq<TextBlock>>) returns (md: string)
    requires ValidOrders(pages, sorted)
    ensures md == Markdown(pages, sorted)
  {
    var fontSizes := CollectFontSizes(pages);
    if |fontSizes| == 0 {
      return "";
    }
    var body := MostFrequent(fontSizes, Ones(|fontSizes|));
    var headingSizes := HeadingSizes(fontSizes, body);
    var ctx := Context(body, headingSizes);
    var markdownLines: seq<string> := [];
    var p := 0;
    while p < |pages|
      invariant 0 <= p <= |pages|
      invariant RenderPages(markdownLines, pages[p..], sorted[p..], ctx) == MarkdownLines(pages, sorted)
    {
      assert pages[p..][1..] == pages[p + 1..] && sorted[p..][1..] == sorted[p + 1..];
      if |pages[p]| > 0 {
        var lines := GroupIntoLines(pages[p], sorted[p]);
        markdownLines := RenderPageLines(markdownLines, lines, ctx);
        if p < |pages| - 1 {
          markdownLines := markdownLines + ["", "---", ""];
        }
      }
      p := p + 1;
    }
    md := Trim(CollapseBlankLines(Join(markdownLines, "\n")));
  }
}
