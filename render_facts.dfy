/**
 * What the rendering promises about the Markdown it produces: how each
 * kind of line is laid out, that empty pages are invisible except at the
 * end of the document, and the shape of the final text.
 */
module RenderFacts {
  import opened Wrappers
  import opened JsStrings
  import opened TextBlocks
  import opened LineGrouping
  import opened FontSizes
  import opened Classify
  import opened Cleaning
  import opened Render

  // ---------------------------------------------------------------------
  // Lines.
  // ---------------------------------------------------------------------

  /** Rendering a line only appends to the Markdown lines, and appends
      something exactly when the line has text. */
  lemma RenderLineAppends(acc: seq<string>, line: seq<TextBlock>, ctx: Context)
    ensures |acc| <= |RenderLine(acc, line, ctx)| && RenderLine(acc, line, ctx)[..|acc|] == acc
    ensures RenderLine(acc, line, ctx) == acc <==> LineText(line) == []
  {
    var r := RenderLine(acc, line, ctx);
    if LineText(line) != [] {
      assert |r| > |acc|;
    }
  }

  /** The heading level the rendering loop gives a line with text. */
  function LevelOf(line: seq<TextBlock>, ctx: Context): Option<nat>
    requires LineText(line) != []
  {
    EmptyLineHasNoText(line);
    HeadingLevel(DominantFontSize(line), ctx.body, ctx.headingSizes, AnyBold(line), LineText(line))
  }

  /** A heading is pushed as `#`-prefixed text followed by a blank line,
      and preceded by a blank line exactly when it does not open the
      document and the line before it is not already blank. */
  lemma HeadingFramedByBlanks(acc: seq<string>, line: seq<TextBlock>, ctx: Context)
    requires LineText(line) != [] && LevelOf(line, ctx).Some?
    ensures var r := RenderLine(acc, line, ctx);
            r[..|acc|] == acc && |r| == |acc| + (if acc != [] && acc[|acc| - 1] != "" then 3 else 2)
            && r[|r| - 1] == "" && r[|r| - 2] == HeadingLine(LevelOf(line, ctx).value, LineText(line))
            && r[|r| - 2][0] == '#'
            && (acc != [] ==> r[|r| - 3] == "")
  {
    var text := LineText(line);
    var level := LevelOf(line, ctx).value;
    var blank: seq<string> := if |acc| > 0 && acc[|acc| - 1] != "" then [""] else [];
    assert RenderLine(acc, line, ctx) == acc + blank + [HeadingLine(level, text), ""];
    assert HeadingLine(level, text)[0] == Repeat('#', level)[0];
  }

  /** A list item takes one Markdown line: `1. ` when the line starts
      with a digit and `- ` otherwise, then the trimmed text after the
      marker, or the whole line when nothing follows the marker. */
  lemma ListItemIsOneLine(acc: seq<string>, line: seq<TextBlock>, ctx: Context)
    requires LineText(line) != [] && LevelOf(line, ctx) == None && ListMarker(LineText(line)).Some?
    ensures var r := RenderLine(acc, line, ctx);
            var text := LineText(line);
            var content := Trim(text[ListMarker(text).value..]);
            |r| == |acc| + 1 && r[..|acc|] == acc
            && r[|acc|] == (if IsDigit(text[0]) then "1. " else "- ") + (if content == [] then text else content)
  {
    var text := LineText(line);
    assert !IsSpace(text[0]);
    assert LeadingSpaces(text) == 0;
    OrderedIffDigits(text);
  }

  /** A line that is neither heading nor list item takes one Markdown
      line: its cleaned text, in bold markers when a block is bold and the
      cleaned text is under 200 characters. */
  lemma PlainLineIsOneLine(acc: seq<string>, line: seq<TextBlock>, ctx: Context)
    requires LineText(line) != [] && LevelOf(line, ctx) == None && ListMarker(LineText(line)) == None
    ensures var r := RenderLine(acc, line, ctx);
            var clean := CleanLine(LineText(line));
            |r| == |acc| + 1
            && (AnyBold(line) && |clean| < 200 ==> r[|acc|] == "**" + clean + "**")
            && (!AnyBold(line) || |clean| >= 200 ==> r[|acc|] == clean)
  {
  }

  // ---------------------------------------------------------------------
  // Pages.
  // ---------------------------------------------------------------------

  /** An empty page anywhere but at the end changes nothing. */
  lemma {:induction false} EmptyPageSkipped(acc: seq<string>, pages: seq<seq<TextBlock>>, sorted: seq<seq<TextBlock>>, j: nat, ctx: Context)
    requires |sorted| == |pages| && j < |pages|
    ensures RenderPages(acc, pages[..j] + [[]] + pages[j..], sorted[..j] + [[]] + sorted[j..], ctx)
            == RenderPages(acc, pages, sorted, ctx)
    decreases |pages|
  {
    var pages' := pages[..j] + [[]] + pages[j..];
    var sorted' := sorted[..j] + [[]] + sorted[j..];
    if j == 0 {
      assert pages'[1..] == pages && sorted'[1..] == sorted;
    } else {
      assert pages'[0] == pages[0] && sorted'[0] == sorted[0];
      assert pages'[1..] == pages[1..][..j - 1] + [[]] + pages[1..][j - 1..];
      assert sorted'[1..] == sorted[1..][..j - 1] + [[]] + sorted[1..][j - 1..];
      var next := if pages[0] == [] then acc
                  else RenderLines(acc, GroupLines(sorted[0]), ctx) + ["", "---", ""];
      EmptyPageSkipped(next, pages[1..], sorted[1..], j - 1, ctx);
    }
  }

  /** The blocks of the document are the same with an empty page put in. */
  lemma SizesIgnoreEmptyPage(pages: seq<seq<TextBlock>>, j: nat)
    requires j <= |pages|
    ensures AllSizes(pages[..j] + [[]] + pages[j..]) == AllSizes(pages)
  {
    FlattenAppend(pages[..j] + [[]], pages[j..]);
    FlattenAppend(pages[..j], [[]]);
    FlattenAppend(pages[..j], pages[j..]);
    assert Flatten([[]]) == [] + Flatten([]);
    assert pages[..j] + pages[j..] == pages;
  }

  /** So the converted document does not change when an empty page is
      put anywhere before the last page. */
  lemma MarkdownIgnoresEmptyPage(pages: seq<seq<TextBlock>>, sorted: seq<seq<TextBlock>>, j: nat)
    requires |sorted| == |pages| && j < |pages|
    ensures Markdown(pages[..j] + [[]] + pages[j..], sorted[..j] + [[]] + sorted[j..]) == Markdown(pages, sorted)
  {
    SizesIgnoreEmptyPage(pages, j);
    if AllSizes(pages) != [] {
      EmptyPageSkipped([], pages, sorted, j, DocumentContext(AllSizes(pages)));
    }
  }

  /** An empty page after a last page with blocks adds a separator that no
      page follows: the separator test looks at the page count, not at
      whether a page with blocks comes later. */
  lemma {:induction false} TrailingEmptyPageAddsSeparator(acc: seq<string>, pages: seq<seq<TextBlock>>, sorted: seq<seq<TextBlock>>, ctx: Context)
    requires |sorted| == |pages| && pages != [] && pages[|pages| - 1] != []
    ensures RenderPages(acc, pages + [[]], sorted + [[]], ctx) == RenderPages(acc, pages, sorted, ctx) + ["", "---", ""]
    decreases |pages|
  {
    assert (pages + [[]])[0] == pages[0] && (sorted + [[]])[0] == sorted[0];
    assert (pages + [[]])[1..] == pages[1..] + [[]] && (sorted + [[]])[1..] == sorted[1..] + [[]];
    if |pages| == 1 {
      var next := RenderLines(acc, GroupLines(sorted[0]), ctx) + ["", "---", ""];
      assert RenderPages(next, [[]], [[]], ctx) == RenderPages(next, [], [], ctx);
    } else {
      var next := if pages[0] == [] then acc
                  else RenderLines(acc, GroupLines(sorted[0]), ctx) + ["", "---", ""];
      TrailingEmptyPageAddsSeparator(next, pages[1..], sorted[1..], ctx);
    }
  }

  // ---------------------------------------------------------------------
  // The document text.
  // ---------------------------------------------------------------------

  /** The converted document has no white space at either end and never
      three line feeds in a row (at most one blank line anywhere). */
  lemma MarkdownShape(pages: seq<seq<TextBlock>>, sorted: seq<seq<TextBlock>>)
    requires |sorted| == |pages|
    ensures Trimmed(Markdown(pages, sorted)) && NoTriple(Markdown(pages, sorted))
    ensures AllSizes(pages) == [] ==> Markdown(pages, sorted) == ""
  {
    if AllSizes(pages) != [] {
      var j := Join(MarkdownLines(pages, sorted), "\n");
      CollapseHasNoTriple(j);
      TrimKeepsNoTriple(CollapseBlankLines(j));
    }
  }

  /** A document with no block at all converts to the empty string. */
  lemma NoBlocksNoText(pages: seq<seq<TextBlock>>, sorted: seq<seq<TextBlock>>)
    requires |sorted| == |pages| && forall p :: 0 <= p < |pages| ==> pages[p] == []
    ensures Markdown(pages, sorted) == ""
  {
    assert Flatten(pages) == [] by {
      FlattenOfEmpties(pages);
    }
  }

  lemma {:induction false} FlattenOfEmpties(pages: seq<seq<TextBlock>>)
    requires forall p :: 0 <= p < |pages| ==> pages[p] == []
    ensures Flatten(pages) == []
  {
    if pages != [] {
      FlattenOfEmpties(pages[1..]);
      assert Flatten(pages) == pages[0] + Flatten(pages[1..]);
    }
  }

  predicate EndsWithText(s: string, t: string)
  {
    |s| >= |t| && s[|s| - |t|..] == t
  }

  lemma {:induction false} JoinAppend(a: seq<string>, b: seq<string>, sep: string)
    requires a != [] && b != []
    ensures Join(a + b, sep) == Join(a, sep) + sep + Join(b, sep)
  {
    if |a| == 1 {
      assert (a + b)[0] == a[0] && (a + b)[1..] == b;
    } else {
      assert (a + b)[0] == a[0] && (a + b)[1..] == a[1..] + b;
      JoinAppend(a[1..], b, sep);
    }
  }

  /** The end of the joined document when a trailing separator was pushed. */
  lemma JoinedEndsWithSeparator(lines: seq<string>)
    ensures exists q :: Join(lines + ["", "---", ""], "\n") == q + "\n-" + "--" + "\n"
  {
    assert Join(["", "---", ""], "\n") == "\n---\n" by {
      assert Join(["---", ""], "\n") == "---" + "\n" + Join([""], "\n");
    }
    if lines == [] {
      assert lines + ["", "---", ""] == ["", "---", ""];
      assert "\n---\n" == "" + "\n-" + "--" + "\n";
    } else {
      JoinAppend(lines, ["", "---", ""], "\n");
      var q := Join(lines, "\n") + "\n";
      assert Join(lines, "\n") + "\n" + "\n---\n" == q + "\n-" + "--" + "\n";
    }
  }

  /** Once `''`, `'---'`, `''` close the Markdown lines, the collapsed
      and trimmed text ends with `---`. */
  lemma SeparatorSurvivesAtEnd(lines: seq<string>)
    ensures EndsWithText(Trim(CollapseBlankLines(Join(lines + ["", "---", ""], "\n"))), "---")
  {
    JoinedEndsWithSeparator(lines);
    var q :| Join(lines + ["", "---", ""], "\n") == q + "\n-" + "--" + "\n";
    var x := q + "\n-";
    assert q + "\n-" + "--" + "\n" == (x + "--") + "\n";
    CollapseSplit(x + "--", "\n");
    CollapseSplit(x, "--");
    CollapseKeepsLast(x);
    assert CollapseBlankLines("\n") == "\n";
    assert CollapseBlankLines("--") == "--";
    var z := CollapseBlankLines(x) + "--";
    var s := z + "\n";
    assert s == CollapseBlankLines(Join(lines + ["", "---", ""], "\n"));
    TrimBeforeNewline(z);
  }

  /** Trimming a text that ends with `---` and a line feed keeps the
      `---`. */
  lemma TrimBeforeNewline(z: string)
    requires |z| >= 3 && z[|z| - 3..] == "---"
    ensures EndsWithText(Trim(z + "\n"), "---")
  {
    var s := z + "\n";
    assert s[|z| - 3] == '-' && s[|z| - 1] == '-';
    var i0 := LeadingSpaces(s);
    assert i0 <= |z| - 3;
    assert s[|z|..] == "\n";
    TrimExact(s, i0, |z|);
    assert Trim(s)[|Trim(s)| - 3..] == s[|z| - 3..|z|];
  }

  /** So a document whose last page with blocks is followed by an empty
      page ends with a thematic break that no content follows. */
  lemma TrailingEmptyPageEndsWithBreak(pages: seq<seq<TextBlock>>, sorted: seq<seq<TextBlock>>)
    requires |sorted| == |pages| && pages != [] && pages[|pages| - 1] != []
    ensures EndsWithText(Markdown(pages + [[]], sorted + [[]]), "---")
  {
    SizesIgnoreEmptyPage(pages, |pages|);
    assert pages[..|pages|] + [[]] + pages[|pages|..] == pages + [[]];
    FlattenHasLastPage(pages);
    TrailingEmptyPageAddsSeparator([], pages, sorted, DocumentContext(AllSizes(pages)));
    SeparatorSurvivesAtEnd(MarkdownLines(pages, sorted));
  }

  lemma {:induction false} FlattenHasLastPage(pages: seq<seq<TextBlock>>)
    requires pages != [] && pages[|pages| - 1] != []
    ensures Flatten(pages) != []
  {
    if |pages| > 1 {
      FlattenHasLastPage(pages[1..]);
    }
    assert Flatten(pages) == pages[0] + Flatten(pages[1..]);
  }
}
