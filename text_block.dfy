/**
 * One positioned run of text extracted from a PDF page, and the bold/italic
 * flags derived from its font name.
 *
 * Font sizes are kept in tenths of a page unit: the extractor rounds every
 * size to one decimal place, so `fontSize == 123` stands for 12.3.
 */
module TextBlocks {
  import opened JsStrings

  datatype TextBlock = TextBlock(
    text: string,
    fontSize: nat,  // tenths of a page unit
    fontName: string,
    x: real,
    y: real,
    width: real,
    height: real,
    isBold: bool,
    isItalic: bool)

  /** The lower-casing of one character, as far as `includes` of the ASCII
      keywords below can tell: `A`-`Z` become `a`-`z` and the Kelvin sign
      U+212A becomes `k`. Every other character that `toLowerCase` changes
      turns into characters outside the keywords' letters (U+0130 becomes
      `i` followed by a combining dot, and no keyword has `i` followed by a
      non-letter), so it is left unchanged here. */
  function FoldCase(c: char): (d: char)
    ensures 'a' <= d <= 'z' ==> d == c || ('A' <= c <= 'Z' && d as int == c as int + 32) || c == '\U{212A}'
  {
    if 'A' <= c <= 'Z' then (c as int + 32) as char
    else if c == '\U{212A}' then 'k'
    else c
  }

  function Lower(s: string): (r: string)
    ensures |r| == |s|
  {
    seq(|s|, i requires 0 <= i < |s| => FoldCase(s[i]))
  }

  /** `fontName.toLowerCase().includes('bold') || ... includes('black')`. */
  predicate IsBoldFontName(fontName: string)
  {
    Contains(Lower(fontName), "bold") || Contains(Lower(fontName), "black")
  }

  /** `fontName.toLowerCase().includes('italic') || ... includes('oblique')`. */
  predicate IsItalicFontName(fontName: string)
  {
    Contains(Lower(fontName), "italic") || Contains(Lower(fontName), "oblique")
  }

  /** `c` is the lower-case ASCII letter `p` written in either case, or
      the Kelvin sign standing for `k`. */
  predicate SameLetter(c: char, p: char)
  {
    c == p || c as int + 32 == p as int || (p == 'k' && c == '\U{212A}')
  }

  predicate LowerLetters(pat: string)
  {
    forall k :: 0 <= k < |pat| ==> 'a' <= pat[k] <= 'z'
  }

  /** `pat` is found at index `i` of `name` when letter case is ignored. */
  predicate FoundAt(name: string, pat: string, i: int)
  {
    0 <= i && i + |pat| <= |name| && forall k :: 0 <= k < |pat| ==> SameLetter(name[i + k], pat[k])
  }

  ghost predicate FoundIgnoringCase(name: string, pat: string)
  {
    exists i :: FoundAt(name, pat, i)
  }

  /** Lower-casing a character gives the letter `p` exactly when the
      character is `p` in either case. */
  lemma FoldCaseSameLetter(c: char, p: char)
    requires 'a' <= p <= 'z'
    ensures FoldCase(c) == p <==> SameLetter(c, p)
  {
  }

  /** Searching the lower-cased name for a lower-case keyword is a search
      of the name itself that ignores letter case. */
  lemma {:induction false} ContainsLowerIff(name: string, pat: string)
    requires LowerLetters(pat)
    ensures Contains(Lower(name), pat) <==> FoundIgnoringCase(name, pat)
  {
    var l := Lower(name);
    forall i | OccursAt(l, pat, i) ensures FoundAt(name, pat, i) {
      forall k | 0 <= k < |pat| ensures SameLetter(name[i + k], pat[k]) {
        assert l[i..i + |pat|][k] == l[i + k];
        FoldCaseSameLetter(name[i + k], pat[k]);
      }
    }
    forall i | FoundAt(name, pat, i) ensures OccursAt(l, pat, i) {
      forall k | 0 <= k < |pat| ensures l[i..i + |pat|][k] == pat[k] {
        assert l[i..i + |pat|][k] == l[i + k];
        FoldCaseSameLetter(name[i + k], pat[k]);
      }
    }
  }

  /** The flags as case-blind searches of the font name itself. */
  lemma FlagsByLetters(fontName: string)
    ensures IsBoldFontName(fontName)
            <==> FoundIgnoringCase(fontName, "bold") || FoundIgnoringCase(fontName, "black")
    ensures IsItalicFontName(fontName)
            <==> FoundIgnoringCase(fontName, "italic") || FoundIgnoringCase(fontName, "oblique")
  {
    ContainsLowerIff(fontName, "bold");
    ContainsLowerIff(fontName, "black");
    ContainsLowerIff(fontName, "italic");
    ContainsLowerIff(fontName, "oblique");
  }

  /** The block the extractor builds from one text item, once its font size
      has been computed: it is bold when its font name holds `bold` or
      `black` in any letter case, and italic when it holds `italic` or
      `oblique`. */
  function NewBlock(text: string, fontSize: nat, fontName: string, x: real, y: real, width: real, height: real): (b: TextBlock)
    ensures b.text == text && b.fontSize == fontSize && b.fontName == fontName
    ensures b.x == x && b.y == y && b.width == width && b.height == height
    ensures b.isBold <==> FoundIgnoringCase(fontName, "bold") || FoundIgnoringCase(fontName, "black")
    ensures b.isItalic <==> FoundIgnoringCase(fontName, "italic") || FoundIgnoringCase(fontName, "oblique")
  {
    FlagsByLetters(fontName);
    TextBlock(text, fontSize, fontName, x, y, width, height, IsBoldFontName(fontName), IsItalicFontName(fontName))
  }

  lemma LowerAppend(a: string, b: string)
    ensures Lower(a + b) == Lower(a) + Lower(b)
  {
  }

  /** A keyword found in a font name is still found once anything is put
      before or after the name: the flags look for the keyword anywhere. */
  lemma {:induction false} ContainsInContext(p: string, s: string, q: string, pat: string)
    requires Contains(s, pat)
    ensures Contains(p + s + q, pat)
  {
    var i :| OccursAt(s, pat, i);
    assert (p + s + q)[|p| + i..|p| + i + |pat|] == s[i..i + |pat|];
    assert OccursAt(p + s + q, pat, |p| + i);
  }

  /** A font name keeps its bold and italic flags inside a longer name
      (`Helvetica-Bold` inside `Helvetica-BoldOblique`). */
  lemma {:induction false} FlagsSurviveLongerName(p: string, name: string, q: string)
    ensures IsBoldFontName(name) ==> IsBoldFontName(p + name + q)
    ensures IsItalicFontName(name) ==> IsItalicFontName(p + name + q)
  {
    LowerAppend(p + name, q);
    LowerAppend(p, name);
    var l := Lower(p + name + q);
    assert l == Lower(p) + Lower(name) + Lower(q);
    forall pat | Contains(Lower(name), pat) ensures Contains(l, pat) {
      ContainsInContext(Lower(p), Lower(name), Lower(q), pat);
    }
  }

  /** `c` and `d` are the same character up to the case of an ASCII letter. */
  predicate CaseVariants(c: char, d: char)
  {
    c == d || ('A' <= c <= 'Z' && d as int == c as int + 32) || ('A' <= d <= 'Z' && c as int == d as int + 32)
  }

  /** The flags ignore the case of the font name's ASCII letters:
      `HELVETICA-BOLD` and `helvetica-bold` get the same flags. */
  lemma {:induction false} FlagsIgnoreCase(a: string, b: string)
    requires |a| == |b| && forall i :: 0 <= i < |a| ==> CaseVariants(a[i], b[i])
    ensures IsBoldFontName(a) <==> IsBoldFontName(b)
    ensures IsItalicFontName(a) <==> IsItalicFontName(b)
  {
    forall i | 0 <= i < |a| ensures Lower(a)[i] == Lower(b)[i] {
      assert CaseVariants(a[i], b[i]);
    }
    assert Lower(a) == Lower(b);
  }

  /** Typical PostScript font names and the flags they get. */
  lemma BoldFontExample()
    ensures IsBoldFontName("Arial-BoldMT") && !IsItalicFontName("Arial-BoldMT")
  {
    var l := Lower("Arial-BoldMT");
    assert l[6..10] == "bold" by { assert l[6] == 'b' && l[7] == 'o' && l[8] == 'l' && l[9] == 'd'; }
    assert OccursAt(l, "bold", 6);
    forall k | 0 <= k < |l| ensures l[k] != 'c' && l[k] != 'q' {
      assert l[k] == FoldCase("Arial-BoldMT"[k]);
    }
    AbsentLetter(l, "italic", 5);
    AbsentLetter(l, "oblique", 4);
  }

  lemma BoldObliqueFontExample()
    ensures IsBoldFontName("Helvetica-BoldOblique") && IsItalicFontName("Helvetica-BoldOblique")
  {
    var l := Lower("Helvetica-BoldOblique");
    assert l[10..14] == "bold" by { assert l[10] == 'b' && l[11] == 'o' && l[12] == 'l' && l[13] == 'd'; }
    assert OccursAt(l, "bold", 10);
    assert l[14..21] == "oblique" by {
      assert l[14] == 'o' && l[15] == 'b' && l[16] == 'l' && l[17] == 'i' && l[18] == 'q' && l[19] == 'u' && l[20] == 'e';
    }
    assert OccursAt(l, "oblique", 14);
  }

  lemma ItalicFontExample()
    ensures !IsBoldFontName("Times-Italic") && IsItalicFontName("Times-Italic")
  {
    var l := Lower("Times-Italic");
    assert l[6..12] == "italic" by {
      assert l[6] == 'i' && l[7] == 't' && l[8] == 'a' && l[9] == 'l' && l[10] == 'i' && l[11] == 'c';
    }
    assert OccursAt(l, "italic", 6);
    forall k | 0 <= k < |l| ensures l[k] != 'b' {
      assert l[k] == FoldCase("Times-Italic"[k]);
    }
    AbsentLetter(l, "bold", 0);
    AbsentLetter(l, "black", 0);
  }

  /** A pattern one of whose letters does not occur in `s` is not found in `s`. */
  lemma AbsentLetter(s: string, pat: string, k: nat)
    requires k < |pat| && pat[k] !in s
    ensures !Contains(s, pat)
  {
    forall i | 0 <= i <= |s| - |pat| ensures !OccursAt(s, pat, i) {
      assert s[i..i + |pat|][k] == s[i + k];
    }
  }
}
