/**
 * How one line of text is classified: as a heading of level 1 to 3
 * (`getHeadingLevel`), as a list item (the list-marker regular
 * expression of the rendering loop), or as plain text.
 */
module Classify {
  import opened Wrappers
  import opened JsStrings
  import opened FontSizes

  // ---------------------------------------------------------------------
  // Heading levels.
  // ---------------------------------------------------------------------

  /** `Array.prototype.indexOf`: the first position of `v`, or -1. */
  function IndexOf(xs: seq<nat>, v: nat): (i: int)
    ensures -1 <= i < |xs|
    ensures i == -1 <==> v !in xs
    ensures 0 <= i ==> xs[i] == v && v !in xs[..i]
  {
    if xs == [] then -1
    else if xs[0] == v then 0
    else
      var r := IndexOf(xs[1..], v);
      assert xs == [xs[0]] + xs[1..];
      if r == -1 then -1
      else
        assert xs[..r + 1] == [xs[0]] + xs[1..][..r];
        r + 1
  }

  /** In a strictly descending list a value's position is the place it
      holds. */
  lemma IndexOfDescending(xs: seq<nat>, i: nat)
    requires StrictlyDescending(xs) && i < |xs|
    ensures IndexOf(xs, xs[i]) == i
  {
    var r := IndexOf(xs, xs[i]);
    assert xs[i] in xs;
  }

  /** The bold fallback of `getHeadingLevel`: bold, at least body size,
      under 80 characters and not ending like a clause (`.`, `,` or `;`). */
  predicate BoldHeadingCandidate(fontSize: nat, body: nat, isBold: bool, text: string)
  {
    isBold && fontSize >= body && |text| < 80
    && !EndsWith(text, '.') && !EndsWith(text, ',') && !EndsWith(text, ';')
  }

  /** `getHeadingLevel`: `Some(level)` for a heading, `None` for `null`.
      A size above 1.15 times the body size is ranked by its position in
      the heading sizes (first 1, second 2, any later one 3); a size that is
      not found there falls through to the bold fallback, which gives 3. */
  function HeadingLevel(fontSize: nat, body: nat, headingSizes: seq<nat>, isBold: bool, text: string): (level: Option<nat>)
    ensures level.Some? ==> 1 <= level.value <= 3
    ensures |text| > 200 ==> level == None
    ensures !AboveBody(fontSize, body) && !BoldHeadingCandidate(fontSize, body, isBold, text) ==> level == None
  {
    if |text| > 200 then None
    else
      var idx := if AboveBody(fontSize, body) then IndexOf(headingSizes, fontSize) else -1;
      if idx == 0 then Some(1)
      else if idx == 1 then Some(2)
      else if idx >= 2 then Some(3)
      else if BoldHeadingCandidate(fontSize, body, isBold, text) then Some(3)
      else None
  }

  /** Among the sizes `all` of a document, with the heading sizes drawn
      from them, a line of at most 200 characters is a heading exactly when
      its size is above 1.15 times the body size or it passes the bold
      fallback: the size is then always found among the heading sizes, so
      the fall-through never happens. */
  lemma HeadingIff(all: seq<nat>, body: nat, fontSize: nat, isBold: bool, text: string)
    requires fontSize in all
    ensures HeadingLevel(fontSize, body, HeadingSizes(all, body), isBold, text).Some?
            <==> |text| <= 200 && (AboveBody(fontSize, body) || BoldHeadingCandidate(fontSize, body, isBold, text))
    ensures |text| <= 200 && !AboveBody(fontSize, body) && BoldHeadingCandidate(fontSize, body, isBold, text)
            ==> HeadingLevel(fontSize, body, HeadingSizes(all, body), isBold, text) == Some(3)
  {
    HeadingSizesSpec(all, body);
  }

  /** A size above 1.15 times the body size, on a line of at most 200
      characters, gets the level of its rank among the heading sizes:
      the `i`-th largest heading size (from 0) gets level `min(i + 1, 3)`,
      whatever the boldness and the text. */
  lemma HeadingLevelByRank(all: seq<nat>, body: nat, i: nat, isBold: bool, text: string)
    requires i < |HeadingSizes(all, body)| && |text| <= 200
    ensures HeadingLevel(HeadingSizes(all, body)[i], body, HeadingSizes(all, body), isBold, text)
            == Some(if i < 2 then i + 1 else 3)
  {
    var hs := HeadingSizes(all, body);
    HeadingSizesSpec(all, body);
    assert hs[i] in hs;
    IndexOfDescending(hs, i);
  }

  /** Text at the body size is a heading only through the bold fallback. */
  lemma BodySizeOnlyBoldHeading(headingSizes: seq<nat>, body: nat, isBold: bool, text: string)
    ensures HeadingLevel(body, body, headingSizes, isBold, text).Some?
            <==> |text| <= 200 && BoldHeadingCandidate(body, body, isBold, text)
  {
  }

  /** Level 1 goes to the largest size of the document, provided it is
      above 1.15 times the body size, and to nothing else. */
  lemma LevelOneIsLargest(all: seq<nat>, body: nat, fontSize: nat, isBold: bool, text: string)
    requires fontSize in all
    ensures HeadingLevel(fontSize, body, HeadingSizes(all, body), isBold, text) == Some(1)
            <==> |text| <= 200 && AboveBody(fontSize, body) && forall s :: s in all ==> s <= fontSize
  {
    var hs := HeadingSizes(all, body);
    HeadingSizesSpec(all, body);
    if |text| <= 200 && AboveBody(fontSize, body) {
      var idx := IndexOf(hs, fontSize);
      forall s | s in all && idx == 0 ensures s <= fontSize {
        assert s > fontSize ==> s in hs;
        assert forall j :: 0 < j < |hs| ==> hs[j] < hs[0];
      }
      assert fontSize in hs;
      assert hs[0] in all;
    }
  }

  /** A larger size never gets a deeper heading level than a smaller one,
      when both are above 1.15 times the body size. */
  lemma LargerSizeNoDeeperLevel(all: seq<nat>, body: nat, big: nat, small: nat, b1: bool, b2: bool, t1: string, t2: string)
    requires big in all && small in all && big > small
    requires AboveBody(small, body) && |t1| <= 200 && |t2| <= 200
    ensures HeadingLevel(big, body, HeadingSizes(all, body), b1, t1).Some?
    ensures HeadingLevel(small, body, HeadingSizes(all, body), b2, t2).Some?
    ensures HeadingLevel(big, body, HeadingSizes(all, body), b1, t1).value
            <= HeadingLevel(small, body, HeadingSizes(all, body), b2, t2).value
  {
    var hs := HeadingSizes(all, body);
    HeadingSizesSpec(all, body);
    var i := IndexOf(hs, big);
    var j := IndexOf(hs, small);
    assert big in hs && small in hs;
  }

  // ---------------------------------------------------------------------
  // List markers.
  // ---------------------------------------------------------------------

  /** The bullets of the character class `[•●○▪▸►\-–—\*]`. */
  predicate IsBullet(c: char)
  {
    c == '\U{2022}' || c == '\U{25CF}' || c == '\U{25CB}' || c == '\U{25AA}' || c == '\U{25B8}'
    || c == '\U{25BA}' || c == '-' || c == '\U{2013}' || c == '\U{2014}' || c == '*'
  }

  /** `\d` without the `u` flag. */
  predicate IsDigit(c: char)
  {
    '0' <= c <= '9'
  }

  /** `[a-z]` under the `i` flag: the ASCII letters of either case (no
      character outside ASCII folds onto one without the `u` flag). */
  predicate IsLetter(c: char)
  {
    ('a' <= c <= 'z') || ('A' <= c <= 'Z')
  }

  /** `[\.\)]`. */
  predicate IsCloser(c: char)
  {
    c == '.' || c == ')'
  }

  /** The length of the run of digits at the start of `s`. */
  function DigitRun(s: string): (n: nat)
    ensures n <= |s|
    ensures forall i :: 0 <= i < n ==> IsDigit(s[i])
    ensures n < |s| ==> !IsDigit(s[n])
  {
    if s != [] && IsDigit(s[0]) then 1 + DigitRun(s[1..]) else 0
  }

  /** One of the three alternatives of the marker group: a bullet, digits
      followed by `.` or `)` and a white-space character, or one letter
      followed by `.` or `)` and a white-space character. */
  predicate IsMarker(w: string)
  {
    (|w| == 1 && IsBullet(w[0]))
    || (|w| >= 3 && (forall i :: 0 <= i < |w| - 2 ==> IsDigit(w[i])) && IsCloser(w[|w| - 2]) && IsSpace(w[|w| - 1]))
    || (|w| == 3 && IsLetter(w[0]) && IsCloser(w[1]) && IsSpace(w[2]))
  }

  /** `text.match(/^[\s]*([•●○▪▸►\-–—\*]|\d+[\.\)]\s|[a-z][\.\)]\s)/i)`:
      the length of the matched text `match[0]`, or `None` for no match.
      The first character after the leading white space decides the
      alternative; backtracking into `[\s]*` or `\d+` cannot produce
      another match, since the alternatives never start with white space
      and a shorter digit run is followed by a digit. */
  function ListMarker(text: string): (m: Option<nat>)
    ensures m.Some? ==> LeadingSpaces(text) < m.value <= |text|
  {
    var n := LeadingSpaces(text);
    var rest := text[n..];
    if rest == [] then None
    else if IsBullet(rest[0]) then Some(n + 1)
    else if IsDigit(rest[0]) then
      var d := DigitRun(rest);
      if d + 1 < |rest| && IsCloser(rest[d]) && IsSpace(rest[d + 1]) then Some(n + d + 2) else None
    else if IsLetter(rest[0]) && 2 < |rest| && IsCloser(rest[1]) && IsSpace(rest[2]) then Some(n + 3)
    else None
  }

  /** What the regular expression promises: the match is white space
      followed by one marker. */
  lemma ListMarkerSound(text: string)
    requires ListMarker(text).Some?
    ensures AllSpace(text[..LeadingSpaces(text)])
    ensures IsMarker(text[LeadingSpaces(text)..ListMarker(text).value])
  {
    var n := LeadingSpaces(text);
    var k := ListMarker(text).value;
    assert forall i :: 0 <= i < n ==> text[..n][i] == text[i];
    MarkerOfRest(text[n..], k - n);
    assert text[n..][..k - n] == text[n..k];
  }

  /** The marker part of `ListMarkerSound`, on the text after the leading
      white space. */
  lemma MarkerOfRest(rest: string, m: nat)
    requires rest != [] && !IsSpace(rest[0]) && m <= |rest|
    requires m == (if IsBullet(rest[0]) then 1 else if IsDigit(rest[0]) then DigitRun(rest) + 2 else 3)
    requires IsBullet(rest[0]) || (IsDigit(rest[0]) && DigitRun(rest) + 1 < |rest| && IsCloser(rest[DigitRun(rest)]) && IsSpace(rest[DigitRun(rest) + 1]))
             || (IsLetter(rest[0]) && 2 < |rest| && IsCloser(rest[1]) && IsSpace(rest[2]))
    ensures IsMarker(rest[..m])
  {
    var w := rest[..m];
    assert forall i :: 0 <= i < m ==> w[i] == rest[i];
  }

  /** And every text that starts with white space and a marker matches:
      the function finds that very marker. */
  lemma ListMarkerComplete(text: string, n: nat, k: nat)
    requires n < k <= |text| && AllSpace(text[..n]) && IsMarker(text[n..k])
    ensures ListMarker(text) == Some(k)
  {
    var w := text[n..k];
    assert forall i :: 0 <= i < n ==> text[..n][i] == text[i];
    assert !IsSpace(w[0]);
    assert LeadingSpaces(text) == n;
    var rest := text[n..];
    assert forall i :: 0 <= i < |w| ==> rest[i] == w[i];
    if IsDigit(w[0]) && |w| >= 3 {
      if !IsBullet(w[0]) && !(|w| == 3 && IsLetter(w[0])) {
        assert forall i :: 0 <= i < |w| - 2 ==> IsDigit(rest[i]);
        assert !IsDigit(rest[|w| - 2]);
        assert DigitRun(rest) == |w| - 2;
      }
    }
  }

  /** `/^\d+[\.\)]/.test(t)`. */
  predicate StartsOrdered(t: string)
  {
    0 < DigitRun(t) < |t| && IsCloser(t[DigitRun(t)])
  }

  /** `/^\d+[\.\)]/.test(listMatch[0].trim())`: the item is numbered. */
  predicate IsOrderedItem(text: string, k: nat)
    requires k <= |text|
  {
    StartsOrdered(Trim(text[..k]))
  }

  /** Trimming a prefix of `text` that is white space, then the slice
      `text[n..j]` with no white space at its ends, then more white space. */
  lemma TrimPrefix(text: string, n: nat, j: nat, k: nat)
    requires n < j <= k <= |text| && AllSpace(text[..n]) && AllSpace(text[j..k])
    requires !IsSpace(text[n]) && !IsSpace(text[j - 1])
    ensures Trim(text[..k]) == text[n..j]
  {
    var p := text[..k];
    assert p[..n] == text[..n];
    assert p[j..] == text[j..k];
    assert p[n] == text[n] && p[j - 1] == text[j - 1];
    TrimExact(p, n, j);
    assert p[n..j] == text[n..j];
  }

  /** A marker starts with a character other than white space; a longer
      one ends with its closer and one white-space character. */
  lemma MarkerEnds(w: string)
    requires IsMarker(w)
    ensures !IsSpace(w[0])
    ensures |w| > 1 ==> |w| >= 3 && IsCloser(w[|w| - 2]) && !IsSpace(w[|w| - 2]) && IsSpace(w[|w| - 1])
  {
  }

  /** A marker with the white space at its end cut off. */
  function MarkerCore(w: string): string
    requires w != []
  {
    if |w| == 1 then w else w[..|w| - 1]
  }

  /** The marker with the white space cut off both ends: the bullet, the
      digits and their closer, or the letter and its closer. */
  lemma TrimmedMarker(text: string)
    requires ListMarker(text).Some?
    ensures Trim(text[..ListMarker(text).value]) == MarkerCore(text[LeadingSpaces(text)..ListMarker(text).value])
  {
    ListMarkerSound(text);
    TrimMarkerSlice(text, LeadingSpaces(text), ListMarker(text).value);
  }

  lemma TrimMarkerSlice(text: string, n: nat, k: nat)
    requires n < k <= |text| && AllSpace(text[..n]) && IsMarker(text[n..k])
    ensures Trim(text[..k]) == MarkerCore(text[n..k])
  {
    var w := text[n..k];
    MarkerEnds(w);
    assert w[0] == text[n];
    if k == n + 1 {
      TrimPrefix(text, n, k, k);
    } else {
      TrimLongMarker(text, n, k);
      assert MarkerCore(w) == w[..|w| - 1] == text[n..k - 1];
    }
  }

  /** A marker of three or more characters loses its final white space. */
  lemma TrimLongMarker(text: string, n: nat, k: nat)
    requires n + 1 < k <= |text| && AllSpace(text[..n]) && IsMarker(text[n..k])
    ensures Trim(text[..k]) == text[n..k - 1]
  {
    var w := text[n..k];
    MarkerEnds(w);
    assert w[0] == text[n];
    assert w[|w| - 2] == text[k - 2] && w[|w| - 1] == text[k - 1];
    assert AllSpace(text[k - 1..k]) by {
      assert text[k - 1..k][0] == text[k - 1];
    }
    TrimPrefix(text, n, k - 1, k);
  }

  /** `DigitRun` is the length of the leading digits. */
  lemma {:induction false} DigitRunExact(s: string, d: nat)
    requires d < |s| && !IsDigit(s[d]) && forall i :: 0 <= i < d ==> IsDigit(s[i])
    ensures DigitRun(s) == d
  {
    if d > 0 {
      assert forall i :: 0 <= i < d - 1 ==> s[1..][i] == s[i + 1];
      DigitRunExact(s[1..], d - 1);
    }
  }

  /** Once trimmed, a marker reads as numbered exactly when it is the
      digit alternative. */
  lemma MarkerOrdered(w: string)
    requires IsMarker(w)
    ensures StartsOrdered(MarkerCore(w)) <==> IsDigit(w[0])
  {
    var t := MarkerCore(w);
    assert t[0] == w[0];
    if |w| > 1 && IsDigit(w[0]) {
      assert forall i :: 0 <= i < |w| - 2 ==> IsDigit(w[i]);
      assert forall i :: 0 <= i < |t| - 1 ==> t[i] == w[i];
      assert t[|t| - 1] == w[|w| - 2];
      DigitRunExact(t, |t| - 1);
    }
  }

  /** A list item is numbered exactly when its marker is the digit
      alternative. */
  lemma OrderedIffDigits(text: string)
    requires ListMarker(text).Some?
    ensures IsOrderedItem(text, ListMarker(text).value) <==> IsDigit(text[LeadingSpaces(text)])
  {
    var n := LeadingSpaces(text);
    var k := ListMarker(text).value;
    ListMarkerSound(text);
    TrimmedMarker(text);
    MarkerOrdered(text[n..k]);
    assert text[n..k][0] == text[n];
  }
}
