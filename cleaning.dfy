/**
 * The two text clean-ups of the converter: `cleanLine`, applied to
 * headings and plain lines, and `collapseBlankLines`, applied to the
 * joined document.
 */
module Cleaning {
  import opened JsStrings

  // ---------------------------------------------------------------------
  // cleanLine
  // ---------------------------------------------------------------------

  /** `s.replace(/\s+/g, ' ')`: every run of white space becomes a single
      space. */
  function CollapseSpaces(s: string): string
    decreases |s|
  {
    if s == [] then []
    else if IsSpace(s[0]) then " " + CollapseSpaces(s[LeadingSpaces(s)..])
    else [s[0]] + CollapseSpaces(s[1..])
  }

  /** The only white space left is plain spaces, never two in a row, and
      the text starts with white space exactly when `s` does. */
  lemma {:induction false} CollapseSpacesShape(s: string)
    ensures forall i :: 0 <= i < |CollapseSpaces(s)| && IsSpace(CollapseSpaces(s)[i]) ==> CollapseSpaces(s)[i] == ' '
    ensures forall i :: 0 <= i < |CollapseSpaces(s)| - 1 ==> !(IsSpace(CollapseSpaces(s)[i]) && IsSpace(CollapseSpaces(s)[i + 1]))
    ensures s != [] ==> CollapseSpaces(s) != [] && (IsSpace(CollapseSpaces(s)[0]) <==> IsSpace(s[0]))
    decreases |s|
  {
    if s != [] {
      var n := if IsSpace(s[0]) then LeadingSpaces(s) else 1;
      var rest := CollapseSpaces(s[n..]);
      CollapseSpacesShape(s[n..]);
      var head := if IsSpace(s[0]) then " " else [s[0]];
      assert CollapseSpaces(s) == head + rest;
      assert forall i :: 1 <= i < |rest| + 1 ==> (head + rest)[i] == rest[i - 1];
    }
  }

  /** A character that is not white space is copied as it is. */
  lemma CollapseSpacesCons(c: char, t: string)
    requires !IsSpace(c)
    ensures CollapseSpaces([c] + t) == [c] + CollapseSpaces(t)
  {
    assert ([c] + t)[1..] == t;
  }

  /** A whole run of white space becomes one space. */
  lemma CollapseSpacesRun(w: string, t: string)
    requires w != [] && AllSpace(w) && (t == [] || !IsSpace(t[0]))
    ensures CollapseSpaces(w + t) == " " + CollapseSpaces(t)
  {
    LeadingSpacesRun(w, t);
    assert (w + t)[|w|..] == t;
  }

  /** A run of white space between two characters that are not white
      space becomes exactly one space: words are never glued together. */
  lemma {:induction false} CollapseSpacesJoin(a: string, w: string, b: string)
    requires a == [] || !IsSpace(a[|a| - 1])
    requires w != [] && AllSpace(w)
    requires b == [] || !IsSpace(b[0])
    ensures CollapseSpaces(a + w + b) == CollapseSpaces(a) + " " + CollapseSpaces(b)
    decreases |a|, 1
  {
    if a == [] {
      assert a + w + b == w + b;
      CollapseSpacesRun(w, b);
      assert CollapseSpaces(a) + " " + CollapseSpaces(b) == " " + CollapseSpaces(b);
    } else if !IsSpace(a[0]) {
      JoinAfterWord(a, w, b);
    } else {
      JoinAfterSpaces(a, w, b);
    }
  }

  /** Cutting `a` at `n` and regrouping the parts of `a + w + b`. */
  lemma SplitJoined(a: string, w: string, b: string, n: nat)
    requires n <= |a|
    ensures a == a[..n] + a[n..] && a + w + b == a[..n] + (a[n..] + w + b)
  {
  }

  lemma Regroup(p: string, q: string, r: string)
    ensures p + (q + " " + r) == (p + q) + " " + r
  {
  }

  /** `CollapseSpacesJoin` when `a` starts with a character that is not
      white space. */
  lemma {:induction false} JoinAfterWord(a: string, w: string, b: string)
    requires a != [] && !IsSpace(a[0]) && !IsSpace(a[|a| - 1])
    requires w != [] && AllSpace(w)
    requires b == [] || !IsSpace(b[0])
    ensures CollapseSpaces(a + w + b) == CollapseSpaces(a) + " " + CollapseSpaces(b)
    decreases |a|, 0
  {
    var h, t := a[..1], a[1..];
    SplitJoined(a, w, b, 1);
    assert h == [a[0]];
    CollapseSpacesCons(a[0], t + w + b);
    CollapseSpacesCons(a[0], t);
    CollapseSpacesJoin(t, w, b);
    Regroup(h, CollapseSpaces(t), CollapseSpaces(b));
  }

  /** `CollapseSpacesJoin` when `a` starts with white space. */
  lemma {:induction false} JoinAfterSpaces(a: string, w: string, b: string)
    requires a != [] && IsSpace(a[0]) && !IsSpace(a[|a| - 1])
    requires w != [] && AllSpace(w)
    requires b == [] || !IsSpace(b[0])
    ensures CollapseSpaces(a + w + b) == CollapseSpaces(a) + " " + CollapseSpaces(b)
    decreases |a|, 0
  {
    var n := LeadingSpaces(a);
    var v, t := a[..n], a[n..];
    SplitJoined(a, w, b, n);
    CollapseSpacesRun(v, t + w + b);
    CollapseSpacesRun(v, t);
    CollapseSpacesJoin(t, w, b);
    Regroup(" ", CollapseSpaces(t), CollapseSpaces(b));
  }

  /** Collapsing keeps a last character that is not white space. */
  lemma {:induction false} CollapseSpacesLast(s: string)
    requires s != [] && !IsSpace(s[|s| - 1])
    ensures CollapseSpaces(s) != [] && CollapseSpaces(s)[|CollapseSpaces(s)| - 1] == s[|s| - 1]
    decreases |s|
  {
    if IsSpace(s[0]) {
      var n := LeadingSpaces(s);
      assert n < |s|;
      CollapseSpacesLast(s[n..]);
    } else if |s| > 1 {
      CollapseSpacesLast(s[1..]);
    }
  }

  /** The characters `cleanLine` throws away: white space, the soft hyphen
      U+00AD and the replacement character U+FFFD. */
  predicate Dropped(c: char)
  {
    IsSpace(c) || c == '\U{00AD}' || c == '\U{FFFD}'
  }

  /** The text that remains when every dropped character is removed. */
  function Visible(s: string): string
  {
    if s == [] then [] else (if Dropped(s[0]) then [] else [s[0]]) + Visible(s[1..])
  }

  lemma {:induction false} VisibleAppend(a: string, b: string)
    ensures Visible(a + b) == Visible(a) + Visible(b)
  {
    if a != [] {
      assert (a + b)[0] == a[0] && (a + b)[1..] == a[1..] + b;
      VisibleAppend(a[1..], b);
    } else {
      assert a + b == b;
    }
  }

  lemma {:induction false} VisibleAllSpace(s: string)
    requires AllSpace(s)
    ensures Visible(s) == []
  {
    if s != [] {
      assert AllSpace(s[1..]) by {
        forall i | 0 <= i < |s[1..]| ensures IsSpace(s[1..][i]) {
          assert s[1..][i] == s[i + 1];
        }
      }
      VisibleAllSpace(s[1..]);
    }
  }

  lemma {:induction false} VisibleCollapseSpaces(s: string)
    ensures Visible(CollapseSpaces(s)) == Visible(s)
    decreases |s|
  {
    if s != [] {
      if IsSpace(s[0]) {
        var n := LeadingSpaces(s);
        VisibleCollapseSpaces(s[n..]);
        assert s == s[..n] + s[n..];
        VisibleAppend(s[..n], s[n..]);
        assert AllSpace(s[..n]);
        VisibleAllSpace(s[..n]);
        VisibleAppend(" ", CollapseSpaces(s[n..]));
      } else {
        VisibleCollapseSpaces(s[1..]);
        VisibleAppend([s[0]], CollapseSpaces(s[1..]));
      }
    }
  }

  lemma {:induction false} VisibleRemoveAll(s: string, c: char)
    requires Dropped(c)
    ensures Visible(RemoveAll(s, c)) == Visible(s)
  {
    if s != [] {
      VisibleRemoveAll(s[1..], c);
      VisibleAppend(if s[0] == c then "" else [s[0]], RemoveAll(s[1..], c));
    }
  }

  lemma VisibleTrim(s: string)
    ensures Visible(Trim(s)) == Visible(s)
  {
    var r := Trim(s);
    var i := TrimSlice(s);
    var p, q := s[..i], s[i + |r|..];
    assert s == p + r + q;
    VisibleAppend(p + r, q);
    VisibleAppend(p, r);
    VisibleAllSpace(p);
    VisibleAllSpace(q);
  }

  /** `cleanLine`: white-space runs become one space, soft hyphens and
      replacement characters are removed, and the ends are trimmed. */
  function CleanLine(text: string): string
  {
    Trim(RemoveAll(RemoveAll(CollapseSpaces(text), '\U{00AD}'), '\U{FFFD}'))
  }

  /** The cleaned line has no white space at either end, no white space
      but plain spaces, no soft hyphen and no replacement character. */
  lemma CleanLineShape(text: string)
    ensures Trimmed(CleanLine(text))
    ensures '\U{00AD}' !in CleanLine(text) && '\U{FFFD}' !in CleanLine(text)
    ensures forall i :: 0 <= i < |CleanLine(text)| && IsSpace(CleanLine(text)[i]) ==> CleanLine(text)[i] == ' '
  {
    var a := CollapseSpaces(text);
    var b := RemoveAll(a, '\U{00AD}');
    var c := RemoveAll(b, '\U{FFFD}');
    CollapseSpacesShape(text);
    RemoveAllKeeps(a, '\U{00AD}');
    RemoveAllKeeps(b, '\U{FFFD}');
    CleanCharsFrom(a, c);
  }

  /** What holds of every character of `c` holds of its trimmed slice. */
  lemma CleanCharsFrom(a: string, c: string)
    requires forall d :: d in c ==> d in a && d != '\U{00AD}' && d != '\U{FFFD}'
    requires forall i :: 0 <= i < |a| && IsSpace(a[i]) ==> a[i] == ' '
    ensures '\U{00AD}' !in Trim(c) && '\U{FFFD}' !in Trim(c)
    ensures forall i :: 0 <= i < |Trim(c)| && IsSpace(Trim(c)[i]) ==> Trim(c)[i] == ' '
  {
    var r := Trim(c);
    var i := TrimSlice(c);
    forall k | 0 <= k < |r| ensures r[k] in a && r[k] != '\U{00AD}' && r[k] != '\U{FFFD}' {
      assert r[k] == c[i + k];
    }
  }

  /** Cleaning loses no visible text: only dropped characters go. */
  lemma CleanLineKeepsText(text: string)
    ensures Visible(CleanLine(text)) == Visible(text)
  {
    var a := CollapseSpaces(text);
    var b := RemoveAll(a, '\U{00AD}');
    VisibleCollapseSpaces(text);
    VisibleRemoveAll(a, '\U{00AD}');
    VisibleRemoveAll(b, '\U{FFFD}');
    VisibleTrim(RemoveAll(b, '\U{FFFD}'));
  }

  /** Removing soft hyphens and replacement characters keeps a first
      character that is neither. */
  lemma UnmarkFirst(s: string)
    requires s != [] && !Dropped(s[0])
    ensures var r := RemoveAll(RemoveAll(s, '\U{00AD}'), '\U{FFFD}');
            r != [] && r[0] == s[0]
  {
  }

  /** Removing soft hyphens and replacement characters keeps a last
      character that is neither. */
  lemma UnmarkLast(s: string)
    requires s != [] && !Dropped(s[|s| - 1])
    ensures var r := RemoveAll(RemoveAll(s, '\U{00AD}'), '\U{FFFD}');
            r != [] && r[|r| - 1] == s[|s| - 1]
  {
    var n := |s| - 1;
    assert s == s[..n] + [s[n]];
    RemoveAllAppend(s[..n], [s[n]], '\U{00AD}');
    assert RemoveAll(s, '\U{00AD}') == RemoveAll(s[..n], '\U{00AD}') + [s[n]];
    RemoveAllAppend(RemoveAll(s[..n], '\U{00AD}'), [s[n]], '\U{FFFD}');
  }

  /** `cleanLine` keeps one space where white space separates two words:
      the line cleans to the two sides cleaned on their own, joined by a
      single space. */
  lemma CleanLineJoinsWords(a: string, w: string, b: string)
    requires a != [] && !Dropped(a[|a| - 1])
    requires w != [] && AllSpace(w)
    requires b != [] && !Dropped(b[0])
    ensures CleanLine(a + w + b) == CleanLine(a) + " " + CleanLine(b)
  {
    var ca, cb := CollapseSpaces(a), CollapseSpaces(b);
    CollapseSpacesJoin(a, w, b);
    CollapseSpacesLast(a);
    assert cb[0] == b[0];
    var sh, rc := '\U{00AD}', '\U{FFFD}';
    RemoveAllAppend(ca + " ", cb, sh);
    RemoveAllAppend(ca, " ", sh);
    var xa, xb := RemoveAll(ca, sh), RemoveAll(cb, sh);
    assert RemoveAll(" ", sh) == " ";
    RemoveAllAppend(xa + " ", xb, rc);
    RemoveAllAppend(xa, " ", rc);
    assert RemoveAll(" ", rc) == " ";
    var ya, yb := RemoveAll(xa, rc), RemoveAll(xb, rc);
    assert RemoveAll(RemoveAll(ca + " " + cb, sh), rc) == ya + " " + yb;
    UnmarkLast(ca);
    UnmarkFirst(cb);
    TrimJoin(ya, yb);
  }

  /** Cleaning is not idempotent: a soft hyphen between two spaces leaves
      two spaces next to each other, which a second cleaning merges. */
  lemma CleanLineNotIdempotent()
    ensures CleanLine("a \U{00AD} b") == "a  b"
    ensures CleanLine("a  b") == "a b"
  {
    SoftHyphenBetweenSpaces();
    DoubleSpace();
  }

  lemma SoftHyphenBetweenSpaces()
    ensures CleanLine("a \U{00AD} b") == "a  b"
  {
    SoftHyphenDropped();
    TrimmedUnchanged("a  b");
  }

  lemma SoftHyphenDropped()
    ensures RemoveAll(RemoveAll(CollapseSpaces("a \U{00AD} b"), '\U{00AD}'), '\U{FFFD}') == "a  b"
  {
    SoftHyphenKeptBySpaceRuns();
    SoftHyphenRemoved();
    NothingToRemove("a  b", '\U{FFFD}');
  }

  /** A text without white space at its ends is its own trim. */
  lemma TrimmedUnchanged(s: string)
    requires s != [] && Trimmed(s)
    ensures Trim(s) == s
  {
    TrimExact(s, 0, |s|);
  }

  lemma NothingToRemove(s: string, c: char)
    requires c !in s
    ensures RemoveAll(s, c) == s
  {
    RemoveAllSpec(s, c);
  }

  lemma SoftHyphenKeptBySpaceRuns()
    ensures CollapseSpaces("a \U{00AD} b") == "a \U{00AD} b"
  {
    CollapseSpacesKeeps('b', []);
    CollapseSpacesSingle(' ', "b");
    CollapseSpacesKeeps('\U{00AD}', " b");
    CollapseSpacesSingle(' ', "\U{00AD} b");
    CollapseSpacesKeeps('a', " \U{00AD} b");
  }

  /** A character other than white space is copied as it is. */
  lemma CollapseSpacesKeeps(c: char, t: string)
    requires !IsSpace(c)
    ensures CollapseSpaces([c] + t) == [c] + CollapseSpaces(t)
  {
    assert ([c] + t)[1..] == t;
  }

  /** A single white-space character becomes one space. */
  lemma CollapseSpacesSingle(c: char, t: string)
    requires IsSpace(c) && (t == [] || !IsSpace(t[0]))
    ensures CollapseSpaces([c] + t) == " " + CollapseSpaces(t)
  {
    assert ([c] + t)[1..] == t;
    assert LeadingSpaces(t) == 0;
  }

  lemma SoftHyphenRemoved()
    ensures RemoveAll("a \U{00AD} b", '\U{00AD}') == "a  b"
  {
    assert "a \U{00AD} b" == "a " + "\U{00AD}" + " b";
    RemoveAllAppend("a " + "\U{00AD}", " b", '\U{00AD}');
    RemoveAllAppend("a ", "\U{00AD}", '\U{00AD}');
    NothingToRemove("a ", '\U{00AD}');
    NothingToRemove(" b", '\U{00AD}');
    assert RemoveAll("\U{00AD}", '\U{00AD}') == "";
  }

  lemma DoubleSpace()
    ensures CleanLine("a  b") == "a b"
  {
    DoubleSpaceDropped();
    TrimmedUnchanged("a b");
  }

  lemma DoubleSpaceDropped()
    ensures RemoveAll(RemoveAll(CollapseSpaces("a  b"), '\U{00AD}'), '\U{FFFD}') == "a b"
  {
    DoubleSpaceCollapsed();
    NothingToRemove("a b", '\U{00AD}');
    NothingToRemove("a b", '\U{FFFD}');
  }

  lemma DoubleSpaceCollapsed()
    ensures CollapseSpaces("a  b") == "a b"
  {
    assert CollapseSpaces("b") == "b";
    assert LeadingSpaces("b") == 0;
    assert LeadingSpaces("  b") == 2 && "  b"[2..] == "b";
    assert CollapseSpaces("  b") == " b";
    assert "a  b"[1..] == "  b";
  }

  // ---------------------------------------------------------------------
  // collapseBlankLines
  // ---------------------------------------------------------------------

  /** The length of the run of line feeds at the start of `s`. */
  function NewlineRun(s: string): (n: nat)
    ensures n <= |s|
    ensures forall i :: 0 <= i < n ==> s[i] == '\n'
    ensures n < |s| ==> s[n] != '\n'
  {
    if s != [] && s[0] == '\n' then 1 + NewlineRun(s[1..]) else 0
  }

  /** No three line feeds in a row: at most one blank line anywhere. */
  predicate NoTriple(s: string)
  {
    forall i :: 0 <= i < |s| - 2 ==> !(s[i] == '\n' && s[i + 1] == '\n' && s[i + 2] == '\n')
  }

  /** `text.replace(/\n{3,}/g, '\n\n')`: every run of three or more line
      feeds becomes two. */
  function CollapseBlankLines(s: string): (r: string)
    ensures s != [] ==> r != [] && (r[0] == '\n' <==> s[0] == '\n')
    decreases |s|
  {
    if s == [] then []
    else if s[0] == '\n' then
      var n := NewlineRun(s);
      (if n >= 3 then "\n\n" else s[..n]) + CollapseBlankLines(s[n..])
    else [s[0]] + CollapseBlankLines(s[1..])
  }

  /** A short run of line feeds, or one other character, put before a text
      without three line feeds that does not start with a line feed (when
      the run is not), makes a text without three line feeds. */
  lemma NoTriplePrepend(a: string, b: string)
    requires NoTriple(b)
    requires (|a| == 1 && a[0] != '\n') || (|a| <= 2 && (forall i :: 0 <= i < |a| ==> a[i] == '\n') && (b != [] ==> b[0] != '\n'))
    ensures NoTriple(a + b)
  {
    var s := a + b;
    forall i | 0 <= i < |s| - 2 ensures !(s[i] == '\n' && s[i + 1] == '\n' && s[i + 2] == '\n') {
      if i >= |a| {
        assert s[i] == b[i - |a|] && s[i + 1] == b[i - |a| + 1] && s[i + 2] == b[i - |a| + 2];
      } else if |a| == 1 && a[0] != '\n' {
        assert s[0] == a[0];
      } else {
        assert s[|a|] == b[0];
      }
    }
  }

  /** The collapsed text never holds three line feeds in a row. */
  lemma {:induction false} CollapseHasNoTriple(s: string)
    ensures NoTriple(CollapseBlankLines(s))
    decreases |s|
  {
    if s != [] {
      if s[0] == '\n' {
        var n := NewlineRun(s);
        CollapseHasNoTriple(s[n..]);
        NoTriplePrepend(if n >= 3 then "\n\n" else s[..n], CollapseBlankLines(s[n..]));
      } else {
        CollapseHasNoTriple(s[1..]);
        NoTriplePrepend([s[0]], CollapseBlankLines(s[1..]));
      }
    }
  }

  /** Collapsing only removes line feeds: with the line feeds taken out,
      the text is unchanged. */
  lemma {:induction false} CollapseKeepsText(s: string)
    ensures RemoveAll(CollapseBlankLines(s), '\n') == RemoveAll(s, '\n')
    decreases |s|
  {
    if s != [] {
      if s[0] == '\n' {
        var n := NewlineRun(s);
        var head := if n >= 3 then "\n\n" else s[..n];
        CollapseKeepsText(s[n..]);
        RemoveAllAppend(head, CollapseBlankLines(s[n..]), '\n');
        assert s == s[..n] + s[n..];
        RemoveAllAppend(s[..n], s[n..], '\n');
        NoNewlineLeft(head);
        NoNewlineLeft(s[..n]);
      } else {
        CollapseKeepsText(s[1..]);
        RemoveAllAppend([s[0]], CollapseBlankLines(s[1..]), '\n');
        assert s == [s[0]] + s[1..];
        RemoveAllAppend([s[0]], s[1..], '\n');
      }
    }
  }

  lemma {:induction false} NoNewlineLeft(s: string)
    requires forall i :: 0 <= i < |s| ==> s[i] == '\n'
    ensures RemoveAll(s, '\n') == []
  {
    if s != [] {
      NoNewlineLeft(s[1..]);
    }
  }

  /** A text without three line feeds in a row is left as it is, so
      collapsing twice is collapsing once. */
  lemma {:induction false} CollapseFixesNoTriple(s: string)
    requires NoTriple(s)
    ensures CollapseBlankLines(s) == s
    decreases |s|
  {
    if s != [] {
      var n := if s[0] == '\n' then NewlineRun(s) else 1;
      if s[0] == '\n' {
        assert |s| >= 3 ==> !(s[0] == '\n' && s[1] == '\n' && s[2] == '\n');
      }
      NoTripleSlice(s, n, |s|);
      assert s[n..|s|] == s[n..];
      CollapseFixesNoTriple(s[n..]);
      assert s == s[..n] + s[n..];
    }
  }

  lemma CollapseIdempotent(s: string)
    ensures CollapseBlankLines(CollapseBlankLines(s)) == CollapseBlankLines(s)
  {
    CollapseHasNoTriple(s);
    CollapseFixesNoTriple(CollapseBlankLines(s));
  }

  /** A slice of a text without three line feeds has none either. */
  lemma NoTripleSlice(s: string, i: nat, j: nat)
    requires NoTriple(s) && i <= j <= |s|
    ensures NoTriple(s[i..j])
  {
    var t := s[i..j];
    forall k | 0 <= k < |t| - 2 ensures !(t[k] == '\n' && t[k + 1] == '\n' && t[k + 2] == '\n') {
      assert t[k] == s[i + k] && t[k + 1] == s[i + k + 1] && t[k + 2] == s[i + k + 2];
    }
  }

  /** Trimming keeps a text free of three line feeds in a row. */
  lemma TrimKeepsNoTriple(s: string)
    requires NoTriple(s)
    ensures NoTriple(Trim(s))
  {
    var r := Trim(s);
    var i := TrimSlice(s);
    NoTripleSlice(s, i, i + |r|);
  }

  /** A character other than a line feed ends every run of line feeds, so
      what precedes it and what follows it are collapsed apart. */
  lemma {:induction false} CollapseSplit(x: string, y: string)
    requires x != [] && x[|x| - 1] != '\n'
    ensures CollapseBlankLines(x + y) == CollapseBlankLines(x) + CollapseBlankLines(y)
    decreases |x|, 2
  {
    if x[0] == '\n' {
      CollapseSplitRun(x, y);
    } else {
      CollapseSplitChar(x, y);
    }
  }

  lemma {:induction false} CollapseSplitRun(x: string, y: string)
    requires x != [] && x[|x| - 1] != '\n' && x[0] == '\n'
    ensures CollapseBlankLines(x + y) == CollapseBlankLines(x) + CollapseBlankLines(y)
    decreases |x|, 1
  {
    var n := NewlineRun(x);
    var r, t := x[..n], x[n..];
    assert x == r + t;
    CollapseSplit(t, y);
    CollapseSplitAfterRun(r, t, y);
  }

  /** The step of `CollapseSplitRun`: a run of line feeds in front of a
      text that already splits. */
  lemma CollapseSplitAfterRun(r: string, t: string, y: string)
    requires r != [] && (forall i :: 0 <= i < |r| ==> r[i] == '\n')
    requires t != [] && t[0] != '\n'
    requires CollapseBlankLines(t + y) == CollapseBlankLines(t) + CollapseBlankLines(y)
    ensures CollapseBlankLines(r + t + y) == CollapseBlankLines(r + t) + CollapseBlankLines(y)
  {
    CollapseRunThen(r, t, y);
    CollapseRun(r, t);
    var h := if |r| >= 3 then "\n\n" else r;
    PrependBoth(CollapseBlankLines(r + t + y), h, CollapseBlankLines(t + y), CollapseBlankLines(r + t), CollapseBlankLines(t), CollapseBlankLines(y));
  }

  lemma PrependBoth(whole: string, h: string, rest: string, front: string, a: string, b: string)
    requires whole == h + rest && rest == a + b && front == h + a
    ensures whole == front + b
  {
  }

  lemma CollapseRunThen(r: string, t: string, y: string)
    requires r != [] && (forall i :: 0 <= i < |r| ==> r[i] == '\n')
    requires t != [] && t[0] != '\n'
    ensures CollapseBlankLines(r + t + y) == (if |r| >= 3 then "\n\n" else r) + CollapseBlankLines(t + y)
  {
    assert (t + y)[0] == t[0];
    CollapseRun(r, t + y);
    assert r + t + y == r + (t + y);
  }

  /** A whole run of line feeds becomes itself when shorter than three,
      and two line feeds otherwise. */
  lemma CollapseRun(r: string, t: string)
    requires r != [] && (forall i :: 0 <= i < |r| ==> r[i] == '\n') && (t == [] || t[0] != '\n')
    ensures CollapseBlankLines(r + t) == (if |r| >= 3 then "\n\n" else r) + CollapseBlankLines(t)
  {
    NewlineRunOfRun(r, t);
    assert (r + t)[..|r|] == r && (r + t)[|r|..] == t;
  }

  lemma {:induction false} NewlineRunOfRun(r: string, t: string)
    requires (forall i :: 0 <= i < |r| ==> r[i] == '\n') && (t == [] || t[0] != '\n')
    ensures NewlineRun(r + t) == |r|
  {
    if r != [] {
      assert (r + t)[1..] == r[1..] + t;
      NewlineRunOfRun(r[1..], t);
    } else {
      assert r + t == t;
    }
  }

  lemma {:induction false} CollapseSplitChar(x: string, y: string)
    requires x != [] && x[|x| - 1] != '\n' && x[0] != '\n'
    ensures CollapseBlankLines(x + y) == CollapseBlankLines(x) + CollapseBlankLines(y)
    decreases |x|, 0
  {
    var t := x[1..];
    assert x == [x[0]] + t;
    assert x + y == [x[0]] + (t + y);
    CollapseCons(x[0], t + y);
    CollapseCons(x[0], t);
    if t != [] {
      CollapseSplit(t, y);
    } else {
      assert t + y == y;
    }
  }

  /** One character other than a line feed is copied as it is. */
  lemma CollapseCons(c: char, t: string)
    requires c != '\n'
    ensures CollapseBlankLines([c] + t) == [c] + CollapseBlankLines(t)
  {
    assert ([c] + t)[1..] == t;
  }

  /** Collapsing keeps a last character that is not a line feed. */
  lemma {:induction false} CollapseKeepsLast(s: string)
    requires s != [] && s[|s| - 1] != '\n'
    ensures CollapseBlankLines(s) != [] && CollapseBlankLines(s)[|CollapseBlankLines(s)| - 1] == s[|s| - 1]
    decreases |s|
  {
    if s[0] == '\n' {
      var n := NewlineRun(s);
      assert n < |s|;
      CollapseKeepsLast(s[n..]);
    } else if |s| > 1 {
      CollapseKeepsLast(s[1..]);
    }
  }
}
