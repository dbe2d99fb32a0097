/**
 * The JavaScript string built-ins the converter relies on: the white-space
 * class shared by `\s` and `String.prototype.trim`, `trim`, `join`,
 * `repeat`, `includes`, `endsWith` and the global removal of one character
 * (`replace(/c/g, '')`). A JavaScript string is modelled as `seq<char>`.
 */
module JsStrings {

  /** White space as ECMA-262 defines it for `\s` and `trim`: TAB, LF, VT, FF,
      CR, the space separators of category Zs, LS, PS and the byte-order mark. */
  predicate IsSpace(c: char)
  {
    ('\t' <= c <= '\r') || c == ' ' || c == '\U{00A0}' || c == '\U{1680}'
    || ('\U{2000}' <= c <= '\U{200A}') || c == '\U{2028}' || c == '\U{2029}'
    || c == '\U{202F}' || c == '\U{205F}' || c == '\U{3000}' || c == '\U{FEFF}'
  }

  predicate AllSpace(s: string)
  {
    forall i :: 0 <= i < |s| ==> IsSpace(s[i])
  }

  /** Neither end of `s` is white space. */
  predicate Trimmed(s: string)
  {
    s == [] || (!IsSpace(s[0]) && !IsSpace(s[|s| - 1]))
  }

  /** The length of the run of white space at the start of `s`. */
  function LeadingSpaces(s: string): (n: nat)
    ensures n <= |s|
    ensures forall i :: 0 <= i < n ==> IsSpace(s[i])
    ensures n < |s| ==> !IsSpace(s[n])
  {
    if s != [] && IsSpace(s[0]) then 1 + LeadingSpaces(s[1..]) else 0
  }

  /** A run of white space that stops inside `a` is not lengthened by
      what follows `a`. */
  lemma {:induction false} LeadingSpacesPrefix(a: string, t: string)
    requires LeadingSpaces(a) < |a|
    ensures LeadingSpaces(a + t) == LeadingSpaces(a)
  {
    if IsSpace(a[0]) {
      assert (a + t)[1..] == a[1..] + t;
      LeadingSpacesPrefix(a[1..], t);
    }
  }

  /** White space followed by a character that is not white space: the
      leading run is exactly the white space. */
  lemma {:induction false} LeadingSpacesRun(w: string, b: string)
    requires AllSpace(w) && (b == [] || !IsSpace(b[0]))
    ensures LeadingSpaces(w + b) == |w|
  {
    if w != [] {
      assert (w + b)[1..] == w[1..] + b;
      assert AllSpace(w[1..]) by {
        forall i | 0 <= i < |w[1..]| ensures IsSpace(w[1..][i]) {
          assert w[1..][i] == w[i + 1];
        }
      }
      LeadingSpacesRun(w[1..], b);
    } else {
      assert w + b == b;
    }
  }

  /** The length of the run of white space at the end of `s`. */
  function TrailingSpaces(s: string): (n: nat)
    ensures n <= |s|
    ensures forall i :: |s| - n <= i < |s| ==> IsSpace(s[i])
    ensures n < |s| ==> !IsSpace(s[|s| - 1 - n])
  {
    if s != [] && IsSpace(s[|s| - 1]) then 1 + TrailingSpaces(s[..|s| - 1]) else 0
  }

  /** `String.prototype.trim`: what is left once the white space at both
      ends of `s` is cut off (`TrimSlice` says which slice of `s` it is). */
  function Trim(s: string): (r: string)
    ensures Trimmed(r)
    ensures r == [] <==> AllSpace(s)
  {
    var i := LeadingSpaces(s);
    if i == |s| then
      assert AllSpace(s[..i]) && s[..i] == s;
      ""
    else
      var j := |s| - TrailingSpaces(s);
      assert i < j;
      s[i..j]
  }

  /** The trimmed text is the slice `s[i..i + |Trim(s)|]` with only white
      space before and after it. */
  lemma TrimSlice(s: string) returns (i: nat)
    ensures i <= |s| - |Trim(s)| && Trim(s) == s[i..i + |Trim(s)|]
    ensures AllSpace(s[..i]) && AllSpace(s[i + |Trim(s)|..])
  {
    i := LeadingSpaces(s);
    if i == |s| {
      assert AllSpace(s[..i]);
    } else {
      var j := |s| - TrailingSpaces(s);
      assert AllSpace(s[..i]);
      assert AllSpace(s[j..]);
    }
  }

  /** Cutting white space off both ends of `s` leaves `s[i..j]` when
      `s[i]` and `s[j - 1]` are the outermost characters that are not white
      space. */
  lemma TrimExact(s: string, i: nat, j: nat)
    requires i < j <= |s| && AllSpace(s[..i]) && AllSpace(s[j..])
    requires !IsSpace(s[i]) && !IsSpace(s[j - 1])
    ensures Trim(s) == s[i..j]
  {
    assert forall k :: 0 <= k < i ==> s[..i][k] == s[k];
    assert forall k :: j <= k < |s| ==> s[j..][k - j] == s[k];
    assert LeadingSpaces(s) == i;
    assert TrailingSpaces(s) == |s| - j;
  }

  /** Trimming two texts joined by one space, where the space has no other
      white space next to it, trims each text on its own side. */
  lemma TrimJoin(x: string, y: string)
    requires x != [] && !IsSpace(x[|x| - 1]) && y != [] && !IsSpace(y[0])
    ensures Trim(x + " " + y) == Trim(x) + " " + Trim(y)
  {
    var i := TrimKeepsEnd(x);
    var j := TrimKeepsStart(y);
    var s := x + " " + y;
    var k := |x| + 1 + j;
    JoinedSlices(x, y, i, j);
    TrimExact(s, i, k);
  }

  /** A text that ends in a character that is not white space keeps its
      end when trimmed. */
  lemma TrimKeepsEnd(x: string) returns (i: nat)
    requires x != [] && !IsSpace(x[|x| - 1])
    ensures i < |x| && Trim(x) == x[i..|x|] && AllSpace(x[..i]) && !IsSpace(x[i])
  {
    i := LeadingSpaces(x);
    assert i < |x|;
    assert AllSpace(x[..i]);
    TrimExact(x, i, |x|);
  }

  /** A text that starts with a character that is not white space keeps
      its start when trimmed. */
  lemma TrimKeepsStart(y: string) returns (j: nat)
    requires y != [] && !IsSpace(y[0])
    ensures 0 < j <= |y| && Trim(y) == y[0..j] && AllSpace(y[j..]) && !IsSpace(y[j - 1])
  {
    j := |y| - TrailingSpaces(y);
    assert 0 < j;
    assert AllSpace(y[j..]);
    TrimExact(y, 0, j);
  }

  /** The slices of `x + " " + y` that `TrimJoin` cuts. */
  lemma JoinedSlices(x: string, y: string, i: nat, j: nat)
    requires i < |x| && 0 < j <= |y|
    ensures var s, k := x + " " + y, |x| + 1 + j;
            s[..i] == x[..i] && s[k..] == y[j..] && s[i] == x[i] && s[k - 1] == y[j - 1]
            && s[i..k] == x[i..|x|] + " " + y[0..j]
  {
  }

  /** `parts.join(sep)`. */
  function Join(parts: seq<string>, sep: string): string
  {
    if |parts| == 0 then ""
    else if |parts| == 1 then parts[0]
    else parts[0] + sep + Join(parts[1..], sep)
  }

  /** `c.repeat(n)` for a one-character string `c`. */
  function Repeat(c: char, n: nat): (r: string)
    ensures |r| == n && forall i :: 0 <= i < n ==> r[i] == c
  {
    seq(n, _ => c)
  }

  /** `s.endsWith(c)` for a one-character string `c`. */
  predicate EndsWith(s: string, c: char)
  {
    |s| > 0 && s[|s| - 1] == c
  }

  /** `pat` occurs in `s` starting at index `i`. */
  predicate OccursAt(s: string, pat: string, i: int)
  {
    0 <= i <= |s| - |pat| && s[i..i + |pat|] == pat
  }

  /** `s.includes(pat)`, as a left-to-right search. */
  function Contains(s: string, pat: string): (b: bool)
    ensures b <==> exists i :: OccursAt(s, pat, i)
  {
    if |s| < |pat| then false
    else if s[..|pat|] == pat then assert OccursAt(s, pat, 0); true
    else
      var rest := Contains(s[1..], pat);
      assert rest ==> exists i :: OccursAt(s, pat, i) by {
        if rest {
          var j :| OccursAt(s[1..], pat, j);
          assert s[1..][j..j + |pat|] == s[j + 1..j + 1 + |pat|];
          assert OccursAt(s, pat, j + 1);
        }
      }
      assert (exists i :: OccursAt(s, pat, i)) ==> rest by {
        if exists i :: OccursAt(s, pat, i) {
          var i :| OccursAt(s, pat, i);
          assert i != 0;
          assert s[1..][i - 1..i - 1 + |pat|] == s[i..i + |pat|];
          assert OccursAt(s[1..], pat, i - 1);
        }
      }
      rest
  }

  /** `s.replace(/c/g, '')`: every occurrence of `c` removed, the rest kept in order. */
  function RemoveAll(s: string, c: char): string
  {
    if s == [] then "" else (if s[0] == c then "" else [s[0]]) + RemoveAll(s[1..], c)
  }

  /** No `c` is left, every other character keeps its number of
      occurrences, and a string without `c` is unchanged. */
  lemma {:induction false} RemoveAllSpec(s: string, c: char)
    ensures c !in RemoveAll(s, c)
    ensures forall d :: d != c ==> multiset(RemoveAll(s, c))[d] == multiset(s)[d]
    ensures c !in s ==> RemoveAll(s, c) == s
  {
    if s != [] {
      RemoveAllSpec(s[1..], c);
      assert s == [s[0]] + s[1..];
    }
  }

  /** Every character left was in `s` and is not `c`. */
  lemma {:induction false} RemoveAllKeeps(s: string, c: char)
    ensures forall d :: d in RemoveAll(s, c) ==> d in s && d != c
  {
    if s != [] {
      RemoveAllKeeps(s[1..], c);
      assert forall d :: d in s[1..] ==> d in s;
    }
  }

  lemma {:induction false} RemoveAllAppend(a: string, b: string, c: char)
    ensures RemoveAll(a + b, c) == RemoveAll(a, c) + RemoveAll(b, c)
  {
    if a != [] {
      var head := if a[0] == c then "" else [a[0]];
      assert (a + b)[0] == a[0] && (a + b)[1..] == a[1..] + b;
      assert RemoveAll(a + b, c) == head + RemoveAll(a[1..] + b, c);
      RemoveAllAppend(a[1..], b, c);
      assert RemoveAll(a, c) == head + RemoveAll(a[1..], c);
    } else {
      assert a + b == b;
    }
  }
}
