/**
 * The font-size statistics the converter computes before it renders
 * anything: the most common size of the document (the body size), the
 * size that covers most characters of one line (its dominant size), and
 * the distinct sizes large enough to be heading sizes.
 *
 * Both "most common" computations fill a `Map` from size to a running
 * total, in the order the sizes are met, and then take the first entry of
 * the entries sorted by descending total. `Array.prototype.sort` is
 * stable, so that is the first size, in order of first appearance, whose
 * total is the largest. Sizes are naturals (tenths of a unit).
 */
module FontSizes {
  import opened TextBlocks

  // ---------------------------------------------------------------------
  // Weighted counting.
  // ---------------------------------------------------------------------

  /** The total weight the sizes equal to `s` carry, `weights[i]` being
      the weight of `sizes[i]`: the value the map holds for `s` once every
      size has been added. */
  function Weight(sizes: seq<nat>, weights: seq<nat>, s: nat): nat
    requires |weights| == |sizes|
  {
    if sizes == [] then 0
    else
      var n := |sizes| - 1;
      Weight(sizes[..n], weights[..n], s) + (if sizes[n] == s then weights[n] else 0)
  }

  /** A weight of one per size, as when sizes are counted. */
  function Ones(n: nat): (r: seq<nat>)
    ensures |r| == n && forall i :: 0 <= i < n ==> r[i] == 1
  {
    seq(n, _ => 1)
  }

  /** With a weight of one per size, the weight of `s` is the number of
      times `s` occurs. */
  lemma {:induction false} WeightOnes(sizes: seq<nat>, s: nat)
    ensures Weight(sizes, Ones(|sizes|), s) == multiset(sizes)[s]
  {
    if sizes != [] {
      var n := |sizes| - 1;
      assert Ones(|sizes|)[..n] == Ones(n);
      WeightOnes(sizes[..n], s);
      assert sizes == sizes[..n] + [sizes[n]];
    }
  }

  // ---------------------------------------------------------------------
  // Distinct sizes in order of first appearance.
  // ---------------------------------------------------------------------

  predicate NoDup(d: seq<nat>)
  {
    forall i, j :: 0 <= i < j < |d| ==> d[i] != d[j]
  }

  predicate IsPrefix(p: seq<nat>, q: seq<nat>)
  {
    |p| <= |q| && q[..|p|] == p
  }

  /** `[...new Set(sizes)]`, and the key order of a `Map` filled from
      `sizes`: each size once, in the order it first appears. */
  function Distinct(sizes: seq<nat>): (d: seq<nat>)
    ensures forall s :: s in d <==> s in sizes
  {
    if sizes == [] then []
    else
      var n := |sizes| - 1;
      var p := Distinct(sizes[..n]);
      assert sizes == sizes[..n] + [sizes[n]];
      if sizes[n] in p then p else p + [sizes[n]]
  }

  /** `Distinct` lists no size twice. */
  lemma {:induction false} DistinctNoDup(sizes: seq<nat>)
    ensures NoDup(Distinct(sizes))
  {
    if sizes != [] {
      var n := |sizes| - 1;
      DistinctNoDup(sizes[..n]);
    }
  }

  /** The distinct sizes of a prefix come first, in the same order. */
  lemma {:induction false} DistinctPrefix(sizes: seq<nat>, m: nat)
    requires m <= |sizes|
    ensures IsPrefix(Distinct(sizes[..m]), Distinct(sizes))
    decreases |sizes|
  {
    if m < |sizes| {
      var n := |sizes| - 1;
      assert sizes[..n][..m] == sizes[..m];
      DistinctPrefix(sizes[..n], m);
    } else {
      assert sizes[..m] == sizes;
    }
  }

  /** A size met by position `k` is among the distinct sizes listed no
      later than the point the scan reaches `k`: every distinct size listed
      before it was met at or before `k`. */
  lemma SeenBy(sizes: seq<nat>, k: nat, i: nat, j: nat)
    requires k < |sizes| && j < |Distinct(sizes)| && i <= j
    requires Distinct(sizes)[j] == sizes[k]
    ensures Distinct(sizes)[i] in sizes[..k + 1]
  {
    var d := Distinct(sizes);
    var p := Distinct(sizes[..k + 1]);
    DistinctPrefix(sizes, k + 1);
    DistinctNoDup(sizes);
    assert sizes[k] in sizes[..k + 1];
    var q :| 0 <= q < |p| && p[q] == sizes[k];
    assert d[q] == sizes[k];
    assert q == j;
    assert d[i] == p[i];
  }

  // ---------------------------------------------------------------------
  // The first heaviest size.
  // ---------------------------------------------------------------------

  /** The position in `keys` of the first key whose weight is the largest:
      what the stable sort by descending weight puts first. */
  function FirstMax(keys: seq<nat>, sizes: seq<nat>, weights: seq<nat>): (i: nat)
    requires keys != [] && |weights| == |sizes|
    ensures i < |keys|
    ensures forall j :: 0 <= j < |keys| ==> Weight(sizes, weights, keys[j]) <= Weight(sizes, weights, keys[i])
    ensures forall j :: 0 <= j < i ==> Weight(sizes, weights, keys[j]) < Weight(sizes, weights, keys[i])
  {
    if |keys| == 1 then 0
    else
      var n := |keys| - 1;
      var p := FirstMax(keys[..n], sizes, weights);
      assert forall j :: 0 <= j < n ==> keys[..n][j] == keys[j];
      if Weight(sizes, weights, keys[n]) > Weight(sizes, weights, keys[p]) then n else p
  }

  /** The size the converter picks as "most common": the first, in order
      of first appearance, of the sizes with the largest total weight. */
  function Heaviest(sizes: seq<nat>, weights: seq<nat>): nat
    requires |weights| == |sizes| && sizes != []
  {
    var d := Distinct(sizes);
    d[FirstMax(d, sizes, weights)]
  }

  /** No size weighs more than the picked one. */
  lemma HeaviestWeighsMost(sizes: seq<nat>, weights: seq<nat>, s: nat)
    requires |weights| == |sizes| && sizes != []
    ensures Weight(sizes, weights, s) <= Weight(sizes, weights, Heaviest(sizes, weights))
  {
    var d := Distinct(sizes);
    if s in sizes {
      assert s in d;
      var j :| 0 <= j < |d| && d[j] == s;
    } else {
      WeightAbsent(sizes, weights, s);
    }
  }

  /** A size at position `k` that weighs as much as the picked one was met
      no earlier than the picked one. */
  lemma HeaviestMetFirst(sizes: seq<nat>, weights: seq<nat>, k: nat)
    requires |weights| == |sizes| && k < |sizes|
    requires Weight(sizes, weights, sizes[k]) == Weight(sizes, weights, Heaviest(sizes, weights))
    ensures Heaviest(sizes, weights) in sizes[..k + 1]
  {
    var d := Distinct(sizes);
    var i := FirstMax(d, sizes, weights);
    assert sizes[k] in d;
    var j :| 0 <= j < |d| && d[j] == sizes[k];
    SeenBy(sizes, k, i, j);
  }

  /** The picked size occurs, no size weighs more, and every size that
      weighs as much occurs no earlier than it does. */
  lemma HeaviestIsFirstMode(sizes: seq<nat>, weights: seq<nat>)
    requires |weights| == |sizes| && sizes != []
    ensures Heaviest(sizes, weights) in sizes
    ensures forall s :: Weight(sizes, weights, s) <= Weight(sizes, weights, Heaviest(sizes, weights))
    ensures forall k :: 0 <= k < |sizes| && Weight(sizes, weights, sizes[k]) == Weight(sizes, weights, Heaviest(sizes, weights))
              ==> Heaviest(sizes, weights) in sizes[..k + 1]
  {
    assert Heaviest(sizes, weights) in Distinct(sizes);
    forall s ensures Weight(sizes, weights, s) <= Weight(sizes, weights, Heaviest(sizes, weights)) {
      HeaviestWeighsMost(sizes, weights, s);
    }
    forall k | 0 <= k < |sizes| && Weight(sizes, weights, sizes[k]) == Weight(sizes, weights, Heaviest(sizes, weights))
      ensures Heaviest(sizes, weights) in sizes[..k + 1]
    {
      HeaviestMetFirst(sizes, weights, k);
    }
  }

  /** A size that never occurs weighs nothing. */
  lemma {:induction false} WeightAbsent(sizes: seq<nat>, weights: seq<nat>, s: nat)
    requires |weights| == |sizes| && s !in sizes
    ensures Weight(sizes, weights, s) == 0
  {
    if sizes != [] {
      var n := |sizes| - 1;
      assert sizes[n] in sizes;
      assert forall t :: t in sizes[..n] ==> t in sizes;
      WeightAbsent(sizes[..n], weights[..n], s);
    }
  }

  /** The map `freq` holds exactly the sizes met, each with its total
      weight. */
  ghost predicate Totals(freq: map<nat, nat>, sizes: seq<nat>, weights: seq<nat>)
    requires |weights| == |sizes|
  {
    (forall t :: t in freq <==> t in sizes)
    && forall t :: t in freq ==> freq[t] == Weight(sizes, weights, t)
  }

  /** `freq.set(s, (freq.get(s) || 0) + w)` for the size at position `i`
      keeps the map holding the totals of the sizes met so far. */
  lemma TotalsStep(sizes: seq<nat>, weights: seq<nat>, i: nat, freq: map<nat, nat>, next: map<nat, nat>)
    requires |weights| == |sizes| && i < |sizes|
    requires Totals(freq, sizes[..i], weights[..i])
    requires next == freq[sizes[i] := (if sizes[i] in freq then freq[sizes[i]] else 0) + weights[i]]
    ensures Totals(next, sizes[..i + 1], weights[..i + 1])
    ensures sizes[i] in freq <==> sizes[i] in sizes[..i]
  {
    var s, w := sizes[i], weights[i];
    assert sizes[..i + 1] == sizes[..i] + [s];
    assert sizes[..i + 1][..i] == sizes[..i] && weights[..i + 1][..i] == weights[..i];
    if s !in freq {
      WeightAbsent(sizes[..i], weights[..i], s);
    }
    forall t | t in next ensures next[t] == Weight(sizes[..i + 1], weights[..i + 1], t) {
      assert Weight(sizes[..i + 1], weights[..i + 1], t)
             == Weight(sizes[..i], weights[..i], t) + (if s == t then w else 0);
    }
  }

  /** Meeting the size at position `i` appends it to the distinct sizes
      when it is new. */
  lemma DistinctStep(sizes: seq<nat>, i: nat)
    requires i < |sizes|
    ensures Distinct(sizes[..i + 1])
            == if sizes[i] in sizes[..i] then Distinct(sizes[..i]) else Distinct(sizes[..i]) + [sizes[i]]
  {
    assert sizes[..i + 1][..i] == sizes[..i];
  }

  /** Looking at one more key when searching for the first heaviest. */
  lemma FirstMaxStep(keys: seq<nat>, sizes: seq<nat>, weights: seq<nat>, j: nat)
    requires 0 < j < |keys| && |weights| == |sizes|
    ensures FirstMax(keys[..j + 1], sizes, weights)
            == var p := FirstMax(keys[..j], sizes, weights);
               if Weight(sizes, weights, keys[j]) > Weight(sizes, weights, keys[p]) then j else p
  {
    assert keys[..j + 1][..j] == keys[..j];
  }

  /** One turn of the tally loop keeps both the totals and the key order. */
  lemma TallyStep(sizes: seq<nat>, weights: seq<nat>, i: nat, freq: map<nat, nat>, next: map<nat, nat>,
                  order: seq<nat>, order': seq<nat>)
    requires |weights| == |sizes| && i < |sizes|
    requires Totals(freq, sizes[..i], weights[..i]) && order == Distinct(sizes[..i])
    requires next == freq[sizes[i] := (if sizes[i] in freq then freq[sizes[i]] else 0) + weights[i]]
    requires order' == if sizes[i] in freq then order else order + [sizes[i]]
    ensures Totals(next, sizes[..i + 1], weights[..i + 1]) && order' == Distinct(sizes[..i + 1])
  {
    TotalsStep(sizes, weights, i, freq, next);
    DistinctStep(sizes, i);
  }

  /** The first loop behind "most common": the running totals go into a
      map, and a size met for the first time is appended to the key order. */
  method TallySizes(sizes: seq<nat>, weights: seq<nat>) returns (freq: map<nat, nat>, order: seq<nat>)
    requires |weights| == |sizes|
    ensures Totals(freq, sizes, weights) && order == Distinct(sizes)
  {
    freq := map[];
    order := [];
    var i := 0;
    while i < |sizes|
      invariant 0 <= i <= |sizes|
      invariant order == Distinct(sizes[..i])
      invariant Totals(freq, sizes[..i], weights[..i])
    {
      var s := sizes[i];
      var next := freq[s := (if s in freq then freq[s] else 0) + weights[i]];
      var order' := if s in freq then order else order + [s];
      TallyStep(sizes, weights, i, freq, next, order, order');
      freq, order := next, order';
      i := i + 1;
    }
    assert sizes[..i] == sizes && weights[..i] == weights;
  }

  /** "Most common": the totals, then the first key, in insertion order,
      with the largest total (what a stable sort by descending total puts
      first). */
  method MostFrequent(sizes: seq<nat>, weights: seq<nat>) returns (best: nat)
    requires |weights| == |sizes| && sizes != []
    ensures best == Heaviest(sizes, weights)
  {
    var freq, order := TallySizes(sizes, weights);
    var k := 0;
    var j := 1;
    while j < |order|
      invariant 1 <= j <= |order|
      invariant k == FirstMax(order[..j], sizes, weights)
    {
      FirstMaxStep(order, sizes, weights, j);
      if freq[order[j]] > freq[order[k]] {
        k := j;
      }
      j := j + 1;
    }
    assert order[..j] == order;
    best := order[k];
  }

  // ---------------------------------------------------------------------
  // The body size and a line's dominant size.
  // ---------------------------------------------------------------------

  /** The body size: the most common font size over every block of the
      document, each block counting once. */
  function BodyFontSize(all: seq<nat>): nat
    requires all != []
  {
    Heaviest(all, Ones(|all|))
  }

  /** The body size is a size of the document; no size occurs more often;
      among equally common sizes it is the one met first. */
  lemma BodyIsMostCommon(all: seq<nat>)
    requires all != []
    ensures BodyFontSize(all) in all
    ensures forall s :: multiset(all)[s] <= multiset(all)[BodyFontSize(all)]
    ensures forall k :: 0 <= k < |all| && multiset(all)[all[k]] == multiset(all)[BodyFontSize(all)]
              ==> BodyFontSize(all) in all[..k + 1]
  {
    HeaviestIsFirstMode(all, Ones(|all|));
    forall s ensures Weight(all, Ones(|all|), s) == multiset(all)[s] {
      WeightOnes(all, s);
    }
  }

  /** The font size of each block of a line. */
  function LineSizes(line: seq<TextBlock>): (r: seq<nat>)
    ensures |r| == |line| && forall i :: 0 <= i < |line| ==> r[i] == line[i].fontSize
  {
    seq(|line|, i requires 0 <= i < |line| => line[i].fontSize)
  }

  /** The number of characters of each block of a line. */
  function CharCounts(line: seq<TextBlock>): (r: seq<nat>)
    ensures |r| == |line| && forall i :: 0 <= i < |line| ==> r[i] == |line[i].text|
  {
    seq(|line|, i requires 0 <= i < |line| => |line[i].text|)
  }

  /** The number of characters a line sets in size `s`. */
  function CharsInSize(line: seq<TextBlock>, s: nat): nat
  {
    Weight(LineSizes(line), CharCounts(line), s)
  }

  /** `getDominantFontSize`: the size that covers most characters of the
      line, the first such size on a tie. */
  function DominantFontSize(line: seq<TextBlock>): nat
    requires line != []
  {
    Heaviest(LineSizes(line), CharCounts(line))
  }

  /** The dominant size is the size of one of the line's blocks, no size
      covers more characters, and it is met first among those covering as
      many. */
  lemma DominantCoversMostChars(line: seq<TextBlock>)
    requires line != []
    ensures exists i :: 0 <= i < |line| && line[i].fontSize == DominantFontSize(line)
    ensures forall s :: CharsInSize(line, s) <= CharsInSize(line, DominantFontSize(line))
    ensures forall k :: 0 <= k < |line| && CharsInSize(line, line[k].fontSize) == CharsInSize(line, DominantFontSize(line))
              ==> exists i :: 0 <= i <= k && line[i].fontSize == DominantFontSize(line)
  {
    var sizes := LineSizes(line);
    HeaviestIsFirstMode(sizes, CharCounts(line));
    var i :| 0 <= i < |sizes| && sizes[i] == DominantFontSize(line);
    forall k | 0 <= k < |line| && CharsInSize(line, line[k].fontSize) == CharsInSize(line, DominantFontSize(line))
      ensures exists i :: 0 <= i <= k && line[i].fontSize == DominantFontSize(line)
    {
      DominantMetBy(line, k);
    }
  }

  /** A block whose size covers as many characters as the dominant size
      comes no earlier than some block of the dominant size. */
  lemma DominantMetBy(line: seq<TextBlock>, k: nat)
    requires k < |line| && CharsInSize(line, line[k].fontSize) == CharsInSize(line, DominantFontSize(line))
    ensures exists i :: 0 <= i <= k && line[i].fontSize == DominantFontSize(line)
  {
    var sizes := LineSizes(line);
    assert sizes[k] == line[k].fontSize;
    HeaviestMetFirst(sizes, CharCounts(line), k);
    var m :| 0 <= m < |sizes[..k + 1]| && sizes[..k + 1][m] == DominantFontSize(line);
    assert line[m].fontSize == DominantFontSize(line);
  }

  // ---------------------------------------------------------------------
  // Heading sizes.
  // ---------------------------------------------------------------------

  /** `size > body * 1.15`, in tenths: 20 * size > 23 * body. */
  predicate AboveBody(size: nat, body: nat)
  {
    20 * size > 23 * body
  }

  predicate StrictlyDescending(s: seq<nat>)
  {
    forall i, j :: 0 <= i < j < |s| ==> s[i] > s[j]
  }

  /** `.filter((s) => s > bodyFontSize * 1.15)`. */
  function KeepAboveBody(d: seq<nat>, body: nat): (r: seq<nat>)
    ensures forall h :: h in r <==> h in d && AboveBody(h, body)
    ensures NoDup(d) ==> NoDup(r)
  {
    if d == [] then []
    else
      var rest := KeepAboveBody(d[1..], body);
      assert forall h :: h in d <==> h == d[0] || h in d[1..];
      if AboveBody(d[0], body) then [d[0]] + rest else rest
  }

  /** Insertion into a sequence sorted by descending value. */
  function InsertDesc(x: nat, s: seq<nat>): seq<nat>
  {
    if s == [] || x >= s[0] then [x] + s else [s[0]] + InsertDesc(x, s[1..])
  }

  lemma {:induction false} InsertDescSorts(x: nat, s: seq<nat>)
    ensures forall h :: h in InsertDesc(x, s) <==> h == x || h in s
    ensures StrictlyDescending(s) && x !in s ==> StrictlyDescending(InsertDesc(x, s))
  {
    if !(s == [] || x >= s[0]) {
      InsertDescSorts(x, s[1..]);
      assert forall h :: h in s <==> h == s[0] || h in s[1..];
      var t := InsertDesc(x, s[1..]);
      if StrictlyDescending(s) && x !in s {
        forall j | 0 <= j < |t| ensures s[0] > t[j] {
          assert t[j] in t;
          if t[j] != x {
            var m :| 0 <= m < |s[1..]| && s[1..][m] == t[j];
            assert s[m + 1] == t[j];
          }
        }
      }
    }
  }

  /** `.sort((a, b) => b - a)`: an insertion sort by descending value. */
  function SortDesc(s: seq<nat>): seq<nat>
  {
    if s == [] then [] else InsertDesc(s[0], SortDesc(s[1..]))
  }

  /** Sorting distinct sizes gives the same sizes, strictly descending. */
  lemma {:induction false} SortDescSorts(s: seq<nat>)
    requires NoDup(s)
    ensures forall h :: h in SortDesc(s) <==> h in s
    ensures StrictlyDescending(SortDesc(s))
  {
    if s != [] {
      assert forall h :: h in s <==> h == s[0] || h in s[1..];
      assert NoDup(s[1..]) by {
        forall i, j | 0 <= i < j < |s[1..]| ensures s[1..][i] != s[1..][j] {
          assert s[1..][i] == s[i + 1] && s[1..][j] == s[j + 1];
        }
      }
      SortDescSorts(s[1..]);
      assert s[0] !in s[1..] by {
        forall m | 0 <= m < |s[1..]| ensures s[1..][m] != s[0] {
          assert s[1..][m] == s[m + 1];
        }
      }
      InsertDescSorts(s[0], SortDesc(s[1..]));
    }
  }

  /** The heading sizes: every distinct size of the document above 1.15
      times the body size, largest first. */
  function HeadingSizes(all: seq<nat>, body: nat): seq<nat>
  {
    SortDesc(KeepAboveBody(Distinct(all), body))
  }

  /** The heading sizes are exactly the document's sizes above 1.15 times
      the body size, each once, strictly descending. */
  lemma HeadingSizesSpec(all: seq<nat>, body: nat)
    ensures forall h :: h in HeadingSizes(all, body) <==> h in all && AboveBody(h, body)
    ensures StrictlyDescending(HeadingSizes(all, body))
  {
    DistinctNoDup(all);
    SortDescSorts(KeepAboveBody(Distinct(all), body));
  }

  /** The body size itself is never a heading size. */
  lemma BodyIsNoHeadingSize(all: seq<nat>)
    requires all != []
    ensures BodyFontSize(all) !in HeadingSizes(all, BodyFontSize(all))
  {
    HeadingSizesSpec(all, BodyFontSize(all));
  }
}
