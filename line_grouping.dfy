/**
 * `groupIntoLines`: the blocks of one page, already put in reading order
 * (top to bottom), are cut into visual lines, and each line is ordered left
 * to right.
 *
 * The page's blocks are ordered by a comparator that orders blocks by y,
 * top first, when their y values are more than 3 units apart, and by x
 * when they are at most 3 units apart. That comparator is not transitive,
 * so the order `Array.prototype.sort` produces depends on the engine; the model
 * therefore takes that order as an argument `sorted`, any permutation of
 * the page's blocks, and every property below holds whatever it is.
 */
module LineGrouping {
  import opened TextBlocks

  function Abs(r: real): real
  {
    if r < 0.0 then -r else r
  }

  /** `Math.abs(block.y - currentY) < block.fontSize * 0.5`, the size being in
      tenths, compared exactly over the reals: the block belongs to the line
      whose anchor is `anchorY`. */
  predicate SameRow(b: TextBlock, anchorY: real)
  {
    Abs(b.y - anchorY) < b.fontSize as real / 20.0
  }

  function Flatten(rows: seq<seq<TextBlock>>): seq<TextBlock>
  {
    if rows == [] then [] else rows[0] + Flatten(rows[1..])
  }

  lemma {:induction false} FlattenAppend(a: seq<seq<TextBlock>>, b: seq<seq<TextBlock>>)
    ensures Flatten(a + b) == Flatten(a) + Flatten(b)
  {
    if a == [] {
      assert a + b == b;
    } else {
      assert (a + b)[1..] == a[1..] + b;
      FlattenAppend(a[1..], b);
    }
  }

  // ---------------------------------------------------------------------
  // Ordering a line by x: `currentLine.sort((a, b) => a.x - b.x)`.
  // ---------------------------------------------------------------------

  predicate SortedByX(s: seq<TextBlock>)
  {
    forall i, j :: 0 <= i < j < |s| ==> s[i].x <= s[j].x
  }

  /** Puts `b` in front of the first block whose x is at least `b.x`. */
  function InsertByX(b: TextBlock, s: seq<TextBlock>): seq<TextBlock>
  {
    if s == [] || b.x <= s[0].x then [b] + s else [s[0]] + InsertByX(b, s[1..])
  }

  /** Inserting adds `b` and keeps every other block. */
  lemma {:induction false} InsertByXPerm(b: TextBlock, s: seq<TextBlock>)
    ensures multiset(InsertByX(b, s)) == multiset(s) + multiset{b}
  {
    if !(s == [] || b.x <= s[0].x) {
      InsertByXPerm(b, s[1..]);
      assert s == [s[0]] + s[1..];
    }
  }

  /** Inserting into a line ordered by x keeps it ordered. */
  lemma {:induction false} InsertByXSorted(b: TextBlock, s: seq<TextBlock>)
    requires SortedByX(s)
    ensures SortedByX(InsertByX(b, s))
  {
    if !(s == [] || b.x <= s[0].x) {
      var t := InsertByX(b, s[1..]);
      InsertByXSorted(b, s[1..]);
      InsertByXPerm(b, s[1..]);
      forall j | 0 <= j < |t| ensures s[0].x <= t[j].x {
        InsertedFrom(b, s, t, j);
      }
    }
  }

  lemma InsertedFrom(b: TextBlock, s: seq<TextBlock>, t: seq<TextBlock>, j: nat)
    requires s != [] && s[0].x < b.x && SortedByX(s)
    requires multiset(t) == multiset(s[1..]) + multiset{b} && j < |t|
    ensures s[0].x <= t[j].x
  {
    assert t[j] in multiset(t);
    if t[j] != b {
      assert t[j] in multiset(s[1..]);
      var m :| 0 <= m < |s[1..]| && s[1..][m] == t[j];
      assert s[m + 1] == t[j];
    }
  }

  /** The ordering `Array.prototype.sort` gives with the comparator
      `a.x - b.x`: a stable sort by ascending x (an insertion sort). */
  function SortByX(s: seq<TextBlock>): seq<TextBlock>
  {
    if s == [] then [] else InsertByX(s[0], SortByX(s[1..]))
  }

  /** The sort returns a permutation of the line, ordered by ascending x. */
  lemma {:induction false} SortByXSorts(s: seq<TextBlock>)
    ensures multiset(SortByX(s)) == multiset(s)
    ensures |SortByX(s)| == |s|
    ensures SortedByX(SortByX(s))
  {
    if s != [] {
      SortByXSorts(s[1..]);
      InsertByXPerm(s[0], SortByX(s[1..]));
      InsertByXSorted(s[0], SortByX(s[1..]));
      assert s == [s[0]] + s[1..];
    }
  }

  /** The blocks of `s` whose x is `v`, in their order in `s`. */
  function WithX(s: seq<TextBlock>, v: real): seq<TextBlock>
  {
    if s == [] then [] else (if s[0].x == v then [s[0]] else []) + WithX(s[1..], v)
  }

  lemma {:induction false} InsertByXWithX(b: TextBlock, s: seq<TextBlock>, v: real)
    ensures WithX(InsertByX(b, s), v) == (if b.x == v then [b] else []) + WithX(s, v)
  {
    var head := if b.x == v then [b] else [];
    if s == [] || b.x <= s[0].x {
      assert ([b] + s)[1..] == s;
      assert WithX([b] + s, v) == head + WithX(s, v);
    } else {
      var t := InsertByX(b, s[1..]);
      var first := if s[0].x == v then [s[0]] else [];
      assert ([s[0]] + t)[1..] == t;
      assert WithX([s[0]] + t, v) == first + WithX(t, v);
      InsertByXWithX(b, s[1..], v);
      assert WithX(s, v) == first + WithX(s[1..], v);
    }
  }

  /** The sort is stable: blocks with the same x keep their relative order.
      With SortByX's own contract (sorted, a permutation) this pins the
      result down completely. */
  lemma {:induction false} SortByXStable(s: seq<TextBlock>, v: real)
    ensures WithX(SortByX(s), v) == WithX(s, v)
  {
    if s != [] {
      SortByXStable(s[1..], v);
      InsertByXWithX(s[0], SortByX(s[1..]), v);
    }
  }

  // ---------------------------------------------------------------------
  // Cutting the ordered blocks into rows.
  // ---------------------------------------------------------------------

  /** The loop of `groupIntoLines` from some point on: `current` is the line
      being built, anchored at `anchorY`, and `rest` the blocks not yet seen.
      The result lists the lines still to be closed, before their x sort. */
  function RowsFrom(rest: seq<TextBlock>, current: seq<TextBlock>, anchorY: real): (rows: seq<seq<TextBlock>>)
    requires current != []
    ensures |rows| >= 1 && rows[0] != [] && rows[0][0] == current[0]
    ensures forall n :: 0 <= n < |rows| ==> rows[n] != []
    decreases |rest|
  {
    if rest == [] then [current]
    else if SameRow(rest[0], anchorY) then RowsFrom(rest[1..], current + [rest[0]], anchorY)
    else [current] + RowsFrom(rest[1..], [rest[0]], rest[0].y)
  }

  /** The lines of `groupIntoLines(blocks)` before each is sorted by x, for
      `sorted` the page's blocks in the order the y sort left them. */
  function Rows(sorted: seq<TextBlock>): (rows: seq<seq<TextBlock>>)
    ensures rows == [] <==> sorted == []
    ensures forall n :: 0 <= n < |rows| ==> rows[n] != []
  {
    if sorted == [] then [] else RowsFrom(sorted[1..], [sorted[0]], sorted[0].y)
  }

  /** Nothing is lost or repeated: the rows, put back together, are the line
      being built followed by the blocks still to come. */
  lemma {:induction false} RowsFromCover(rest: seq<TextBlock>, current: seq<TextBlock>, anchorY: real)
    requires current != []
    ensures Flatten(RowsFrom(rest, current, anchorY)) == current + rest
    decreases |rest|
  {
    if rest == [] {
      assert Flatten([current]) == current + Flatten([]);
    } else if SameRow(rest[0], anchorY) {
      RowsFromCover(rest[1..], current + [rest[0]], anchorY);
      assert current + rest == current + [rest[0]] + rest[1..];
    } else {
      var more := RowsFrom(rest[1..], [rest[0]], rest[0].y);
      RowsFromCover(rest[1..], [rest[0]], rest[0].y);
      assert ([current] + more)[1..] == more;
      assert current + rest == current + [rest[0]] + rest[1..];
    }
  }

  lemma RowsCover(sorted: seq<TextBlock>)
    ensures Flatten(Rows(sorted)) == sorted
  {
    if sorted != [] {
      RowsFromCover(sorted[1..], [sorted[0]], sorted[0].y);
      assert sorted == [sorted[0]] + sorted[1..];
    }
  }

  /** A row is opened by its first block: every later block lies within half
      its own font size of the first block's y. */
  predicate OpenedByFirst(row: seq<TextBlock>)
  {
    row != [] && forall j :: 1 <= j < |row| ==> SameRow(row[j], row[0].y)
  }

  /** Between two consecutive rows, the block that opened the second is not
      within half its font size of the first row's anchor. */
  predicate RowBreaks(rows: seq<seq<TextBlock>>)
    requires forall n :: 0 <= n < |rows| ==> rows[n] != []
  {
    forall n :: 0 < n < |rows| ==> !SameRow(rows[n][0], rows[n - 1][0].y)
  }

  lemma {:induction false} RowsFromAnchored(rest: seq<TextBlock>, current: seq<TextBlock>, anchorY: real)
    requires OpenedByFirst(current) && current[0].y == anchorY
    ensures var rows := RowsFrom(rest, current, anchorY);
      (forall n :: 0 <= n < |rows| ==> OpenedByFirst(rows[n])) && RowBreaks(rows)
    decreases |rest|
  {
    if rest == [] {
    } else if SameRow(rest[0], anchorY) {
      RowsFromAnchored(rest[1..], current + [rest[0]], anchorY);
    } else {
      RowsFromAnchored(rest[1..], [rest[0]], rest[0].y);
      var more := RowsFrom(rest[1..], [rest[0]], rest[0].y);
      var rows := [current] + more;
      assert forall n :: 0 < n < |rows| ==> rows[n] == more[n - 1];
    }
  }

  /** What the loop of `groupIntoLines` does, stated without the loop: the
      rows, put back together, are the ordered blocks; each row is made of
      the block that opened it and blocks close to that block's y; and each
      new row starts exactly at a block that is not close to the previous
      row's anchor. */
  lemma RowsSegmentPage(sorted: seq<TextBlock>)
    ensures var rows := Rows(sorted);
      Flatten(rows) == sorted
      && (forall n :: 0 <= n < |rows| ==> OpenedByFirst(rows[n]))
      && RowBreaks(rows)
  {
    RowsCover(sorted);
    if sorted != [] {
      RowsFromAnchored(sorted[1..], [sorted[0]], sorted[0].y);
    }
  }

  /** The segmentation is the only one with those properties: any split of
      the ordered blocks into non-empty rows, each opened by its first
      block and broken exactly where the next block is not close, is the
      one the loop builds. */
  lemma {:induction false} RowsUnique(sorted: seq<TextBlock>, rows: seq<seq<TextBlock>>)
    requires forall n :: 0 <= n < |rows| ==> rows[n] != []
    requires Flatten(rows) == sorted
    requires forall n :: 0 <= n < |rows| ==> OpenedByFirst(rows[n])
    requires RowBreaks(rows)
    ensures rows == Rows(sorted)
  {
    if rows != [] {
      assert sorted == rows[0] + Flatten(rows[1..]);
      RowsFromUnique(Flatten(rows[1..]), rows[0], rows[0][1..], rows);
      assert rows[0][..|rows[0]| - |rows[0][1..]|] == [sorted[0]];
      assert sorted[1..] == rows[0][1..] + Flatten(rows[1..]);
    }
  }

  lemma {:induction false} RowsFromUnique(rest: seq<TextBlock>, first: seq<TextBlock>, pending: seq<TextBlock>, rows: seq<seq<TextBlock>>)
    requires forall n :: 0 <= n < |rows| ==> rows[n] != []
    requires forall n :: 0 <= n < |rows| ==> OpenedByFirst(rows[n])
    requires RowBreaks(rows)
    requires rows != [] && rows[0] == first
    requires |pending| < |first| && first[|first| - |pending|..] == pending
    requires rest == Flatten(rows[1..])
    ensures first[..|first| - |pending|] != []
    ensures RowsFrom(pending + rest, first[..|first| - |pending|], first[0].y) == rows
    decreases |pending| + |rest|, 1
  {
    var current := first[..|first| - |pending|];
    if pending != [] {
      assert pending[0] == first[|first| - |pending|];
      assert SameRow(pending[0], first[0].y);
      assert (pending + rest)[0] == pending[0] && (pending + rest)[1..] == pending[1..] + rest;
      assert current + [pending[0]] == first[..|first| - |pending[1..]|];
      RowsFromUnique(rest, first, pending[1..], rows);
    } else {
      assert current == first;
      assert pending + rest == rest;
      RowsFromUniqueNext(rest, first, rows);
    }
  }

  /** The first row complete: the rows that follow are cut again. */
  lemma {:induction false} RowsFromUniqueNext(rest: seq<TextBlock>, first: seq<TextBlock>, rows: seq<seq<TextBlock>>)
    requires forall n :: 0 <= n < |rows| ==> rows[n] != []
    requires forall n :: 0 <= n < |rows| ==> OpenedByFirst(rows[n])
    requires RowBreaks(rows)
    requires rows != [] && rows[0] == first
    requires rest == Flatten(rows[1..])
    ensures RowsFrom(rest, first, first[0].y) == rows
    decreases |rest|, 0
  {
    if rest == [] {
      FlattenOfRows(rows[1..]);
      assert rows == [first];
    } else {
      var tail := rows[1..];
      assert tail == [] ==> Flatten(tail) == [];
      assert tail != [];
      assert rest == tail[0] + Flatten(tail[1..]);
      assert rest[0] == tail[0][0] && rest[1..] == tail[0][1..] + Flatten(tail[1..]);
      assert !SameRow(rest[0], first[0].y);
      forall n | 0 < n < |tail| ensures !SameRow(tail[n][0], tail[n - 1][0].y) {
        assert tail[n] == rows[n + 1] && tail[n - 1] == rows[n];
      }
      assert tail[1..] == rows[2..];
      RowsFromUnique(Flatten(tail[1..]), tail[0], tail[0][1..], tail);
      assert tail[0][..|tail[0]| - |tail[0][1..]|] == [rest[0]];
      assert tail[0][1..] + Flatten(tail[1..]) == rest[1..];
      assert RowsFrom(rest, first, first[0].y) == [first] + RowsFrom(rest[1..], [rest[0]], rest[0].y);
      assert rows == [first] + tail;
    }
  }

  /** Rows that are not empty flatten to nothing only when there are none. */
  lemma FlattenOfRows(rows: seq<seq<TextBlock>>)
    requires forall n :: 0 <= n < |rows| ==> rows[n] != []
    ensures Flatten(rows) == [] ==> rows == []
  {
  }

  // ---------------------------------------------------------------------
  // The lines.
  // ---------------------------------------------------------------------

  /** Each row ordered by x, as `currentLine.sort` does before `lines.push`. */
  function SortEach(rows: seq<seq<TextBlock>>): (lines: seq<seq<TextBlock>>)
    ensures |lines| == |rows|
    ensures forall n :: 0 <= n < |rows| ==> lines[n] == SortByX(rows[n])
  {
    if rows == [] then [] else [SortByX(rows[0])] + SortEach(rows[1..])
  }

  /** `groupIntoLines(blocks)` for the y order `sorted` of the blocks. */
  function GroupLines(sorted: seq<TextBlock>): seq<seq<TextBlock>>
  {
    SortEach(Rows(sorted))
  }

  /** Some block of the line (the one that opened it) has every other block
      of the line within half that block's font size of its y. */
  predicate Anchored(line: seq<TextBlock>)
  {
    exists k :: 0 <= k < |line| && AnchoredAt(line, k)
  }

  /** Every block of `line` other than `line[k]` is within half its font
      size of `line[k]`'s y. */
  predicate AnchoredAt(line: seq<TextBlock>, k: int)
  {
    0 <= k < |line| && forall j :: 0 <= j < |line| && j != k ==> SameRow(line[j], line[k].y)
  }

  lemma {:induction false} OtherInRest(s: seq<TextBlock>, j: int, k: int)
    requires 0 <= j < |s| && 0 <= k < |s| && j != k
    ensures s[j] in multiset(s) - multiset{s[k]}
  {
    assert s == s[..k] + [s[k]] + s[k + 1..];
    assert multiset(s) - multiset{s[k]} == multiset(s[..k]) + multiset(s[k + 1..]);
    if j < k {
      assert s[j] == s[..k][j];
    } else {
      assert s[j] == s[k + 1..][j - k - 1];
    }
  }

  /** Ordering a row by x keeps it anchored at the block that opened it. */
  lemma {:induction false} SortedRowAnchored(row: seq<TextBlock>)
    requires OpenedByFirst(row)
    ensures Anchored(SortByX(row))
  {
    var line := SortByX(row);
    SortByXSorts(row);
    assert row[0] in multiset(line);
    var k :| 0 <= k < |line| && line[k] == row[0];
    RestOfSorted(row, line, k);
    AnchoredAtOpener(row, line, k);
  }

  /** A reordering of a row is anchored at the block that opened the row. */
  lemma AnchoredAtOpener(row: seq<TextBlock>, line: seq<TextBlock>, k: nat)
    requires OpenedByFirst(row) && k < |line| && line[k] == row[0]
    requires multiset(line) - multiset{line[k]} == multiset(row[1..])
    ensures Anchored(line)
  {
    forall j | 0 <= j < |line| && j != k ensures SameRow(line[j], line[k].y) {
      OtherInRest(line, j, k);
      InRestOpened(row, line[j]);
    }
    assert AnchoredAt(line, k);
  }

  lemma RestOfSorted(row: seq<TextBlock>, line: seq<TextBlock>, k: nat)
    requires row != [] && multiset(line) == multiset(row) && k < |line| && line[k] == row[0]
    ensures multiset(line) - multiset{line[k]} == multiset(row[1..])
  {
    assert row == [row[0]] + row[1..];
  }

  lemma InRestOpened(row: seq<TextBlock>, b: TextBlock)
    requires OpenedByFirst(row) && b in multiset(row[1..])
    ensures SameRow(b, row[0].y)
  {
    var m :| 0 <= m < |row[1..]| && row[1..][m] == b;
    assert row[m + 1] == b;
  }

  lemma {:induction false} FlattenSortEach(rows: seq<seq<TextBlock>>)
    ensures multiset(Flatten(SortEach(rows))) == multiset(Flatten(rows))
  {
    if rows != [] {
      assert SortEach(rows)[1..] == SortEach(rows[1..]);
      FlattenSortEach(rows[1..]);
      SortByXSorts(rows[0]);
    }
  }

  /** The properties `groupIntoLines` promises for any y order of the page:
      no line is empty, the lines hold exactly the page's blocks, each line
      runs left to right and is anchored at the block that opened it. */
  lemma GroupLinesShape(blocks: seq<TextBlock>, sorted: seq<TextBlock>)
    requires multiset(sorted) == multiset(blocks)
    ensures var lines := GroupLines(sorted);
      (lines == [] <==> blocks == [])
      && multiset(Flatten(lines)) == multiset(blocks)
      && forall n :: 0 <= n < |lines| ==> lines[n] != [] && SortedByX(lines[n]) && Anchored(lines[n])
  {
    var rows := Rows(sorted);
    RowsSegmentPage(sorted);
    FlattenSortEach(rows);
    assert |sorted| == |blocks| by {
      assert |multiset(sorted)| == |multiset(blocks)|;
    }
    forall n | 0 <= n < |rows| ensures SortByX(rows[n]) != [] && SortedByX(SortByX(rows[n])) && Anchored(SortByX(rows[n])) {
      SortedRowAnchored(rows[n]);
      SortByXSorts(rows[n]);
    }
  }

  /** `groupIntoLines`, with the page's blocks `blocks` and the order `sorted`
      the y sort left them in. */
  method GroupIntoLines(blocks: seq<TextBlock>, sorted: seq<TextBlock>) returns (lines: seq<seq<TextBlock>>)
    requires multiset(sorted) == multiset(blocks)
    ensures lines == GroupLines(sorted)
    ensures lines == [] <==> blocks == []
    ensures multiset(Flatten(lines)) == multiset(blocks)
    ensures forall n :: 0 <= n < |lines| ==> lines[n] != [] && SortedByX(lines[n]) && Anchored(lines[n])
  {
    GroupLinesShape(blocks, sorted);
    if |blocks| == 0 {
      return [];
    }
    lines := GroupLoop(sorted);
  }

  /** The loop of `groupIntoLines` over a non-empty y order. */
  method GroupLoop(sorted: seq<TextBlock>) returns (lines: seq<seq<TextBlock>>)
    requires sorted != []
    ensures lines == GroupLines(sorted)
  {
    lines := [];
    ghost var closed: seq<seq<TextBlock>> := [];
    var currentLine := [sorted[0]];
    var currentY := sorted[0].y;
    var i := 1;
    while i < |sorted|
      invariant 1 <= i <= |sorted|
      invariant currentLine != []
      invariant lines == SortEach(closed)
      invariant closed + RowsFrom(sorted[i..], currentLine, currentY) == Rows(sorted)
    {
      var block := sorted[i];
      RowsFromStep(sorted, i, closed, currentLine, currentY);
      if SameRow(block, currentY) {
        currentLine := currentLine + [block];
      } else {
        SortEachAppend(closed, [currentLine]);
        lines := lines + [SortByX(currentLine)];
        closed := closed + [currentLine];
        currentLine := [block];
        currentY := block.y;
      }
      i := i + 1;
    }
    RowsFromStop(sorted, i, closed, currentLine, currentY);
    SortEachAppend(closed, [currentLine]);
    lines := lines + [SortByX(currentLine)];
  }

  /** One turn of the loop of `groupIntoLines`: the block either joins the
      current line or closes it and opens the next. */
  lemma RowsFromStep(sorted: seq<TextBlock>, i: nat, closed: seq<seq<TextBlock>>, current: seq<TextBlock>, anchorY: real)
    requires i < |sorted| && current != []
    requires closed + RowsFrom(sorted[i..], current, anchorY) == Rows(sorted)
    ensures SameRow(sorted[i], anchorY) ==>
      closed + RowsFrom(sorted[i + 1..], current + [sorted[i]], anchorY) == Rows(sorted)
    ensures !SameRow(sorted[i], anchorY) ==>
      (closed + [current]) + RowsFrom(sorted[i + 1..], [sorted[i]], sorted[i].y) == Rows(sorted)
  {
    assert sorted[i..][0] == sorted[i] && sorted[i..][1..] == sorted[i + 1..];
  }

  /** The end of the loop: the line being built is the last one. */
  lemma RowsFromStop(sorted: seq<TextBlock>, i: nat, closed: seq<seq<TextBlock>>, current: seq<TextBlock>, anchorY: real)
    requires i == |sorted| && current != []
    requires closed + RowsFrom(sorted[i..], current, anchorY) == Rows(sorted)
    ensures closed + [current] == Rows(sorted)
  {
    assert sorted[i..] == [];
  }

  lemma SortEachAppend(a: seq<seq<TextBlock>>, b: seq<seq<TextBlock>>)
    ensures SortEach(a + b) == SortEach(a) + SortEach(b)
  {
  }
}
