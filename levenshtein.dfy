/**
 * `ies::DamerauLevenshtein`: the edit distance of two strings in the
 * optimal-string-alignment variant, filled into a table row by row.
 */
module Levenshtein {

  function Min(a: nat, b: nat): nat { if a < b then a else b }

  function Min3(a: nat, b: nat, c: nat): nat { Min(Min(a, b), c) }

  function AbsDiff(a: nat, b: nat): nat { if a < b then b - a else a - b }

  function Max(a: nat, b: nat): nat { if a < b then b else a }

  /** The two last characters of the prefixes are swapped copies of each other. */
  predicate Swapped(a: string, b: string, i: nat, j: nat)
    requires i <= |a| && j <= |b|
  {
    i > 1 && j > 1 && a[i - 1] == b[j - 2] && a[i - 2] == b[j - 1]
  }

  /** The smallest of a non-empty list of candidates. */
  function Minimum(s: seq<nat>): (m: nat)
    requires |s| > 0
  {
    if |s| == 1 then s[0] else Min(s[0], Minimum(s[1..]))
  }

  /**
   * The candidates for cell (i, j), given the cells it reads: deletion,
   * insertion, substitution, and the transposition when the last two
   * characters are swapped.
   */
  function Candidates(a: string, b: string, i: nat, j: nat, up: nat, left: nat, diag: nat, diag2: nat): (c: seq<nat>)
    requires 0 < i <= |a| && 0 < j <= |b|
  {
    var cost := if a[i - 1] != b[j - 1] then 1 else 0;
    [up + 1, left + 1, diag + cost] + if Swapped(a, b, i, j) then [diag2 + 1] else []
  }

  lemma MinimumIsLeast(s: seq<nat>, k: nat)
    requires 0 <= k < |s|
    ensures Minimum(s) <= s[k]
  {
    if k > 0 {
      MinimumIsLeast(s[1..], k - 1);
    }
  }

  lemma MinimumIsCandidate(s: seq<nat>)
    requires |s| > 0
    ensures Minimum(s) in s
  {
    if |s| > 1 {
      MinimumIsCandidate(s[1..]);
    }
  }

  /** The order of the first two candidates does not matter. */
  lemma MinimumSwapFront(x: nat, y: nat, rest: seq<nat>)
    ensures Minimum([x, y] + rest) == Minimum([y, x] + rest)
  {
    assert ([x, y] + rest)[1..] == [y] + rest;
    assert ([y, x] + rest)[1..] == [x] + rest;
    if rest != [] {
      assert ([y] + rest)[1..] == rest == ([x] + rest)[1..];
    }
  }

  /** The cheapest candidate for cell (i, j), given its already computed neighbours. */
  function Cell(a: string, b: string, i: nat, j: nat, up: nat, left: nat, diag: nat, diag2: nat): nat
    requires 0 < i <= |a| && 0 < j <= |b|
  {
    Minimum(Candidates(a, b, i, j, up, left, diag, diag2))
  }

  /**
   * The distance between the prefixes a[..i] and b[..j]: the table cell
   * (i, j). Deletion, insertion and substitution each cost one, and a swap
   * of two neighbouring characters costs one.
   */
  function Distance(a: string, b: string, i: nat, j: nat): nat
    requires i <= |a| && j <= |b|
    decreases i + j
  {
    if i == 0 then j
    else if j == 0 then i
    else Cell(a, b, i, j, Distance(a, b, i - 1, j), Distance(a, b, i, j - 1), Distance(a, b, i - 1, j - 1),
      if Swapped(a, b, i, j) then Distance(a, b, i - 2, j - 2) else 0)
  }

  /** The distance of the whole strings. */
  function EditDistance(a: string, b: string): nat
  {
    Distance(a, b, |a|, |b|)
  }

  /** The table has the source's dimensions: |a| + 1 rows of |b| + 1 cells. */
  predicate Shaped(a: string, b: string, table: seq<seq<nat>>)
  {
    |table| == |a| + 1 && forall p :: 0 <= p < |table| ==> |table[p]| == |b| + 1
  }

  /** Cells that hold their distance: rows before i, column 0, and row i before column j. */
  ghost predicate Filled(a: string, b: string, table: seq<seq<nat>>, i: nat, j: nat)
  {
    && Shaped(a, b, table)
    && forall p, q {:trigger Distance(a, b, p, q)} :: 0 <= p <= |a| && 0 <= q <= |b| && (p < i || q == 0 || (p == i && q < j)) ==>
      table[p][q] == Distance(a, b, p, q)
  }

  /** The table with cell (i, j) set to v. */
  function Store(table: seq<seq<nat>>, i: nat, j: nat, v: nat): (res: seq<seq<nat>>)
    requires i < |table| && j < |table[i]|
    ensures |res| == |table| && forall p :: 0 <= p < |table| ==> |res[p]| == |table[p]|
    ensures res[i][j] == v
    ensures forall p, q :: 0 <= p < |table| && 0 <= q < |table[p]| && (p != i || q != j) ==> res[p][q] == table[p][q]
  {
    var row: seq<nat> := table[i][j := v];
    table[i := row]
  }

  /** After the two boundary loops, row 0 and column 0 hold their distances. */
  lemma BoundaryFilled(a: string, b: string, table: seq<seq<nat>>)
    requires Shaped(a, b, table)
    requires forall p :: 0 <= p <= |a| ==> table[p][0] == p
    requires forall q :: 0 <= q <= |b| ==> table[0][q] == q
    ensures Filled(a, b, table, 1, 0)
  {
  }

  /** Storing the cell the source computes at (i, j) keeps the table filled one cell further. */
  lemma StoreCell(a: string, b: string, table: seq<seq<nat>>, i: nat, j: nat, cell: nat)
    requires 0 < i <= |a| && 0 < j <= |b|
    requires Filled(a, b, table, i, j)
    requires cell == Cell(a, b, i, j, table[i - 1][j], table[i][j - 1], table[i - 1][j - 1],
      if i > 1 && j > 1 then table[i - 2][j - 2] else 0)
    ensures Filled(a, b, Store(table, i, j, cell), i, j + 1)
  {
    assert cell == Distance(a, b, i, j);
  }

  /** A finished row is a filled table at the start of the next row. */
  lemma RowDone(a: string, b: string, table: seq<seq<nat>>, i: nat)
    requires i <= |a|
    requires Filled(a, b, table, i, |b| + 1)
    ensures Filled(a, b, table, i + 1, 0)
  {
  }

  /** The minimum of the candidates is what the source's two `std::min` calls compute. */
  lemma CellAsComputed(a: string, b: string, i: nat, j: nat, up: nat, left: nat, diag: nat, diag2: nat)
    requires 0 < i <= |a| && 0 < j <= |b|
    ensures var cost := if a[i - 1] != b[j - 1] then 1 else 0;
      var d := Min3(up + 1, left + 1, diag + cost);
      Cell(a, b, i, j, up, left, diag, diag2) == if Swapped(a, b, i, j) then Min(d, diag2 + 1) else d
  {
    var cost := if a[i - 1] != b[j - 1] then 1 else 0;
    if Swapped(a, b, i, j) {
      MinimumOfFour(up + 1, left + 1, diag + cost, diag2 + 1);
    } else {
      assert Candidates(a, b, i, j, up, left, diag, diag2) == [up + 1, left + 1, diag + cost];
      MinimumOfThree(up + 1, left + 1, diag + cost);
    }
  }

  lemma MinimumOfThree(x: nat, y: nat, z: nat)
    ensures Minimum([x, y, z]) == Min3(x, y, z)
  {
    assert [x, y, z][1..] == [y, z] && [y, z][1..] == [z];
    assert Minimum([y, z]) == Min(y, Minimum([z]));
  }

  lemma MinimumOfFour(x: nat, y: nat, z: nat, w: nat)
    ensures Minimum([x, y, z] + [w]) == Min(Min3(x, y, z), w)
  {
    assert ([x, y, z] + [w])[1..] == [y, z, w] && [y, z, w][1..] == [z, w] && [z, w][1..] == [w];
    assert Minimum([z, w]) == Min(z, Minimum([w]));
    assert Minimum([y, z, w]) == Min(y, Minimum([z, w]));
  }

  /** The source's table fill; the distance is the last cell. */
  method DamerauLevenshtein(str1: string, str2: string) returns (distance: nat)
    ensures distance == EditDistance(str1, str2)
  {
    var dim1Size := |str1| + 1;
    var dim2Size := |str2| + 1;
    var table: seq<seq<nat>> := seq(dim1Size, _ => seq(dim2Size, _ => 0));
    for i: nat := 0 to dim1Size
      invariant Shaped(str1, str2, table)
      invariant forall p :: 0 <= p < i ==> table[p][0] == p
    {
      table := Store(table, i, 0, i);
    }
    for j: nat := 0 to dim2Size
      invariant Shaped(str1, str2, table)
      invariant forall p :: 1 <= p < dim1Size ==> table[p][0] == p
      invariant forall q :: 0 <= q < j ==> table[0][q] == q
    {
      table := Store(table, 0, j, j);
    }
    BoundaryFilled(str1, str2, table);
    for i: nat := 1 to dim1Size
      invariant Filled(str1, str2, table, i, 0)
    {
      for j: nat := 1 to dim2Size
        invariant Filled(str1, str2, table, i, j)
      {
        var cost := 0;
        if str1[i - 1] != str2[j - 1] {
          cost := 1;
        }
        var cell := Min3(table[i - 1][j] + 1, table[i][j - 1] + 1, table[i - 1][j - 1] + cost);
        if i > 1 && j > 1 && str1[i - 1] == str2[j - 2] && str1[i - 2] == str2[j - 1] {
          cell := Min(cell, table[i - 2][j - 2] + 1);
        }
        CellAsComputed(str1, str2, i, j, table[i - 1][j], table[i][j - 1], table[i - 1][j - 1],
          if i > 1 && j > 1 then table[i - 2][j - 2] else 0);
        StoreCell(str1, str2, table, i, j, cell);
        table := Store(table, i, j, cell);
      }
      RowDone(str1, str2, table, i);
    }
    distance := table[dim1Size - 1][dim2Size - 1];
  }

  /** Equal prefixes are at distance zero; in particular any string from itself. */
  lemma {:induction false} EqualPrefixesAtZero(a: string, b: string, i: nat)
    requires i <= |a| && i <= |b| && a[..i] == b[..i]
    ensures Distance(a, b, i, i) == 0
  {
    if i > 0 {
      assert a[..i - 1] == a[..i][..i - 1] && b[..i - 1] == b[..i][..i - 1];
      EqualPrefixesAtZero(a, b, i - 1);
      assert a[i - 1] == a[..i][i - 1] == b[..i][i - 1] == b[i - 1];
      MinimumIsLeast(Candidates(a, b, i, i, Distance(a, b, i - 1, i), Distance(a, b, i, i - 1), 0,
        if Swapped(a, b, i, i) then Distance(a, b, i - 2, i - 2) else 0), 2);
    }
  }

  lemma IdenticalStringsAtZero(a: string)
    ensures EditDistance(a, a) == 0
  {
    EqualPrefixesAtZero(a, a, |a|);
  }

  /**
   * Only equal prefixes are at distance zero: every candidate but the
   * diagonal one costs at least one, so a zero cell continues a zero
   * diagonal with matching characters.
   */
  lemma {:induction false} ZeroDistanceEqualPrefixes(a: string, b: string, i: nat, j: nat)
    requires i <= |a| && j <= |b| && Distance(a, b, i, j) == 0
    ensures i == j && a[..i] == b[..j]
    decreases i + j
  {
    if i > 0 && j > 0 {
      var c := Candidates(a, b, i, j, Distance(a, b, i - 1, j), Distance(a, b, i, j - 1), Distance(a, b, i - 1, j - 1),
        if Swapped(a, b, i, j) then Distance(a, b, i - 2, j - 2) else 0);
      MinimumIsCandidate(c);
      assert Distance(a, b, i - 1, j - 1) == 0 && a[i - 1] == b[j - 1];
      ZeroDistanceEqualPrefixes(a, b, i - 1, j - 1);
      assert a[..i] == a[..i - 1] + [a[i - 1]];
      assert b[..j] == b[..j - 1] + [b[j - 1]];
    }
  }

  /** Distance zero, a similarity factor of 1.0, means exactly that the strings are identical. */
  lemma EditDistanceZeroIffEqual(a: string, b: string)
    ensures EditDistance(a, b) == 0 <==> a == b
  {
    if a == b {
      IdenticalStringsAtZero(a);
    }
    if EditDistance(a, b) == 0 {
      ZeroDistanceEqualPrefixes(a, b, |a|, |b|);
      assert a == a[..|a|] && b == b[..|b|];
    }
  }

  lemma CellAtLeastGap(a: string, b: string, i: nat, j: nat, up: nat, left: nat, diag: nat, diag2: nat)
    requires 0 < i <= |a| && 0 < j <= |b|
    requires up >= AbsDiff(i - 1, j) && left >= AbsDiff(i, j - 1) && diag >= AbsDiff(i - 1, j - 1)
    requires Swapped(a, b, i, j) ==> diag2 >= AbsDiff(i - 2, j - 2)
    ensures Cell(a, b, i, j, up, left, diag, diag2) >= AbsDiff(i, j)
  {
    var c := Candidates(a, b, i, j, up, left, diag, diag2);
    MinimumIsCandidate(c);
    assert forall x :: x in c ==> x >= AbsDiff(i, j);
  }

  /** The distance is at least the difference of the lengths. */
  lemma {:induction false} DistanceAtLeastLengthGap(a: string, b: string, i: nat, j: nat)
    requires i <= |a| && j <= |b|
    ensures Distance(a, b, i, j) >= AbsDiff(i, j)
    decreases i + j
  {
    if i > 0 && j > 0 {
      DistanceAtLeastLengthGap(a, b, i - 1, j);
      DistanceAtLeastLengthGap(a, b, i, j - 1);
      DistanceAtLeastLengthGap(a, b, i - 1, j - 1);
      if Swapped(a, b, i, j) {
        DistanceAtLeastLengthGap(a, b, i - 2, j - 2);
      }
      CellAtLeastGap(a, b, i, j, Distance(a, b, i - 1, j), Distance(a, b, i, j - 1), Distance(a, b, i - 1, j - 1),
        if Swapped(a, b, i, j) then Distance(a, b, i - 2, j - 2) else 0);
    }
  }

  lemma CellAtMostLonger(a: string, b: string, i: nat, j: nat, up: nat, left: nat, diag: nat, diag2: nat)
    requires 0 < i <= |a| && 0 < j <= |b|
    requires diag <= Max(i - 1, j - 1)
    ensures Cell(a, b, i, j, up, left, diag, diag2) <= Max(i, j)
  {
    MinimumIsLeast(Candidates(a, b, i, j, up, left, diag, diag2), 2);
  }

  /** The distance is at most the longer length: substitute, then insert or delete. */
  lemma {:induction false} DistanceAtMostLongerLength(a: string, b: string, i: nat, j: nat)
    requires i <= |a| && j <= |b|
    ensures Distance(a, b, i, j) <= Max(i, j)
    decreases i + j
  {
    if i > 0 && j > 0 {
      DistanceAtMostLongerLength(a, b, i - 1, j - 1);
      CellAtMostLonger(a, b, i, j, Distance(a, b, i - 1, j), Distance(a, b, i, j - 1), Distance(a, b, i - 1, j - 1),
        if Swapped(a, b, i, j) then Distance(a, b, i - 2, j - 2) else 0);
    }
  }

  /** The bounds of the whole-string distance. */
  lemma EditDistanceBounds(a: string, b: string)
    ensures AbsDiff(|a|, |b|) <= EditDistance(a, b) <= Max(|a|, |b|)
  {
    DistanceAtLeastLengthGap(a, b, |a|, |b|);
    DistanceAtMostLongerLength(a, b, |a|, |b|);
  }

  lemma CellSymmetric(a: string, b: string, i: nat, j: nat, up: nat, left: nat, diag: nat, diag2: nat)
    requires 0 < i <= |a| && 0 < j <= |b|
    ensures Cell(a, b, i, j, up, left, diag, diag2) == Cell(b, a, j, i, left, up, diag, diag2)
  {
    assert Swapped(a, b, i, j) <==> Swapped(b, a, j, i);
    var cost := if a[i - 1] != b[j - 1] then 1 else 0;
    var rest := [diag + cost] + if Swapped(a, b, i, j) then [diag2 + 1] else [];
    assert Candidates(a, b, i, j, up, left, diag, diag2) == [up + 1, left + 1] + rest;
    assert Candidates(b, a, j, i, left, up, diag, diag2) == [left + 1, up + 1] + rest;
    MinimumSwapFront(up + 1, left + 1, rest);
  }

  /** The table is symmetric: swapping the strings transposes it. */
  lemma {:induction false} DistanceSymmetric(a: string, b: string, i: nat, j: nat)
    requires i <= |a| && j <= |b|
    ensures Distance(a, b, i, j) == Distance(b, a, j, i)
    decreases i + j
  {
    if i > 0 && j > 0 {
      DistanceSymmetric(a, b, i - 1, j);
      DistanceSymmetric(a, b, i, j - 1);
      DistanceSymmetric(a, b, i - 1, j - 1);
      assert Swapped(a, b, i, j) <==> Swapped(b, a, j, i);
      if Swapped(a, b, i, j) {
        DistanceSymmetric(a, b, i - 2, j - 2);
      }
      CellSymmetric(a, b, i, j, Distance(a, b, i - 1, j), Distance(a, b, i, j - 1), Distance(a, b, i - 1, j - 1),
        if Swapped(a, b, i, j) then Distance(a, b, i - 2, j - 2) else 0);
    }
  }

  lemma EditDistanceSymmetric(a: string, b: string)
    ensures EditDistance(a, b) == EditDistance(b, a)
  {
    DistanceSymmetric(a, b, |a|, |b|);
  }

  /** Dropping the last character costs exactly one edit; "abcde" against "abcd" is one such case. */
  lemma DropLastCharacter(a: string, b: string)
    requires |a| == |b| + 1 && a[..|b|] == b
    ensures EditDistance(a, b) == 1
  {
    var n := |b|;
    assert a[..n] == b[..n];
    EqualPrefixesAtZero(a, b, n);
    DistanceAtLeastLengthGap(a, b, |a|, n);
    if n > 0 {
      assert Distance(a, b, n + 1, n) <= Distance(a, b, n, n) + 1;
    }
  }

  lemma SimilarStringsExample()
    ensures EditDistance("abcde", "abcd") == 1
  {
    DropLastCharacter("abcde", "abcd");
  }
}
