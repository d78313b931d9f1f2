/**
 * The reduced-cost adjacency matrix of Little's branch-and-bound method: a square matrix of
 * edge costs in which the value -1 marks a cell to be ignored (the diagonal and excluded
 * edges). This module holds the value-level definitions and their properties; the in-place
 * operations on `array2` are in `MatrixOps`.
 */
module AdjacencyMatrix {
  import opened Wrappers

  /** Marks a cell that takes no part in the reduction. */
  const Sentinel: int := -1

  type Matrix = seq<seq<int>>

  ghost predicate Square(m: Matrix, n: nat)
  {
    |m| == n && forall i :: 0 <= i < n ==> |m[i]| == n
  }

  /** Which kind of line a reduction pass works on. */
  datatype Orientation = Row | Column

  /** Row or column `k` of `m`. */
  function Line(m: Matrix, n: nat, k: nat, o: Orientation): (line: seq<int>)
    requires Square(m, n) && k < n
    ensures |line| == n
    ensures forall q :: 0 <= q < n ==> line[q] == (if o == Row then m[k][q] else m[q][k])
  {
    match o
    case Row => m[k]
    case Column => seq(n, q requires 0 <= q < n => m[q][k])
  }

  /** The line through cell `(i, j)` in orientation `o`. */
  function Owner(i: nat, j: nat, o: Orientation): nat
  {
    if o == Row then i else j
  }

  /** The position of cell `(i, j)` within its line in orientation `o`. */
  function Position(i: nat, j: nat, o: Orientation): nat
  {
    if o == Row then j else i
  }

  ghost predicate AllSentinel(line: seq<int>)
  {
    forall q :: 0 <= q < |line| ==> line[q] == Sentinel
  }

  ghost predicate ContainsZero(line: seq<int>)
  {
    exists q :: 0 <= q < |line| && line[q] == 0
  }

  /**
   * The smallest non-sentinel value of a line, scanning left to right, or `None` when every
   * cell is a sentinel (the scan would still hold its starting value `Double.MAX_VALUE`).
   */
  function LineMin(line: seq<int>): (r: Option<int>)
    ensures r.None? <==> AllSentinel(line)
    ensures r.Some? ==> exists q :: 0 <= q < |line| && line[q] != Sentinel && line[q] == r.value
    ensures r.Some? ==> forall q :: 0 <= q < |line| && line[q] != Sentinel ==> r.value <= line[q]
    decreases |line|
  {
    if |line| == 0 then None
    else
      var rest := LineMin(line[..|line| - 1]);
      var value := line[|line| - 1];
      if value == Sentinel then rest
      else
        match rest
        case None => Some(value)
        case Some(lowest) => Some(if value < lowest then value else lowest)
  }

  /** The value subtracted from a line: its smallest non-sentinel value, or 0 if there is none. */
  function Lowest(line: seq<int>): (lowest: int)
    ensures AllSentinel(line) ==> lowest == 0
    ensures forall q :: 0 <= q < |line| && line[q] != Sentinel ==> lowest <= line[q]
    ensures !AllSentinel(line) ==> exists q :: 0 <= q < |line| && line[q] != Sentinel && line[q] == lowest
  {
    match LineMin(line)
    case None => 0
    case Some(v) => v
  }

  /** The value subtracted from each line of orientation `o`. */
  function Lows(m: Matrix, n: nat, o: Orientation): (lows: seq<int>)
    requires Square(m, n)
    ensures |lows| == n
  {
    seq(n, k requires 0 <= k < n => Lowest(Line(m, n, k, o)))
  }

  function Sum(s: seq<int>): int
  {
    if |s| == 0 then 0 else Sum(s[..|s| - 1]) + s[|s| - 1]
  }

  lemma SumStep(s: seq<int>, i: nat)
    requires i < |s|
    ensures Sum(s[..i + 1]) == Sum(s[..i]) + s[i]
  {
    assert s[..i + 1][..i] == s[..i];
  }

  /** One pass of the reduction: every non-sentinel cell loses the lowest value of its line. */
  function ReduceLines(m: Matrix, n: nat, o: Orientation): (r: Matrix)
    requires Square(m, n)
    ensures Square(r, n)
  {
    var lows := Lows(m, n, o);
    seq(n, i requires 0 <= i < n =>
      seq(n, j requires 0 <= j < n =>
        if m[i][j] == Sentinel then Sentinel else m[i][j] - lows[Owner(i, j, o)]))
  }

  datatype Reduction = Reduction(matrix: Matrix, cost: int)

  /** The row pass, then the column pass over the row-reduced matrix, and the total subtracted. */
  function Reduce(m: Matrix, n: nat): (r: Reduction)
    requires Square(m, n)
    ensures Square(r.matrix, n)
  {
    var rows := ReduceLines(m, n, Row);
    Reduction(ReduceLines(rows, n, Column), Sum(Lows(m, n, Row)) + Sum(Lows(rows, n, Column)))
  }

  /** Every cell that takes part in the reduction is non-negative. */
  ghost predicate NonNegative(m: Matrix, n: nat)
    requires Square(m, n)
  {
    forall i, j :: 0 <= i < n && 0 <= j < n && m[i][j] != Sentinel ==> m[i][j] >= 0
  }

  /** Every line of orientation `o` that is not all sentinels holds a zero. */
  ghost predicate ZeroPerLine(m: Matrix, n: nat, o: Orientation)
    requires Square(m, n)
  {
    forall k :: 0 <= k < n && !AllSentinel(Line(m, n, k, o)) ==> ContainsZero(Line(m, n, k, o))
  }

  ghost predicate SameSentinels(m: Matrix, m': Matrix, n: nat)
    requires Square(m, n) && Square(m', n)
  {
    forall i, j :: 0 <= i < n && 0 <= j < n ==> (m[i][j] == Sentinel <==> m'[i][j] == Sentinel)
  }

  // ---------------------------------------------------------------------------------------
  // One reduction pass

  /** A pass keeps the sentinels exactly, leaves no negative cell and puts a zero in every line. */
  lemma ReduceLinesShape(m: Matrix, n: nat, o: Orientation)
    requires Square(m, n)
    ensures SameSentinels(m, ReduceLines(m, n, o), n)
    ensures NonNegative(ReduceLines(m, n, o), n)
    ensures ZeroPerLine(ReduceLines(m, n, o), n, o)
  {
    var r := ReduceLines(m, n, o);
    var lows := Lows(m, n, o);
    forall i, j | 0 <= i < n && 0 <= j < n && m[i][j] != Sentinel
      ensures r[i][j] >= 0
    {
      var line := Line(m, n, Owner(i, j, o), o);
      assert line[Position(i, j, o)] == m[i][j];
    }
    forall k | 0 <= k < n && !AllSentinel(Line(r, n, k, o))
      ensures ContainsZero(Line(r, n, k, o))
    {
      var line := Line(m, n, k, o);
      var q0 :| 0 <= q0 < n && Line(r, n, k, o)[q0] != Sentinel;
      assert line[q0] != Sentinel;
      var q :| 0 <= q < n && line[q] != Sentinel && line[q] == lows[k];
      assert Line(r, n, k, o)[q] == 0;
    }
  }

  /** On a non-negative matrix with a zero in row `i`, the column pass keeps a zero in row `i`. */
  lemma ColumnPassKeepsRowZero(m: Matrix, n: nat, i: nat)
    requires Square(m, n) && NonNegative(m, n) && i < n
    requires ContainsZero(Line(m, n, i, Row))
    ensures ContainsZero(Line(ReduceLines(m, n, Column), n, i, Row))
  {
    var j :| 0 <= j < n && Line(m, n, i, Row)[j] == 0;
    var column := Line(m, n, j, Column);
    assert column[i] == 0;
    assert Lowest(column) == 0;
    assert Line(ReduceLines(m, n, Column), n, i, Row)[j] == 0;
  }

  // ---------------------------------------------------------------------------------------
  // The full reduction

  /**
   * A cell is a sentinel after the reduction exactly when it was one before, and every other
   * cell ends non-negative, whatever the input.
   */
  lemma ReduceKeepsSentinels(m: Matrix, n: nat)
    requires Square(m, n)
    ensures SameSentinels(m, Reduce(m, n).matrix, n)
    ensures NonNegative(Reduce(m, n).matrix, n)
  {
    var rows := ReduceLines(m, n, Row);
    ReduceLinesShape(m, n, Row);
    ReduceLinesShape(rows, n, Column);
  }

  /** After the reduction every row and every column that is not all sentinels holds a zero. */
  lemma ReduceLeavesZeroPerLine(m: Matrix, n: nat)
    requires Square(m, n)
    ensures ZeroPerLine(Reduce(m, n).matrix, n, Row)
    ensures ZeroPerLine(Reduce(m, n).matrix, n, Column)
  {
    var rows := ReduceLines(m, n, Row);
    var r := ReduceLines(rows, n, Column);
    ReduceLinesShape(m, n, Row);
    ReduceLinesShape(rows, n, Column);
    forall k | 0 <= k < n && !AllSentinel(Line(r, n, k, Row))
      ensures ContainsZero(Line(r, n, k, Row))
    {
      var q :| 0 <= q < n && Line(r, n, k, Row)[q] != Sentinel;
      assert Line(rows, n, k, Row)[q] != Sentinel;
      ColumnPassKeepsRowZero(rows, n, k);
    }
  }

  lemma {:induction false} SumNonNegative(s: seq<int>)
    requires forall q :: 0 <= q < |s| ==> s[q] >= 0
    ensures Sum(s) >= 0
  {
    if |s| > 0 {
      SumNonNegative(s[..|s| - 1]);
    }
  }

  lemma {:induction false} SumZero(s: seq<int>)
    requires forall q :: 0 <= q < |s| ==> s[q] == 0
    ensures Sum(s) == 0
  {
    if |s| > 0 {
      SumZero(s[..|s| - 1]);
    }
  }

  /**
   * The reduction cost is the row minima plus the column minima of the row-reduced matrix,
   * a line that is all sentinels contributing 0; it is non-negative for a non-negative matrix.
   */
  lemma ReduceCostNonNegative(m: Matrix, n: nat)
    requires Square(m, n) && NonNegative(m, n)
    ensures Reduce(m, n).cost >= 0
  {
    var rows := ReduceLines(m, n, Row);
    ReduceLinesShape(m, n, Row);
    var lr := Lows(m, n, Row);
    var lc := Lows(rows, n, Column);
    forall k | 0 <= k < n
      ensures lr[k] >= 0 && lc[k] >= 0
    {
      var line := Line(m, n, k, Row);
      if !AllSentinel(line) {
        var q :| 0 <= q < n && line[q] != Sentinel && line[q] == lr[k];
      }
      var column := Line(rows, n, k, Column);
      if !AllSentinel(column) {
        var q :| 0 <= q < n && column[q] != Sentinel && column[q] == lc[k];
      }
    }
    SumNonNegative(lr);
    SumNonNegative(lc);
  }

  /** A non-negative line that is all sentinels or holds a zero has lowest value 0. */
  lemma LowestOfReducedLine(line: seq<int>)
    requires forall q :: 0 <= q < |line| && line[q] != Sentinel ==> line[q] >= 0
    requires AllSentinel(line) || ContainsZero(line)
    ensures Lowest(line) == 0
  {
    if !AllSentinel(line) {
      var q :| 0 <= q < |line| && line[q] == 0;
      assert line[q] != Sentinel;
    }
  }

  /** A pass over a matrix whose every line already has lowest value 0 changes nothing. */
  lemma ReduceLinesOfReduced(m: Matrix, n: nat, o: Orientation)
    requires Square(m, n) && NonNegative(m, n) && ZeroPerLine(m, n, o)
    ensures ReduceLines(m, n, o) == m
    ensures Sum(Lows(m, n, o)) == 0
  {
    var lows := Lows(m, n, o);
    forall k | 0 <= k < n
      ensures lows[k] == 0
    {
      LowestOfReducedLine(Line(m, n, k, o));
    }
    SumZero(lows);
    var r := ReduceLines(m, n, o);
    forall i | 0 <= i < n
      ensures r[i] == m[i]
    {
      assert forall j :: 0 <= j < n ==> r[i][j] == m[i][j];
    }
  }

  /** Reducing an already reduced matrix costs 0 and changes nothing. */
  lemma ReduceIdempotent(m: Matrix, n: nat)
    requires Square(m, n)
    ensures Reduce(Reduce(m, n).matrix, n) == Reduction(Reduce(m, n).matrix, 0)
  {
    var r := Reduce(m, n).matrix;
    ReduceKeepsSentinels(m, n);
    ReduceLeavesZeroPerLine(m, n);
    ReduceLinesOfReduced(r, n, Row);
    ReduceLinesOfReduced(r, n, Column);
  }

  // ---------------------------------------------------------------------------------------
  // The reduction cost as a lower bound

  function Iota(n: nat): (s: seq<nat>)
    ensures |s| == n && forall k :: 0 <= k < n ==> s[k] == k
  {
    seq(n, k => k)
  }

  /** `p` sends each index `i < n` to a distinct `p[i] < n`: a successor function of a tour is one. */
  ghost predicate IsPermutation(p: seq<nat>, n: nat)
  {
    multiset(p) == multiset(Iota(n))
  }

  /** `p` picks one cell per row and never a sentinel. */
  ghost predicate Avoids(m: Matrix, n: nat, p: seq<nat>)
    requires Square(m, n)
  {
    |p| == n && forall i :: 0 <= i < n ==> p[i] < n && m[i][p[i]] != Sentinel
  }

  /** The cost of choosing cell `(i, p[i])` in every row. */
  function AssignmentCost(m: Matrix, n: nat, p: seq<nat>): int
    requires Square(m, n) && |p| == n && forall i :: 0 <= i < n ==> p[i] < n
  {
    Sum(seq(n, i requires 0 <= i < n => m[i][p[i]]))
  }

  function Pick(c: seq<int>, p: seq<nat>): (r: seq<int>)
    requires forall k :: 0 <= k < |p| ==> p[k] < |c|
    ensures |r| == |p| && forall k :: 0 <= k < |p| ==> r[k] == c[p[k]]
  {
    seq(|p|, k requires 0 <= k < |p| => c[p[k]])
  }

  lemma {:induction false} SumConcat(u: seq<int>, v: seq<int>)
    ensures Sum(u + v) == Sum(u) + Sum(v)
    decreases |v|
  {
    if |v| > 0 {
      assert (u + v)[..|u + v| - 1] == u + v[..|v| - 1];
      SumConcat(u, v[..|v| - 1]);
    } else {
      assert u + v == u;
    }
  }

  lemma {:induction false} SumPointwise(a: seq<int>, b: seq<int>, d: seq<int>)
    requires |a| == |b| == |d|
    requires forall k :: 0 <= k < |a| ==> a[k] == b[k] + d[k]
    ensures Sum(a) == Sum(b) + Sum(d)
    decreases |a|
  {
    if |a| > 0 {
      SumPointwise(a[..|a| - 1], b[..|b| - 1], d[..|d| - 1]);
    }
  }

  lemma PickConcat(c: seq<int>, u: seq<nat>, v: seq<nat>)
    requires forall q :: 0 <= q < |u| ==> u[q] < |c|
    requires forall q :: 0 <= q < |v| ==> v[q] < |c|
    ensures Pick(c, u + v) == Pick(c, u) + Pick(c, v)
  {
  }

  lemma MultisetCancel<T>(a: multiset<T>, b: multiset<T>, x: T)
    requires a + multiset{x} == b + multiset{x}
    ensures a == b
  {
    forall y
      ensures a[y] == b[y]
    {
      assert (a + multiset{x})[y] == (b + multiset{x})[y];
    }
  }

  /** Taking out the entry at `k` takes `c[b[k]]` out of the sum. */
  lemma PickRemove(c: seq<int>, b: seq<nat>, k: nat)
    requires forall q :: 0 <= q < |b| ==> b[q] < |c|
    requires k < |b|
    ensures multiset(b) == multiset(b[..k] + b[k + 1..]) + multiset{b[k]}
    ensures Sum(Pick(c, b)) == Sum(Pick(c, b[..k] + b[k + 1..])) + c[b[k]]
  {
    var x := b[k];
    var left, right := b[..k], b[k + 1..];
    assert b == left + [x] + right;
    var pl, px, pr := Pick(c, left), Pick(c, [x]), Pick(c, right);
    PickConcat(c, left + [x], right);
    PickConcat(c, left, [x]);
    PickConcat(c, left, right);
    assert Pick(c, b) == (pl + px) + pr;
    SumConcat(pl + px, pr);
    SumConcat(pl, px);
    SumConcat(pl, pr);
    assert Sum(px) == c[x] by {
      assert px[..0] == [];
    }
  }

  /** Summing the entries `c[p[k]]` does not depend on the order of `p`. */
  lemma {:induction false} PickReorder(c: seq<int>, a: seq<nat>, b: seq<nat>)
    requires forall k :: 0 <= k < |a| ==> a[k] < |c|
    requires forall k :: 0 <= k < |b| ==> b[k] < |c|
    requires multiset(a) == multiset(b)
    ensures Sum(Pick(c, a)) == Sum(Pick(c, b))
    decreases |a|
  {
    if |a| == 0 {
      assert |multiset(b)| == 0;
    } else {
      var x := a[|a| - 1];
      assert x in multiset(b);
      var k :| 0 <= k < |b| && b[k] == x;
      PickTakeOut(c, a, b, k);
      PickReorder(c, a[..|a| - 1], b[..k] + b[k + 1..]);
    }
  }

  /** Taking the last entry of `a` out of `a`, and an equal entry out of `b`, keeps them permutations. */
  lemma PickTakeOut(c: seq<int>, a: seq<nat>, b: seq<nat>, k: nat)
    requires forall q :: 0 <= q < |a| ==> a[q] < |c|
    requires forall q :: 0 <= q < |b| ==> b[q] < |c|
    requires multiset(a) == multiset(b) && |a| > 0 && k < |b| && b[k] == a[|a| - 1]
    ensures var front, rest := a[..|a| - 1], b[..k] + b[k + 1..];
      && (forall q :: 0 <= q < |front| ==> front[q] < |c|)
      && (forall q :: 0 <= q < |rest| ==> rest[q] < |c|)
      && multiset(front) == multiset(rest)
      && Sum(Pick(c, a)) - Sum(Pick(c, front)) == Sum(Pick(c, b)) - Sum(Pick(c, rest))
  {
    var x := b[k];
    var front, rest := a[..|a| - 1], b[..k] + b[k + 1..];
    PickRemove(c, b, k);
    forall q | 0 <= q < |rest| ensures rest[q] < |c| {
      assert rest[q] == if q < k then b[q] else b[q + 1];
    }
    PickRemove(c, a, |a| - 1);
    assert front + a[|a|..] == front;
    MultisetCancel(multiset(front), multiset(rest), x);
  }

  /** A pass lowers a cell that is not a sentinel by the lowest value of its line, to no less than zero. */
  lemma ReducedCell(m: Matrix, n: nat, o: Orientation, i: nat, j: nat)
    requires Square(m, n) && i < n && j < n && m[i][j] != Sentinel
    ensures ReduceLines(m, n, o)[i][j] == m[i][j] - Lows(m, n, o)[Owner(i, j, o)]
    ensures ReduceLines(m, n, o)[i][j] >= 0
  {
    var line := Line(m, n, Owner(i, j, o), o);
    assert line[Position(i, j, o)] == m[i][j];
  }

  /** The row pass lowers the cost of a sentinel-free choice by exactly the row minima. */
  lemma RowPassCost(m: Matrix, n: nat, p: seq<nat>)
    requires Square(m, n) && Avoids(m, n, p)
    ensures Avoids(ReduceLines(m, n, Row), n, p)
    ensures AssignmentCost(m, n, p) == AssignmentCost(ReduceLines(m, n, Row), n, p) + Sum(Lows(m, n, Row))
  {
    var r := ReduceLines(m, n, Row);
    var lows := Lows(m, n, Row);
    var before := seq(n, i requires 0 <= i < n => m[i][p[i]]);
    var after := seq(n, i requires 0 <= i < n => r[i][p[i]]);
    forall i | 0 <= i < n
      ensures r[i][p[i]] != Sentinel && before[i] == after[i] + lows[i]
    {
      ReducedCell(m, n, Row, i, p[i]);
    }
    SumPointwise(before, after, lows);
  }

  /** The column pass lowers each chosen cell by the lowest value of its column. */
  lemma ColumnPassPointwise(m: Matrix, n: nat, p: seq<nat>)
    requires Square(m, n) && Avoids(m, n, p)
    ensures Avoids(ReduceLines(m, n, Column), n, p)
    ensures AssignmentCost(m, n, p) == AssignmentCost(ReduceLines(m, n, Column), n, p) + Sum(Pick(Lows(m, n, Column), p))
  {
    var r := ReduceLines(m, n, Column);
    var picked := Pick(Lows(m, n, Column), p);
    var before := seq(n, i requires 0 <= i < n => m[i][p[i]]);
    var after := seq(n, i requires 0 <= i < n => r[i][p[i]]);
    forall i | 0 <= i < n
      ensures r[i][p[i]] != Sentinel && before[i] == after[i] + picked[i]
    {
      ReducedCell(m, n, Column, i, p[i]);
    }
    SumPointwise(before, after, picked);
  }

  /**
   * The column pass lowers the cost of a sentinel-free choice of one cell per row and per
   * column by exactly the column minima.
   */
  lemma ColumnPassCost(m: Matrix, n: nat, p: seq<nat>)
    requires Square(m, n) && IsPermutation(p, n) && Avoids(m, n, p)
    ensures Avoids(ReduceLines(m, n, Column), n, p)
    ensures AssignmentCost(m, n, p) == AssignmentCost(ReduceLines(m, n, Column), n, p) + Sum(Lows(m, n, Column))
  {
    var lows := Lows(m, n, Column);
    ColumnPassPointwise(m, n, p);
    PickReorder(lows, p, Iota(n));
    assert Pick(lows, Iota(n)) == lows;
  }

  /**
   * Little's bound: for every choice of one non-sentinel cell per row and per column (a tour's
   * successor function is one), its cost is the reduction cost plus its cost in the reduced
   * matrix, so the reduction cost never exceeds it.
   */
  lemma ReduceLowerBound(m: Matrix, n: nat, p: seq<nat>)
    requires Square(m, n) && IsPermutation(p, n) && Avoids(m, n, p)
    ensures AssignmentCost(m, n, p) == AssignmentCost(Reduce(m, n).matrix, n, p) + Reduce(m, n).cost
    ensures Reduce(m, n).cost <= AssignmentCost(m, n, p)
  {
    var rows := ReduceLines(m, n, Row);
    var r := ReduceLines(rows, n, Column);
    RowPassCost(m, n, p);
    ColumnPassCost(rows, n, p);
    ReduceKeepsSentinels(m, n);
    var reduced := seq(n, i requires 0 <= i < n => r[i][p[i]]);
    forall i | 0 <= i < n
      ensures reduced[i] >= 0
    {
      assert r[i][p[i]] != Sentinel;
    }
    SumNonNegative(reduced);
  }

  // ---------------------------------------------------------------------------------------
  // Excluding an edge

  /** The matrix after committing edge `from -> to`: row `from`, column `to` and cell `(to, from)` become sentinels. */
  function Excluded(m: Matrix, n: nat, from: nat, to: nat): (r: Matrix)
    requires Square(m, n) && from < n && to < n
    ensures Square(r, n)
    ensures AllSentinel(Line(r, n, from, Row)) && AllSentinel(Line(r, n, to, Column)) && r[to][from] == Sentinel
    ensures forall i, j :: 0 <= i < n && 0 <= j < n && r[i][j] != m[i][j] ==> i == from || j == to || (i == to && j == from)
  {
    seq(n, i requires 0 <= i < n =>
      seq(n, j requires 0 <= j < n =>
        if i == from || j == to || (i == to && j == from) then Sentinel else m[i][j]))
  }

  /**
   * After excluding `from -> to` and reducing, row `from` and column `to` are all sentinels, so
   * they add nothing to the cost, and a non-negative matrix still yields a non-negative cost.
   */
  lemma ExcludeThenReduce(m: Matrix, n: nat, from: nat, to: nat)
    requires Square(m, n) && from < n && to < n
    ensures AllSentinel(Line(Reduce(Excluded(m, n, from, to), n).matrix, n, from, Row))
    ensures AllSentinel(Line(Reduce(Excluded(m, n, from, to), n).matrix, n, to, Column))
    ensures Reduce(Excluded(m, n, from, to), n).matrix[to][from] == Sentinel
    ensures NonNegative(m, n) ==> Reduce(Excluded(m, n, from, to), n).cost >= 0
  {
    var e := Excluded(m, n, from, to);
    ReduceKeepsSentinels(e, n);
    if NonNegative(m, n) {
      assert NonNegative(e, n);
      ReduceCostNonNegative(e, n);
    }
  }

  /** Excluding the same edge twice is excluding it once. */
  lemma ExcludeIdempotent(m: Matrix, n: nat, from: nat, to: nat)
    requires Square(m, n) && from < n && to < n
    ensures Excluded(Excluded(m, n, from, to), n, from, to) == Excluded(m, n, from, to)
  {
    var e := Excluded(m, n, from, to);
    var e2 := Excluded(e, n, from, to);
    assert forall i :: 0 <= i < n ==> e2[i] == e[i];
  }
}
