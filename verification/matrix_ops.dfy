/**
 * The operations of the adjacency matrix as the Java code performs them: in place, on a
 * two-dimensional array, each proved to compute the value-level definition of
 * `AdjacencyMatrix`.
 */
module MatrixOps {
  import opened Wrappers
  import opened Cities
  import opened AdjacencyMatrix

  /** The current cells of `a` as a value. */
  function Contents(a: array2<int>): (m: Matrix)
    reads a
    ensures |m| == a.Length0
    ensures forall i :: 0 <= i < a.Length0 ==> |m[i]| == a.Length1
    ensures forall i, j :: 0 <= i < a.Length0 && 0 <= j < a.Length1 ==> m[i][j] == a[i, j]
  {
    seq(a.Length0, i requires 0 <= i < a.Length0 reads a =>
      seq(a.Length1, j requires 0 <= j < a.Length1 reads a => a[i, j]))
  }

  lemma ContentsAre(a: array2<int>, m: Matrix)
    requires |m| == a.Length0
    requires forall i :: 0 <= i < a.Length0 ==> |m[i]| == a.Length1
    requires forall i, j :: 0 <= i < a.Length0 && 0 <= j < a.Length1 ==> m[i][j] == a[i, j]
    ensures Contents(a) == m
  {
    var c := Contents(a);
    forall i | 0 <= i < a.Length0
      ensures c[i] == m[i]
    {
    }
  }

  /**
   * The matrix of all pairwise distances: -1 on the diagonal and, for `i < j`, the distance from
   * city `i` to city `j` in both `[i][j]` and `[j][i]`, so the matrix is symmetric even if
   * `dist` is not.
   */
  method FromCities(cities: seq<City>, dist: (City, City) -> nat) returns (a: array2<int>)
    ensures a.Length0 == |cities| && a.Length1 == |cities|
    ensures forall i :: 0 <= i < |cities| ==> a[i, i] == Sentinel
    ensures forall i, j :: 0 <= i < j < |cities| ==> a[i, j] == dist(cities[i], cities[j]) && a[j, i] == a[i, j]
  {
    var size := |cities|;
    a := new int[size, size]((i, j) => 0);
    var i := 0;
    while i < size
      invariant 0 <= i <= size
      invariant forall r :: 0 <= r < i ==> a[r, r] == Sentinel
      invariant forall r, c :: 0 <= r < i && r < c < size ==> a[r, c] == dist(cities[r], cities[c]) && a[c, r] == a[r, c]
    {
      var origin := cities[i];
      a[i, i] := Sentinel;
      var j := i + 1;
      while j < size
        invariant i + 1 <= j <= size
        invariant a[i, i] == Sentinel
        invariant forall r :: 0 <= r < i ==> a[r, r] == Sentinel
        invariant forall r, c :: 0 <= r < i && r < c < size ==> a[r, c] == dist(cities[r], cities[c]) && a[c, r] == a[r, c]
        invariant forall c :: i < c < j ==> a[i, c] == dist(cities[i], cities[c]) && a[c, i] == a[i, c]
      {
        var destination := cities[j];
        var d := dist(origin, destination);
        a[i, j] := d;
        a[j, i] := d;
        j := j + 1;
      }
      i := i + 1;
    }
  }

  /**
   * The lowest non-sentinel value of row or column `k`, or 0 when every cell of that line is a
   * sentinel.
   */
  method GetLowestValue(a: array2<int>, k: nat, o: Orientation) returns (lowest: int)
    requires a.Length0 == a.Length1 && k < a.Length0
    ensures lowest == Lowest(Line(Contents(a), a.Length0, k, o))
    ensures forall q :: 0 <= q < a.Length0 && Line(Contents(a), a.Length0, k, o)[q] != Sentinel ==> lowest <= Line(Contents(a), a.Length0, k, o)[q]
    ensures AllSentinel(Line(Contents(a), a.Length0, k, o)) ==> lowest == 0
  {
    var n := a.Length0;
    ghost var line := Line(Contents(a), n, k, o);
    var best: Option<int> := None;
    var i := 0;
    while i < n
      invariant 0 <= i <= n
      invariant best == LineMin(line[..i])
    {
      var value := if o == Row then a[k, i] else a[i, k];
      assert line[..i + 1][..i] == line[..i];
      assert value == line[..i + 1][i];
      if value != Sentinel {
        best := match best
          case None => Some(value)
          case Some(b) => Some(if value < b then value else b);
      }
      i := i + 1;
    }
    assert line[..n] == line;
    lowest := match best
      case None => 0
      case Some(v) => v;
  }

  /** `m` with `d` subtracted from every non-sentinel cell of line `k`. */
  function SubtractLine(m: Matrix, n: nat, k: nat, o: Orientation, d: int): (r: Matrix)
    requires Square(m, n)
    ensures Square(r, n)
  {
    seq(n, i requires 0 <= i < n =>
      seq(n, j requires 0 <= j < n =>
        if Owner(i, j, o) == k && m[i][j] != Sentinel then m[i][j] - d else m[i][j]))
  }

  /** `m` after the first `k` lines of a reduction pass. */
  function PartlyReduced(m: Matrix, n: nat, o: Orientation, k: nat): (r: Matrix)
    requires Square(m, n)
    ensures Square(r, n)
  {
    var target := ReduceLines(m, n, o);
    seq(n, i requires 0 <= i < n =>
      seq(n, j requires 0 <= j < n => if Owner(i, j, o) < k then target[i][j] else m[i][j]))
  }

  lemma PartlyReducedStep(m: Matrix, n: nat, o: Orientation, k: nat)
    requires Square(m, n) && k < n
    ensures Line(PartlyReduced(m, n, o, k), n, k, o) == Line(m, n, k, o)
    ensures SubtractLine(PartlyReduced(m, n, o, k), n, k, o, Lows(m, n, o)[k]) == PartlyReduced(m, n, o, k + 1)
  {
    var before := PartlyReduced(m, n, o, k);
    var after := SubtractLine(before, n, k, o, Lows(m, n, o)[k]);
    var next := PartlyReduced(m, n, o, k + 1);
    forall i | 0 <= i < n
      ensures after[i] == next[i]
    {
    }
  }

  lemma PartlyReducedEnds(m: Matrix, n: nat, o: Orientation)
    requires Square(m, n)
    ensures PartlyReduced(m, n, o, 0) == m
    ensures PartlyReduced(m, n, o, n) == ReduceLines(m, n, o)
  {
    var first := PartlyReduced(m, n, o, 0);
    var last := PartlyReduced(m, n, o, n);
    var target := ReduceLines(m, n, o);
    forall i | 0 <= i < n
      ensures first[i] == m[i] && last[i] == target[i]
    {
      assert forall j :: 0 <= j < n ==> Owner(i, j, o) < n;
    }
  }

  /** Subtracts `lowest` from every non-sentinel cell of line `k`; every other cell keeps its value. */
  method SubtractFromLine(a: array2<int>, k: nat, o: Orientation, lowest: int)
    requires a.Length0 == a.Length1 && k < a.Length0
    modifies a
    ensures Contents(a) == SubtractLine(old(Contents(a)), a.Length0, k, o, lowest)
  {
    var n := a.Length0;
    ghost var m := Contents(a);
    var j := 0;
    while j < n
      invariant 0 <= j <= n
      invariant forall r, c :: 0 <= r < n && 0 <= c < n ==>
        a[r, c] == if Owner(r, c, o) == k && Position(r, c, o) < j && m[r][c] != Sentinel then m[r][c] - lowest else m[r][c]
    {
      if o == Row {
        // Skip -1 values.
        if a[k, j] != Sentinel {
          a[k, j] := a[k, j] - lowest;
        }
      } else {
        if a[j, k] != Sentinel {
          a[j, k] := a[j, k] - lowest;
        }
      }
      j := j + 1;
    }
    ContentsAre(a, SubtractLine(m, n, k, o, lowest));
  }

  /** One reduction pass over every row (or every column) of `a`, in place. */
  method ReduceLinesInPlace(a: array2<int>, o: Orientation) returns (cost: int)
    requires a.Length0 == a.Length1
    modifies a
    ensures Contents(a) == ReduceLines(old(Contents(a)), a.Length0, o)
    ensures cost == Sum(Lows(old(Contents(a)), a.Length0, o))
  {
    var n := a.Length0;
    ghost var m := Contents(a);
    ghost var lows := Lows(m, n, o);
    PartlyReducedEnds(m, n, o);
    cost := 0;
    var i := 0;
    while i < n
      invariant 0 <= i <= n
      invariant Contents(a) == PartlyReduced(m, n, o, i)
      invariant cost == Sum(lows[..i])
    {
      PartlyReducedStep(m, n, o, i);
      var lowest := GetLowestValue(a, i, o);
      SubtractFromLine(a, i, o, lowest);
      cost := cost + lowest;
      SumStep(lows, i);
      i := i + 1;
    }
    assert lows[..n] == lows;
  }

  /**
   * Little's reduction in place: the row pass, then the column pass; returns the total
   * subtracted.
   */
  method ReduceAndCost(a: array2<int>) returns (cost: int)
    requires a.Length0 == a.Length1
    modifies a
    ensures Contents(a) == Reduce(old(Contents(a)), a.Length0).matrix
    ensures cost == Reduce(old(Contents(a)), a.Length0).cost
  {
    cost := 0;
    var rowCost := ReduceLinesInPlace(a, Row);
    cost := cost + rowCost;
    var columnCost := ReduceLinesInPlace(a, Column);
    cost := cost + columnCost;
  }

  /** Commits edge `from -> to` in place. */
  method ExcludePath(a: array2<int>, from: nat, to: nat)
    requires a.Length0 == a.Length1 && from < a.Length0 && to < a.Length0
    modifies a
    ensures Contents(a) == Excluded(old(Contents(a)), a.Length0, from, to)
  {
    var n := a.Length0;
    ghost var m := Contents(a);
    ghost var target := Excluded(m, n, from, to);
    a[from, to] := Sentinel;
    a[to, from] := Sentinel;
    var i := 0;
    while i < n
      invariant 0 <= i <= n
      invariant forall r, c :: 0 <= r < n && 0 <= c < n ==>
        a[r, c] == if (r == from && c < i) || (c == to && r < i) || (r == from && c == to) || (r == to && c == from) then Sentinel else m[r][c]
    {
      a[from, i] := Sentinel;
      a[i, to] := Sentinel;
      i := i + 1;
    }
    ContentsAre(a, target);
  }

  /** A copy of `a` in fresh storage: equal cell for cell, and no longer connected to `a`. */
  method Copy(a: array2<int>) returns (c: array2<int>)
    requires a.Length0 == a.Length1
    ensures fresh(c)
    ensures Contents(c) == Contents(a)
  {
    var size := a.Length0;
    c := new int[size, size]((i, j) => 0);
    var i := 0;
    while i < size
      invariant 0 <= i <= size
      invariant forall r, k :: 0 <= r < i && 0 <= k < size ==> c[r, k] == a[r, k]
    {
      var j := 0;
      while j < size
        invariant 0 <= j <= size
        invariant forall r, k :: 0 <= r < i && 0 <= k < size ==> c[r, k] == a[r, k]
        invariant forall k :: 0 <= k < j ==> c[i, k] == a[i, k]
      {
        c[i, j] := a[i, j];
        j := j + 1;
      }
      i := i + 1;
    }
    ContentsAre(c, Contents(a));
  }
}
