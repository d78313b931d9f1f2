/**
 * What the Held-Karp table is meant to compute, stated without its loops: paths that visit a
 * set of cities exactly once, round trips through every city, and their lengths in an
 * adjacency matrix. The salesman module proves its table and its rebuilt tour against these.
 */
module Tours {
  import opened Bits
  import AdjacencyMatrix

  /** No city appears twice. */
  ghost predicate Distinct(s: seq<nat>)
  {
    forall a, b :: 0 <= a < b < |s| ==> s[a] != s[b]
  }

  /** `p` lists exactly the cities of the mask `s`. */
  ghost predicate Covers(p: seq<nat>, s: nat)
  {
    forall j: nat :: Has(s, j) <==> j in p
  }

  ghost predicate InRange(p: seq<nat>, n: nat)
  {
    forall k :: 0 <= k < |p| ==> p[k] < n
  }

  /** `p` leaves `start`, visits every city of `s` exactly once and ends at `next`. */
  ghost predicate IsPath(p: seq<nat>, n: nat, start: nat, s: nat, next: nat)
  {
    2 <= |p| && p[0] == start && p[|p| - 1] == next && Distinct(p) && Covers(p, s) && InRange(p, n)
  }

  /** A round trip from `start` through each of the cities `0 .. n-1` once and back. */
  ghost predicate IsTour(t: seq<nat>, n: nat, start: nat)
  {
    && |t| == n + 1 && t[0] == start && t[n] == start
    && Distinct(t[..n])
    && (forall c: nat :: c < n <==> c in t[..n])
  }

  /** The summed edge lengths `m[p[0]][p[1]] + ... + m[p[|p|-2]][p[|p|-1]]`. */
  ghost function PathCost(m: AdjacencyMatrix.Matrix, n: nat, p: seq<nat>): int
    requires AdjacencyMatrix.Square(m, n) && InRange(p, n)
  {
    if |p| < 2 then 0 else PathCost(m, n, p[..|p| - 1]) + m[p[|p| - 2]][p[|p| - 1]]
  }

  /** Every city of a tour is one of `0 .. n-1`. */
  lemma TourInRange(t: seq<nat>, n: nat, start: nat)
    requires n >= 1 && IsTour(t, n, start)
    ensures InRange(t, n)
  {
    assert t[0] in t[..n];
    forall k | 0 <= k < |t| ensures t[k] < n {
      if k < n { assert t[k] in t[..n]; }
    }
  }

  /** The length of a round trip. */
  ghost function TourCost(m: AdjacencyMatrix.Matrix, n: nat, start: nat, t: seq<nat>): int
    requires AdjacencyMatrix.Square(m, n) && n >= 1 && IsTour(t, n, start)
  {
    TourInRange(t, n, start);
    PathCost(m, n, t)
  }

  /** `t` is a round trip no longer than any other. */
  ghost predicate IsShortest(m: AdjacencyMatrix.Matrix, n: nat, start: nat, t: seq<nat>)
    requires AdjacencyMatrix.Square(m, n) && n >= 1
  {
    IsTour(t, n, start) && forall t' :: IsTour(t', n, start) ==> TourCost(m, n, start, t) <= TourCost(m, n, start, t')
  }

  /** `v` is the length of a shortest round trip. */
  ghost predicate IsShortestLength(m: AdjacencyMatrix.Matrix, n: nat, start: nat, v: int)
    requires AdjacencyMatrix.Square(m, n) && n >= 1
  {
    && (forall t :: IsTour(t, n, start) ==> v <= TourCost(m, n, start, t))
    && (exists t :: IsTour(t, n, start) && TourCost(m, n, start, t) == v)
  }

  /** Prepending a city adds the edge from it to the old first city. */
  lemma {:induction false} PathCostCons(m: AdjacencyMatrix.Matrix, n: nat, a: nat, p: seq<nat>)
    requires AdjacencyMatrix.Square(m, n) && InRange(p, n) && a < n && |p| >= 1
    ensures InRange([a] + p, n)
    ensures PathCost(m, n, [a] + p) == m[a][p[0]] + PathCost(m, n, p)
    decreases |p|
  {
    var q := [a] + p;
    assert InRange(q, n) by {
      forall k | 0 <= k < |q| ensures q[k] < n {
        if k > 0 { assert q[k] == p[k - 1]; }
      }
    }
    if |p| == 1 {
      assert q[..1] == [a];
    } else {
      var p' := p[..|p| - 1];
      assert q[..|q| - 1] == [a] + p';
      assert InRange(p', n);
      PathCostCons(m, n, a, p');
    }
  }

  /** A tour over `n >= 2` cities is a path over all of them, closed by the edge back to `start`. */
  lemma TourAsPath(m: AdjacencyMatrix.Matrix, n: nat, start: nat, t: seq<nat>)
    requires AdjacencyMatrix.Square(m, n) && n >= 2 && IsTour(t, n, start)
    ensures InRange(t, n) && t[n - 1] < n
    ensures IsPath(t[..n], n, start, Full(n), t[n - 1])
    ensures PathCost(m, n, t) == PathCost(m, n, t[..n]) + m[t[n - 1]][start]
  {
    TourInRange(t, n, start);
    FullMask(n);
    assert t[..n][n - 1] == t[n - 1];
  }

  /** Closing a path over all `n` cities with the edge back to `start` gives a tour. */
  lemma PathAsTour(m: AdjacencyMatrix.Matrix, n: nat, start: nat, p: seq<nat>, last: nat)
    requires AdjacencyMatrix.Square(m, n) && IsPath(p, n, start, Full(n), last)
    ensures InRange(p + [start], n)
    ensures IsTour(p + [start], n, start)
    ensures PathCost(m, n, p + [start]) == PathCost(m, n, p) + m[last][start]
  {
    FullMask(n);
    var t := p + [start];
    assert |p| == n by {
      DistinctCovers(p, n);
    }
    assert t[..n] == p;
    assert t[..|t| - 1] == p;
  }

  /** A duplicate-free list of exactly the cities `0 .. n-1` has length `n`. */
  lemma {:induction false} DistinctCovers(p: seq<nat>, n: nat)
    requires Distinct(p) && forall c: nat :: c < n <==> c in p
    ensures |p| == n
    decreases n
  {
    if n == 0 {
      assert forall k :: 0 <= k < |p| ==> p[k] in p;
    } else {
      assert n - 1 in p;
      var k :| 0 <= k < |p| && p[k] == n - 1;
      var q := p[..k] + p[k + 1..];
      forall c: nat ensures c < n - 1 <==> c in q {
        if c in q {
          var i :| 0 <= i < |q| && q[i] == c;
          var i' := if i < k then i else i + 1;
          assert q[i] == p[i'] && i' != k;
          assert p[i'] in p && p[i'] != p[k];
        }
        if c < n - 1 {
          assert c in p;
          var i :| 0 <= i < |p| && p[i] == c;
          if i < k { assert q[i] == c; } else { assert q[i - 1] == c; }
        }
      }
      assert Distinct(q) by {
        forall a, b | 0 <= a < b < |q| ensures q[a] != q[b] {
          var a' := if a < k then a else a + 1;
          var b' := if b < k then b else b + 1;
          assert q[a] == p[a'] && q[b] == p[b'];
        }
      }
      DistinctCovers(q, n - 1);
    }
  }

  /** A two-city path is over exactly its two ends. */
  lemma PairPath(p: seq<nat>, n: nat, start: nat, s: nat, next: nat)
    requires IsPath(p, n, start, s, next) && |p| == 2
    ensures start != next && start < n && next < n
    ensures forall j: nat :: Has(s, j) <==> j == start || j == next
  {
    assert p[0] in p && p[1] in p;
  }

  /** The two-city path `start, next` is over the mask of exactly those two. */
  lemma PathOfPair(m: AdjacencyMatrix.Matrix, n: nat, start: nat, s: nat, next: nat)
    requires AdjacencyMatrix.Square(m, n) && start != next && start < n && next < n
    requires forall j: nat :: Has(s, j) <==> j == start || j == next
    ensures IsPath([start, next], n, start, s, next)
    ensures PathCost(m, n, [start, next]) == m[start][next]
  {
    assert [start, next][..1] == [start];
  }

  /**
   * Dropping the last city `next` of a path over `s` leaves a path over `s` without `next`,
   * ending at a city `end` of `s` other than `start` and `next`.
   */
  lemma PathPrefix(m: AdjacencyMatrix.Matrix, n: nat, p: seq<nat>, start: nat, s: nat, next: nat, prev: nat)
    requires AdjacencyMatrix.Square(m, n)
    requires IsPath(p, n, start, s, next) && |p| > 2
    requires forall j: nat :: Has(prev, j) <==> Has(s, j) && j != next
    ensures var end := p[|p| - 2];
      && end != start && end != next && end < n && Has(s, end)
      && IsPath(p[..|p| - 1], n, start, prev, end)
      && PathCost(m, n, p) == PathCost(m, n, p[..|p| - 1]) + m[end][next]
  {
    var p' := p[..|p| - 1];
    assert p[|p| - 2] in p;
    forall j: nat ensures Has(prev, j) <==> j in p' {
      if j in p' {
        var k :| 0 <= k < |p'| && p'[k] == j;
        assert p[k] == j && k != |p| - 1;
      }
      if Has(prev, j) {
        var k :| 0 <= k < |p| && p[k] == j;
        assert k != |p| - 1 && p'[k] == j;
      }
    }
  }

  /** Appending a city `next` outside `prev` to a path over `prev` gives a path over `prev + next`. */
  lemma PathExtend(m: AdjacencyMatrix.Matrix, n: nat, p: seq<nat>, start: nat, prev: nat, end: nat, s: nat, next: nat)
    requires AdjacencyMatrix.Square(m, n)
    requires IsPath(p, n, start, prev, end) && next < n && !Has(prev, next)
    requires forall j: nat :: Has(s, j) <==> Has(prev, j) || j == next
    ensures IsPath(p + [next], n, start, s, next)
    ensures PathCost(m, n, p + [next]) == PathCost(m, n, p) + m[end][next]
  {
    var q := p + [next];
    assert q[..|q| - 1] == p;
    assert next !in p;
    forall j: nat ensures Has(s, j) <==> j in q {
      if j in q {
        var k :| 0 <= k < |q| && q[k] == j;
        if k < |p| { assert p[k] == j; }
      }
      if Has(prev, j) {
        var k :| 0 <= k < |p| && p[k] == j;
        assert q[k] == j;
      }
    }
  }

  /** A shortest round trip has the shortest length. */
  lemma ShortestLengthOf(m: AdjacencyMatrix.Matrix, n: nat, start: nat, v: int, t: seq<nat>)
    requires AdjacencyMatrix.Square(m, n) && n >= 1
    requires IsShortestLength(m, n, start, v) && IsShortest(m, n, start, t)
    ensures v == TourCost(m, n, start, t)
  {
    var t' :| IsTour(t', n, start) && TourCost(m, n, start, t') == v;
  }
}
