/**
 * The Held-Karp dynamic program over bitmask subsets. `memory[c][s]` is the length of the
 * shortest path that leaves `start`, visits exactly the cities of the mask `s` and ends at
 * city `c`; the tour length is read off the full mask and the tour is rebuilt backwards.
 *
 * The table is a sequence of maps: a mask absent from `memory[c]` is an entry that was never
 * written. Every read below requires its entry to be present, which is how the model proves
 * that the table is filled before it is read (the Java code would silently read its default 0).
 */
module Salesman {
  import opened Wrappers
  import opened Bits
  import opened Cities
  import opened Tours
  import AdjacencyMatrix
  import MatrixOps

  type Matrix = AdjacencyMatrix.Matrix

  /** `memory[c][s]`, one map of written entries per city. */
  type Memory = seq<map<nat, int>>

  /**
   * The distance matrix of the cities: -1 on the diagonal, and the distance between city `i`
   * and city `j` (`i < j`) at both `[i][j]` and `[j][i]`.
   */
  method GenerateAdjacencyMatrix(cities: seq<City>, dist: (City, City) -> nat) returns (m: Matrix)
    ensures AdjacencyMatrix.Square(m, |cities|)
    ensures forall i :: 0 <= i < |cities| ==> m[i][i] == AdjacencyMatrix.Sentinel
    ensures forall i, j :: 0 <= i < j < |cities| ==> m[i][j] == dist(cities[i], cities[j]) && m[j][i] == m[i][j]
  {
    var a := MatrixOps.FromCities(cities, dist);
    m := MatrixOps.Contents(a);
  }

  // ---------------------------------------------------------------------------------------
  // Subsets

  /** `((1 << i) & subset) == 0`. */
  predicate NotIn(i: nat, subset: nat)
  {
    And(Pow2(i), subset) == 0
  }

  /** `notIn(i, s)` holds exactly when bit `i` of `s` is clear. */
  lemma NotInIsClearBit(i: nat, subset: nat)
    ensures NotIn(i, subset) <==> !Has(subset, i)
  {
    HasAnd(Pow2(i), subset, i);
    HasPow2(i, i);
    if !Has(subset, i) {
      forall j: nat
        ensures Has(And(Pow2(i), subset), j) == Has(0, j)
      {
        HasAnd(Pow2(i), subset, j);
        HasPow2(i, j);
        HasZero(j);
      }
      Ext(And(Pow2(i), subset), 0);
    } else {
      HasZero(i);
    }
  }

  /** All `r`-element subsets of `0 .. n-1`, as masks, in the order the recursion finds them. */
  function Combinations(r: nat, n: nat): seq<nat>
  {
    Combine(0, 0, r, n)
  }

  /** The recursive enumeration: `chosen` holds the cities chosen so far, all below `at`. */
  function Combine(chosen: nat, at: nat, r: nat, n: nat): seq<nat>
    decreases r, if at <= n then n - at else 0, 1
  {
    if r == 0 then [chosen] else CombineFrom(chosen, at, r, n)
  }

  /**
   * The loop `for (i = at; i < n; i++)` of the enumeration from `i` on: add city `i`, recurse,
   * remove city `i` again.
   */
  function CombineFrom(chosen: nat, i: nat, r: nat, n: nat): seq<nat>
    requires r > 0
    decreases r, if i <= n then n - i else 0, 0
  {
    if i >= n then []
    else
      var added := Or(chosen, Pow2(i));
      Combine(added, i + 1, r - 1, n) + CombineFrom(AndNot(added, Pow2(i)), i + 1, r, n)
  }

  ghost predicate AgreeBelow(x: nat, chosen: nat, i: nat)
  {
    forall j: nat :: j < i ==> (Has(x, j) <==> Has(chosen, j))
  }

  lemma {:induction false} CombineMembers(chosen: nat, at: nat, r: nat, n: nat)
    requires at <= n && Below(chosen, at)
    ensures forall x: nat :: x in Combine(chosen, at, r, n) <==> AgreeBelow(x, chosen, at) && Below(x, n) && CountIn(x, at, n) == r
    ensures Distinct(Combine(chosen, at, r, n))
    decreases r, n - at, 1
  {
    if r == 0 {
      forall x: nat
        ensures x in Combine(chosen, at, r, n) <==> AgreeBelow(x, chosen, at) && Below(x, n) && CountIn(x, at, n) == 0
      {
        if x == chosen {
          CountNone(chosen, at, n);
        }
        if AgreeBelow(x, chosen, at) && Below(x, n) && CountIn(x, at, n) == 0 {
          forall j: nat
            ensures Has(x, j) == Has(chosen, j)
          {
            if at <= j < n {
              NoBit(x, at, n, j);
            }
          }
          Ext(x, chosen);
        }
      }
    } else {
      CombineFromMembers(chosen, at, r, n);
    }
  }

  lemma {:induction false} CombineFromMembers(chosen: nat, i: nat, r: nat, n: nat)
    requires r > 0 && i <= n && Below(chosen, i)
    ensures forall x: nat :: x in CombineFrom(chosen, i, r, n) <==> AgreeBelow(x, chosen, i) && Below(x, n) && CountIn(x, i, n) == r
    ensures Distinct(CombineFrom(chosen, i, r, n))
    decreases r, n - i, 0
  {
    if i < n {
      var added := Or(chosen, Pow2(i));
      var restored := AndNot(added, Pow2(i));
      SetOn(chosen, i);
      SetOff(added, i);
      CombineMembers(added, i + 1, r - 1, n);
      CombineFromMembers(restored, i + 1, r, n);
      var left := Combine(added, i + 1, r - 1, n);
      var right := CombineFrom(restored, i + 1, r, n);
      forall x: nat
        ensures x in left + right <==> AgreeBelow(x, chosen, i) && Below(x, n) && CountIn(x, i, n) == r
      {
        CountSplitLow(x, i, n);
      }
      forall a, b | 0 <= a < |left| && 0 <= b < |right|
        ensures left[a] != right[b]
      {
        assert left[a] in left && right[b] in right;
        assert Has(left[a], i) && !Has(right[b], i);
      }
    } else {
      forall x: nat
        ensures CountIn(x, i, n) == 0
      {
      }
    }
  }

  /**
   * `combinations(r, n)` lists every mask whose chosen bits are `r` cities below `n`, each exactly
   * once.
   */
  lemma CombinationsExactly(r: nat, n: nat)
    ensures forall x: nat :: x in Combinations(r, n) <==> Below(x, n) && PopCount(x, n) == r
    ensures Distinct(Combinations(r, n))
  {
    forall j: nat
      ensures !Has(0, j)
    {
      HasZero(j);
    }
    CombineMembers(0, 0, r, n);
  }

  // ---------------------------------------------------------------------------------------
  // The table

  /** A set of cities below `n` that contains `start`: a row index of the table. */
  ghost predicate IsState(s: nat, n: nat, start: nat)
  {
    Below(s, n) && Has(s, start)
  }

  /** `end` may be the city before `next` on a path over `s`. */
  ghost predicate IsEnd(s: nat, n: nat, start: nat, next: nat, end: int)
  {
    0 <= end < n && end != start && end != next && Has(s, end)
  }

  /** After `setup`: `memory[i][{start, i}]` is the edge `start -> i` for every `i != start`. */
  ghost predicate SetUp(m: Matrix, n: nat, start: nat, memory: Memory)
    requires AdjacencyMatrix.Square(m, n) && (n == 0 || start < n)
  {
    |memory| == n &&
    forall i :: 0 <= i < n && i != start ==>
      Or(Pow2(start), Pow2(i)) in memory[i] && memory[i][Or(Pow2(start), Pow2(i))] == m[start][i]
  }

  /**
   * `v` is the least `memory[end][s - {next}] + m[end][next]` over the cities `end` of `s` other
   * than `start` and `next`, every one of those entries having been written.
   */
  ghost predicate IsMinimum(m: Matrix, n: nat, start: nat, memory: Memory, s: nat, next: nat, v: int)
    requires AdjacencyMatrix.Square(m, n) && |memory| == n && next < n
  {
    var prev := Xor(s, Pow2(next));
    && (forall end :: IsEnd(s, n, start, next, end) ==> prev in memory[end] && v <= memory[end][prev] + m[end][next])
    && (exists end :: IsEnd(s, n, start, next, end) && prev in memory[end] && v == memory[end][prev] + m[end][next])
  }

  /** The Held-Karp recurrence holds at `memory[next][s]`. */
  ghost predicate Recurrence(m: Matrix, n: nat, start: nat, memory: Memory, s: nat, next: nat)
    requires AdjacencyMatrix.Square(m, n) && |memory| == n && next < n
  {
    s in memory[next] && IsMinimum(m, n, start, memory, s, next, memory[next][s])
  }

  /** The entry `memory[next][s]` holds its final value. */
  ghost predicate Filled(m: Matrix, n: nat, start: nat, memory: Memory, s: nat, next: nat)
    requires AdjacencyMatrix.Square(m, n) && |memory| == n && next < n && start < n
  {
    if PopCount(s, n) == 2 then s in memory[next] && memory[next][s] == m[start][next]
    else Recurrence(m, n, start, memory, s, next)
  }

  /** Every entry whose mask counts `lo .. hi-1` cities holds its final value. */
  ghost predicate Solved(m: Matrix, n: nat, start: nat, memory: Memory, lo: nat, hi: nat)
    requires AdjacencyMatrix.Square(m, n) && |memory| == n && start < n
  {
    forall s: nat, next {:trigger Filled(m, n, start, memory, s, next)} ::
      (IsState(s, n, start) && lo <= PopCount(s, n) < hi && 0 <= next < n && next != start && Has(s, next)) ==>
      Filled(m, n, start, memory, s, next)
  }

  /** `memory[c][s] = v`. */
  function Write(memory: Memory, c: nat, s: nat, v: int): (r: Memory)
    requires c < |memory|
    ensures |r| == |memory|
    ensures forall d :: 0 <= d < |memory| && d != c ==> r[d] == memory[d]
    ensures r[c] == memory[c][s := v]
  {
    var row: map<nat, int> := memory[c][s := v];
    memory[c := row]
  }

  /** `memory` and `memory'` agree on the entries of mask `s`. */
  ghost predicate SameAt(memory: Memory, memory': Memory, s: nat)
    requires |memory| == |memory'|
  {
    forall c :: 0 <= c < |memory| ==>
      (s in memory[c] <==> s in memory'[c]) && (s in memory[c] ==> memory'[c][s] == memory[c][s])
  }

  lemma RecurrenceFrame(m: Matrix, n: nat, start: nat, memory: Memory, memory': Memory, s: nat, next: nat)
    requires AdjacencyMatrix.Square(m, n) && |memory| == n && |memory'| == n && next < n
    requires s in memory[next] <==> s in memory'[next]
    requires s in memory[next] ==> memory'[next][s] == memory[next][s]
    requires SameAt(memory, memory', Xor(s, Pow2(next)))
    requires Recurrence(m, n, start, memory, s, next)
    ensures Recurrence(m, n, start, memory', s, next)
  {
    var end :| IsEnd(s, n, start, next, end) && Xor(s, Pow2(next)) in memory[end] &&
      memory[next][s] == memory[end][Xor(s, Pow2(next))] + m[end][next];
    assert IsEnd(s, n, start, next, end) && Xor(s, Pow2(next)) in memory'[end] &&
      memory'[next][s] == memory'[end][Xor(s, Pow2(next))] + m[end][next];
  }

  lemma FilledFrame(m: Matrix, n: nat, start: nat, memory: Memory, memory': Memory, s: nat, next: nat)
    requires AdjacencyMatrix.Square(m, n) && |memory| == n && |memory'| == n && next < n && start < n
    requires SameAt(memory, memory', s) && SameAt(memory, memory', Xor(s, Pow2(next)))
    requires Filled(m, n, start, memory, s, next)
    ensures Filled(m, n, start, memory', s, next)
  {
    if PopCount(s, n) != 2 {
      RecurrenceFrame(m, n, start, memory, memory', s, next);
    }
  }

  /** Seeds `memory[i][{start, i}]` with the edge `start -> i` for every city `i != start`. */
  method Setup(m: Matrix, n: nat, start: nat) returns (memory: Memory)
    requires AdjacencyMatrix.Square(m, n) && (n == 0 || start < n)
    ensures SetUp(m, n, start, memory)
    ensures forall c, s :: 0 <= c < n && s in memory[c] ==> c != start && s == Or(Pow2(start), Pow2(c))
  {
    memory := seq(n, _ => map[]);
    var i := 0;
    while i < n
      invariant 0 <= i <= n && |memory| == n
      invariant forall c :: 0 <= c < i && c != start ==>
        Or(Pow2(start), Pow2(c)) in memory[c] && memory[c][Or(Pow2(start), Pow2(c))] == m[start][c]
      invariant forall c, s :: 0 <= c < n && s in memory[c] ==> c < i && c != start && s == Or(Pow2(start), Pow2(c))
    {
      if i != start {
        memory := Write(memory, i, Or(Pow2(start), Pow2(i)), m[start][i]);
      }
      i := i + 1;
    }
  }

  /**
   * The loop over `end` for one `(subset, next)`: the least `memory[end][state] + m[end][next]`
   * over the cities `end` of `subset` other than `start` and `next`, or `None` (the starting
   * `Double.MAX_VALUE`) when there is no such city. Every entry read must have been written.
   */
  method MinOverEnds(m: Matrix, memory: Memory, n: nat, start: nat, subset: nat, next: nat, state: nat)
    returns (minDistance: Option<int>)
    requires AdjacencyMatrix.Square(m, n) && |memory| == n && next < n
    requires state == Xor(subset, Pow2(next))
    requires forall end :: IsEnd(subset, n, start, next, end) ==> state in memory[end]
    ensures minDistance.None? <==> !exists end :: IsEnd(subset, n, start, next, end)
    ensures minDistance.Some? ==> forall end :: IsEnd(subset, n, start, next, end) ==>
      minDistance.value <= memory[end][state] + m[end][next]
    ensures minDistance.Some? ==>
      exists end :: IsEnd(subset, n, start, next, end) && minDistance.value == memory[end][state] + m[end][next]
  {
    minDistance := None;
    var end := 0;
    while end < n
      invariant 0 <= end <= n
      invariant minDistance.None? <==> !exists e :: e < end && IsEnd(subset, n, start, next, e)
      invariant minDistance.Some? ==> forall e :: e < end && IsEnd(subset, n, start, next, e) ==>
        minDistance.value <= memory[e][state] + m[e][next]
      invariant minDistance.Some? ==>
        exists e :: e < end && IsEnd(subset, n, start, next, e) && minDistance.value == memory[e][state] + m[e][next]
    {
      NotInIsClearBit(end, subset);
      if !(end == start || end == next || NotIn(end, subset)) {
        assert IsEnd(subset, n, start, next, end);
        var newDistance := memory[end][state] + m[end][next];
        if minDistance.None? || newDistance < minDistance.value {
          minDistance := Some(newDistance);
        }
      } else {
        assert !IsEnd(subset, n, start, next, end);
      }
      end := end + 1;
    }
  }

  lemma SameAtTrans(a: Memory, b: Memory, c: Memory, s: nat)
    requires |a| == |b| == |c|
    requires SameAt(a, b, s) && SameAt(b, c, s)
    ensures SameAt(a, c, s)
  {
  }

  /** A write to mask `s` leaves every other mask alone. */
  lemma WriteElsewhere(memory: Memory, c: nat, s: nat, v: int, t: nat)
    requires c < |memory| && t != s
    ensures SameAt(memory, Write(memory, c, s, v), t)
  {
  }

  /** Writing the minimum at `memory[next][subset]` keeps the earlier entries of the subset. */
  lemma WriteEntry(m: Matrix, n: nat, start: nat, before: Memory, subset: nat, next: nat, v: int)
    requires AdjacencyMatrix.Square(m, n) && |before| == n && start < n
    requires IsState(subset, n, start) && next < n && next != start && Has(subset, next)
    requires forall x :: 0 <= x < next && x != start && Has(subset, x) ==> Recurrence(m, n, start, before, subset, x)
    requires IsMinimum(m, n, start, before, subset, next, v)
    ensures forall x :: 0 <= x <= next && x != start && Has(subset, x) ==>
      Recurrence(m, n, start, Write(before, next, subset, v), subset, x)
  {
    var after := Write(before, next, subset, v);
    FlipOff(subset, next, n);
    WriteElsewhere(before, next, subset, v, Xor(subset, Pow2(next)));
    assert IsMinimum(m, n, start, after, subset, next, v);
    forall x | 0 <= x < next && x != start && Has(subset, x)
      ensures Recurrence(m, n, start, after, subset, x)
    {
      FlipOff(subset, x, n);
      WriteElsewhere(before, next, subset, v, Xor(subset, Pow2(x)));
      RecurrenceFrame(m, n, start, before, after, subset, x);
    }
  }

  /**
   * The loop over `next` for one subset that contains `start`: writes `memory[next][subset]`
   * for every other city `next` of the subset, reading only entries of one city fewer.
   */
  method FillSubset(m: Matrix, memory: Memory, n: nat, start: nat, subset: nat) returns (memory': Memory)
    requires AdjacencyMatrix.Square(m, n) && |memory| == n && start < n
    requires IsState(subset, n, start) && PopCount(subset, n) >= 3
    requires forall s: nat, c ::
      (IsState(s, n, start) && PopCount(s, n) + 1 == PopCount(subset, n) && 0 <= c < n && c != start && Has(s, c)) ==>
      s in memory[c]
    ensures |memory'| == n
    ensures forall s: nat :: s != subset ==> SameAt(memory, memory', s)
    ensures forall next :: 0 <= next < n && next != start && Has(subset, next) ==>
      Recurrence(m, n, start, memory', subset, next)
  {
    memory' := memory;
    var next := 0;
    while next < n
      invariant 0 <= next <= n && |memory'| == n
      invariant forall s: nat :: s != subset ==> SameAt(memory, memory', s)
      invariant forall x :: 0 <= x < next && x != start && Has(subset, x) ==>
        Recurrence(m, n, start, memory', subset, x)
    {
      NotInIsClearBit(next, subset);
      if !(next == start || NotIn(next, subset)) {
        var state := Xor(subset, Pow2(next));
        ReadsWritten(m, n, start, memory, memory', subset, next);
        var minDistance := MinOverEnds(m, memory', n, start, subset, next, state);
        WriteEntry(m, n, start, memory', subset, next, minDistance.value);
        forall s: nat | s != subset
          ensures SameAt(memory, Write(memory', next, subset, minDistance.value), s)
        {
          WriteElsewhere(memory', next, subset, minDistance.value, s);
          SameAtTrans(memory, memory', Write(memory', next, subset, minDistance.value), s);
        }
        memory' := Write(memory', next, subset, minDistance.value);
      }
      next := next + 1;
    }
  }

  /**
   * Every entry the loop over `end` reads for `(subset, next)` is present, and there is at
   * least one such entry, because `subset` has a third city besides `start` and `next`.
   */
  lemma ReadsWritten(m: Matrix, n: nat, start: nat, memory: Memory, current: Memory, subset: nat, next: nat)
    requires AdjacencyMatrix.Square(m, n) && |memory| == n && |current| == n && start < n
    requires IsState(subset, n, start) && PopCount(subset, n) >= 3
    requires next < n && next != start && Has(subset, next)
    requires forall s: nat, c ::
      (IsState(s, n, start) && PopCount(s, n) + 1 == PopCount(subset, n) && 0 <= c < n && c != start && Has(s, c)) ==>
      s in memory[c]
    requires forall s: nat :: s != subset ==> SameAt(memory, current, s)
    ensures forall end :: IsEnd(subset, n, start, next, end) ==> Xor(subset, Pow2(next)) in current[end]
    ensures exists end :: IsEnd(subset, n, start, next, end)
  {
    var state := Xor(subset, Pow2(next));
    FlipOff(subset, next, n);
    assert IsState(state, n, start);
    assert SameAt(memory, current, state);
    forall end | IsEnd(subset, n, start, next, end)
      ensures state in current[end]
    {
      assert state in memory[end];
    }
    var other := OtherBit(state, start, n);
    assert IsEnd(subset, n, start, next, other);
  }

  /** Right after `setup`, every two-city entry holds its final value. */
  lemma SetUpSolvesPairs(m: Matrix, n: nat, start: nat, memory: Memory)
    requires AdjacencyMatrix.Square(m, n) && start < n && SetUp(m, n, start, memory)
    ensures Solved(m, n, start, memory, 2, 3)
  {
    forall s: nat, next | IsState(s, n, start) && 2 <= PopCount(s, n) < 3 && 0 <= next < n && next != start && Has(s, next)
      ensures Filled(m, n, start, memory, s, next)
    {
      TwoBits(s, start, next, n);
    }
  }

  /** Entries whose masks a round does not write keep their final values. */
  lemma RoundKeeps(m: Matrix, n: nat, start: nat, memory0: Memory, memory: Memory, r: nat)
    requires AdjacencyMatrix.Square(m, n) && start < n && |memory0| == n && |memory| == n
    requires Solved(m, n, start, memory0, 2, r)
    requires forall s: nat :: PopCount(s, n) != r ==> SameAt(memory0, memory, s)
    ensures Solved(m, n, start, memory, 2, r)
  {
    forall s: nat, next | IsState(s, n, start) && 2 <= PopCount(s, n) < r && 0 <= next < n && next != start && Has(s, next)
      ensures Filled(m, n, start, memory, s, next)
    {
      FlipOff(s, next, n);
      FilledFrame(m, n, start, memory0, memory, s, next);
    }
  }

  /** The entries a round reads, one city fewer, are all present. */
  lemma RoundReads(m: Matrix, n: nat, start: nat, memory: Memory, r: nat)
    requires AdjacencyMatrix.Square(m, n) && start < n && |memory| == n && r >= 3
    requires Solved(m, n, start, memory, 2, r)
    ensures forall s: nat, c ::
      (IsState(s, n, start) && PopCount(s, n) + 1 == r && 0 <= c < n && c != start && Has(s, c)) ==>
      s in memory[c]
  {
    forall s: nat, c | IsState(s, n, start) && PopCount(s, n) + 1 == r && 0 <= c < n && c != start && Has(s, c)
      ensures s in memory[c]
    {
      assert Filled(m, n, start, memory, s, c);
    }
  }

  /** Filling one subset keeps the recurrence of the subsets the round already filled. */
  lemma RoundStep(m: Matrix, n: nat, start: nat, before: Memory, after: Memory, subsets: seq<nat>, k: nat, r: nat)
    requires AdjacencyMatrix.Square(m, n) && start < n && |before| == n && |after| == n && k < |subsets|
    requires forall q :: 0 <= q < |subsets| ==> PopCount(subsets[q], n) == r
    requires forall s: nat :: s != subsets[k] ==> SameAt(before, after, s)
    requires forall q, next :: 0 <= q < k && IsState(subsets[q], n, start) && 0 <= next < n && next != start && Has(subsets[q], next) ==>
      Recurrence(m, n, start, before, subsets[q], next)
    requires IsState(subsets[k], n, start) ==> forall next :: 0 <= next < n && next != start && Has(subsets[k], next) ==>
      Recurrence(m, n, start, after, subsets[k], next)
    ensures forall q, next :: 0 <= q <= k && IsState(subsets[q], n, start) && 0 <= next < n && next != start && Has(subsets[q], next) ==>
      Recurrence(m, n, start, after, subsets[q], next)
  {
    forall q, next | 0 <= q < k && IsState(subsets[q], n, start) && 0 <= next < n && next != start && Has(subsets[q], next)
      ensures Recurrence(m, n, start, after, subsets[q], next)
    {
      if subsets[q] != subsets[k] {
        FlipOff(subsets[q], next, n);
        assert SameAt(before, after, subsets[q]);
        assert SameAt(before, after, Xor(subsets[q], Pow2(next)));
        RecurrenceFrame(m, n, start, before, after, subsets[q], next);
      }
    }
  }

  /** One round of `solve`: every subset of `r` cities that contains `start`, in enumeration order. */
  method SolveRound(m: Matrix, memory0: Memory, n: nat, start: nat, r: nat) returns (memory: Memory)
    requires AdjacencyMatrix.Square(m, n) && start < n && |memory0| == n && 3 <= r <= n
    requires Solved(m, n, start, memory0, 2, r)
    ensures |memory| == n
    ensures Solved(m, n, start, memory, 2, r + 1)
  {
    memory := memory0;
    var subsets := Combinations(r, n);
    CombinationsExactly(r, n);
    var k := 0;
    while k < |subsets|
      invariant 0 <= k <= |subsets| && |memory| == n
      invariant forall s: nat :: PopCount(s, n) != r ==> SameAt(memory0, memory, s)
      invariant forall q, next :: 0 <= q < k && IsState(subsets[q], n, start) && 0 <= next < n && next != start && Has(subsets[q], next) ==>
        Recurrence(m, n, start, memory, subsets[q], next)
    {
      var subset := subsets[k];
      assert subset in subsets;
      NotInIsClearBit(start, subset);
      if !NotIn(start, subset) {
        RoundKeeps(m, n, start, memory0, memory, r);
        RoundReads(m, n, start, memory, r);
        ghost var before := memory;
        memory := FillSubset(m, memory, n, start, subset);
        forall s: nat | PopCount(s, n) != r
          ensures SameAt(memory0, memory, s)
        {
          SameAtTrans(memory0, before, memory, s);
        }
        RoundStep(m, n, start, before, memory, subsets, k, r);
      } else {
        RoundStep(m, n, start, memory, memory, subsets, k, r);
      }
      k := k + 1;
    }
    RoundKeeps(m, n, start, memory0, memory, r);
    forall s: nat, next | IsState(s, n, start) && PopCount(s, n) == r && 0 <= next < n && next != start && Has(s, next)
      ensures Filled(m, n, start, memory, s, next)
    {
      var q :| 0 <= q < |subsets| && subsets[q] == s;
    }
  }

  /**
   * `solve`: fills the table for subsets of 3, 4, ..., n cities, in that order, so that every
   * entry a subset reads (one city fewer) was written by `setup` or by an earlier round. After
   * it, every entry `memory[next][s]` with `|s| >= 3` satisfies the Held-Karp recurrence.
   */
  method Solve(m: Matrix, memory0: Memory, n: nat, start: nat) returns (memory: Memory)
    requires AdjacencyMatrix.Square(m, n) && (n == 0 || start < n) && SetUp(m, n, start, memory0)
    ensures |memory| == n
    ensures n > 0 ==> Solved(m, n, start, memory, 2, n + 1)
  {
    memory := memory0;
    if n > 0 {
      SetUpSolvesPairs(m, n, start, memory0);
    }
    var r := 3;
    while r <= n
      invariant 3 <= r && |memory| == n
      invariant r <= n + 1 || r == 3
      invariant n > 0 ==> Solved(m, n, start, memory, 2, r)
    {
      memory := SolveRound(m, memory, n, start, r);
      r := r + 1;
    }
    if n > 0 {
      forall s: nat, next | IsState(s, n, start) && 2 <= PopCount(s, n) < n + 1 && 0 <= next < n && next != start && Has(s, next)
        ensures Filled(m, n, start, memory, s, next)
      {
        CountBound(s, 0, n);
      }
    }
  }

  /** Two distinct cities of a mask make it count at least two. */
  lemma AtLeastTwo(s: nat, a: nat, b: nat, n: nat)
    requires a != b && a < n && b < n && Has(s, a) && Has(s, b)
    ensures PopCount(s, n) >= 2
  {
    FlipOff(s, a, n);
    FlipOff(Xor(s, Pow2(a)), b, n);
  }

  /** Three distinct cities of a mask make it count at least three. */
  lemma AtLeastThree(s: nat, a: nat, b: nat, c: nat, n: nat)
    requires a != b && a != c && b != c && a < n && b < n && c < n && Has(s, a) && Has(s, b) && Has(s, c)
    ensures PopCount(s, n) >= 3
  {
    FlipOff(s, a, n);
    AtLeastTwo(Xor(s, Pow2(a)), b, c, n);
  }

  /** A solved table holds its final value at every entry of a state. */
  lemma SolvedEntry(m: Matrix, n: nat, start: nat, memory: Memory, s: nat, next: nat)
    requires AdjacencyMatrix.Square(m, n) && start < n && |memory| == n
    requires Solved(m, n, start, memory, 2, n + 1)
    requires IsState(s, n, start) && next < n && next != start && Has(s, next)
    ensures 2 <= PopCount(s, n) <= n
    ensures Filled(m, n, start, memory, s, next) && s in memory[next]
  {
    AtLeastTwo(s, start, next, n);
    CountBound(s, 0, n);
  }

  /** A two-city entry of a solved table is the edge from `start`. */
  lemma PairEntry(m: Matrix, n: nat, start: nat, memory: Memory, s: nat, next: nat)
    requires AdjacencyMatrix.Square(m, n) && start < n && |memory| == n && next < n && next != start
    requires forall j: nat :: Has(s, j) <==> j == start || j == next
    requires Filled(m, n, start, memory, s, next)
    ensures s in memory[next] && memory[next][s] == m[start][next]
  {
    Pair(start, next, n);
    Ext(s, Or(Pow2(start), Pow2(next)));
  }

  /** A larger entry of a solved table is bounded by each of its candidates. */
  lemma StepEntry(m: Matrix, n: nat, start: nat, memory: Memory, s: nat, next: nat, end: nat)
    requires AdjacencyMatrix.Square(m, n) && start < n && |memory| == n && next < n
    requires Filled(m, n, start, memory, s, next) && PopCount(s, n) >= 3
    requires IsEnd(s, n, start, next, end)
    ensures s in memory[next] && Xor(s, Pow2(next)) in memory[end]
    ensures memory[next][s] <= memory[end][Xor(s, Pow2(next))] + m[end][next]
  {
  }

  /** A larger entry of a solved table is met by one of its candidates, a smaller state. */
  lemma StepWitness(m: Matrix, n: nat, start: nat, memory: Memory, s: nat, next: nat) returns (end: nat)
    requires AdjacencyMatrix.Square(m, n) && start < n && |memory| == n && next < n && next != start
    requires IsState(s, n, start) && Has(s, next)
    requires Filled(m, n, start, memory, s, next) && PopCount(s, n) != 2
    ensures var prev := Xor(s, Pow2(next));
      && IsEnd(s, n, start, next, end) && IsState(prev, n, start) && Has(prev, end) && !Has(prev, next)
      && PopCount(prev, n) + 1 == PopCount(s, n)
      && (forall j: nat :: Has(s, j) <==> Has(prev, j) || j == next)
      && s in memory[next] && prev in memory[end] && memory[next][s] == memory[end][prev] + m[end][next]
  {
    var prev := Xor(s, Pow2(next));
    assert Recurrence(m, n, start, memory, s, next);
    end :| IsEnd(s, n, start, next, end) && prev in memory[end] &&
      memory[next][s] == memory[end][prev] + m[end][next];
    FlipOff(s, next, n);
  }

  /**
   * Lower bound: once the table is solved, `memory[next][s]` is no longer than any path that
   * leaves `start`, visits exactly the cities of `s` and ends at `next`.
   */
  lemma {:induction false} PathBound(m: Matrix, n: nat, start: nat, memory: Memory, s: nat, next: nat, p: seq<nat>)
    requires AdjacencyMatrix.Square(m, n) && start < n && |memory| == n
    requires Solved(m, n, start, memory, 2, n + 1)
    requires IsPath(p, n, start, s, next)
    ensures next < n && next != start && s in memory[next]
    ensures memory[next][s] <= PathCost(m, n, p)
    decreases |p|
  {
    assert p[0] in p && p[|p| - 1] in p;
    assert Below(s, n) by {
      forall j: nat | Has(s, j) ensures j < n {
        var k :| 0 <= k < |p| && p[k] == j;
      }
    }
    SolvedEntry(m, n, start, memory, s, next);
    if |p| == 2 {
      PairPath(p, n, start, s, next);
      PairEntry(m, n, start, memory, s, next);
      PathOfPair(m, n, start, s, next);
      assert p == [start, next];
    } else {
      var prev := Xor(s, Pow2(next));
      FlipOff(s, next, n);
      PathPrefix(m, n, p, start, s, next, prev);
      var end := p[|p| - 2];
      assert p[1] in p && p[1] != start && p[1] != next;
      AtLeastThree(s, start, next, p[1], n);
      StepEntry(m, n, start, memory, s, next, end);
      PathBound(m, n, start, memory, prev, end, p[..|p| - 1]);
    }
  }

  /**
   * The bound is met: once the table is solved, some path from `start` over exactly the cities
   * of `s`, ending at `next`, has length `memory[next][s]`.
   */
  lemma {:induction false} PathWitness(m: Matrix, n: nat, start: nat, memory: Memory, s: nat, next: nat)
    returns (p: seq<nat>)
    requires AdjacencyMatrix.Square(m, n) && start < n && |memory| == n
    requires Solved(m, n, start, memory, 2, n + 1)
    requires IsState(s, n, start) && next < n && next != start && Has(s, next)
    ensures s in memory[next]
    ensures IsPath(p, n, start, s, next) && PathCost(m, n, p) == memory[next][s]
    decreases PopCount(s, n)
  {
    SolvedEntry(m, n, start, memory, s, next);
    if PopCount(s, n) == 2 {
      TwoBits(s, start, next, n);
      Pair(start, next, n);
      PathOfPair(m, n, start, s, next);
      p := [start, next];
    } else {
      var prev := Xor(s, Pow2(next));
      var end := StepWitness(m, n, start, memory, s, next);
      var p' := PathWitness(m, n, start, memory, prev, end);
      PathExtend(m, n, p', start, prev, end, s, next);
      p := p' + [next];
    }
  }

  /**
   * The closing candidates seen so far: `v` is the least `memory[e][all] + m[e][start]` over the
   * cities `e < hi` other than `start`.
   */
  ghost predicate LeastClosing(m: Matrix, n: nat, start: nat, memory: Memory, hi: nat, v: int)
    requires AdjacencyMatrix.Square(m, n) && |memory| == n && hi <= n && start < n
  {
    && (forall e :: 0 <= e < hi && e != start ==> Full(n) in memory[e] && v <= memory[e][Full(n)] + m[e][start])
    && (exists e :: 0 <= e < hi && e != start && Full(n) in memory[e] && v == memory[e][Full(n)] + m[e][start])
  }

  /** The least closing candidate of a solved table is the length of a shortest round trip. */
  lemma ClosingIsShortest(m: Matrix, n: nat, start: nat, memory: Memory, v: int)
    requires AdjacencyMatrix.Square(m, n) && start < n && |memory| == n && n >= 2
    requires Solved(m, n, start, memory, 2, n + 1)
    requires LeastClosing(m, n, start, memory, n, v)
    ensures IsShortestLength(m, n, start, v)
  {
    forall t | IsTour(t, n, start) ensures v <= TourCost(m, n, start, t) {
      ClosingBound(m, n, start, memory, v, t);
    }
    var e :| 0 <= e < n && e != start && Full(n) in memory[e] && v == memory[e][Full(n)] + m[e][start];
    var t := ClosingMet(m, n, start, memory, e);
  }

  /** Extending the closing candidates by one city `end`. */
  lemma LeastClosingStep(m: Matrix, n: nat, start: nat, memory: Memory, end: nat, before: Option<int>, v: int)
    requires AdjacencyMatrix.Square(m, n) && |memory| == n && end < n && start < n && end != start
    requires Full(n) in memory[end]
    requires before.None? ==> end == 0 || (end == 1 && start == 0)
    requires before.Some? ==> LeastClosing(m, n, start, memory, end, before.value)
    requires v == if before.None? || memory[end][Full(n)] + m[end][start] < before.value
      then memory[end][Full(n)] + m[end][start] else before.value
    ensures LeastClosing(m, n, start, memory, end + 1, v)
  {
  }

  /** A solved table has the full-mask entry of every city but `start`. */
  lemma FullPresent(m: Matrix, n: nat, start: nat, memory: Memory, end: nat)
    requires AdjacencyMatrix.Square(m, n) && start < n && |memory| == n && end < n && end != start
    requires Solved(m, n, start, memory, 2, n + 1)
    ensures Full(n) in memory[end]
  {
    FullMask(n);
    SolvedEntry(m, n, start, memory, Full(n), end);
  }

  lemma ClosingBound(m: Matrix, n: nat, start: nat, memory: Memory, v: int, t: seq<nat>)
    requires AdjacencyMatrix.Square(m, n) && start < n && |memory| == n && n >= 2
    requires Solved(m, n, start, memory, 2, n + 1)
    requires LeastClosing(m, n, start, memory, n, v)
    requires IsTour(t, n, start)
    ensures v <= TourCost(m, n, start, t)
  {
    TourAsPath(m, n, start, t);
    PathBound(m, n, start, memory, Full(n), t[n - 1], t[..n]);
  }

  lemma ClosingMet(m: Matrix, n: nat, start: nat, memory: Memory, e: nat) returns (t: seq<nat>)
    requires AdjacencyMatrix.Square(m, n) && start < n && |memory| == n && e < n && e != start
    requires Solved(m, n, start, memory, 2, n + 1)
    ensures Full(n) in memory[e] && n >= 1
    ensures IsTour(t, n, start) && TourCost(m, n, start, t) == memory[e][Full(n)] + m[e][start]
  {
    FullMask(n);
    var p := PathWitness(m, n, start, memory, Full(n), e);
    PathAsTour(m, n, start, p, e);
    t := p + [start];
  }

  /**
   * `findCost`: the least `memory[end][all cities] + m[end][start]` over the cities `end` other
   * than `start`, or `None` (the Java code's `Double.MAX_VALUE`) when there is no such city. On
   * a solved table that is the length of a shortest round trip from `start`.
   */
  method FindCost(m: Matrix, memory: Memory, n: nat, start: nat) returns (cost: Option<int>)
    requires AdjacencyMatrix.Square(m, n) && |memory| == n && (n == 0 || start < n)
    requires n > 0 ==> Solved(m, n, start, memory, 2, n + 1)
    ensures cost.None? <==> n <= 1
    ensures cost.Some? ==> IsShortestLength(m, n, start, cost.value)
  {
    var endState := Full(n);
    cost := None;
    var end := 0;
    while end < n
      invariant 0 <= end <= n
      invariant cost.None? <==> end == 0 || (end == 1 && start == 0)
      invariant cost.Some? ==> LeastClosing(m, n, start, memory, end, cost.value)
    {
      if end != start {
        FullPresent(m, n, start, memory, end);
        var tourCost := memory[end][endState] + m[end][start];
        ghost var before := cost;
        if cost.None? || tourCost < cost.value {
          cost := Some(tourCost);
        }
        LeastClosingStep(m, n, start, memory, end, before, cost.value);
      }
      end := end + 1;
    }
    if cost.Some? {
      ClosingIsShortest(m, n, start, memory, cost.value);
    }
  }

  /** `j` may precede the last placed city on the rebuilt tour: a city of `state` other than `start`. */
  ghost predicate Candidate(state: nat, n: nat, start: nat, j: int)
  {
    0 <= j < n && j != start && Has(state, j)
  }

  /**
   * The inner loop of `findTour`: the candidate `j` of `state` with the least
   * `memory[j][state] + m[j][last]`, the first such on ties (the Java code compares with `<`),
   * or -1 when `state` has no candidate.
   */
  method ChooseNext(m: Matrix, memory: Memory, n: nat, start: nat, state: nat, last: nat) returns (index: int)
    requires AdjacencyMatrix.Square(m, n) && |memory| == n && last < n
    requires forall j :: Candidate(state, n, start, j) ==> state in memory[j]
    ensures index == -1 <==> forall j :: 0 <= j < n ==> !Candidate(state, n, start, j)
    ensures index != -1 ==> Candidate(state, n, start, index)
    ensures index != -1 ==> forall j :: Candidate(state, n, start, j) ==>
      memory[index][state] + m[index][last] <= memory[j][state] + m[j][last]
    ensures index != -1 ==> forall j :: Candidate(state, n, start, j) && j < index ==>
      memory[index][state] + m[index][last] < memory[j][state] + m[j][last]
  {
    index := -1;
    var j := 0;
    while j < n
      invariant 0 <= j <= n
      invariant index == -1 <==> forall k :: 0 <= k < j ==> !Candidate(state, n, start, k)
      invariant index != -1 ==> index < j && Candidate(state, n, start, index)
      invariant index != -1 ==> forall k :: 0 <= k < j && Candidate(state, n, start, k) ==>
        memory[index][state] + m[index][last] <= memory[k][state] + m[k][last]
      invariant index != -1 ==> forall k :: 0 <= k < index && Candidate(state, n, start, k) ==>
        memory[index][state] + m[index][last] < memory[k][state] + m[k][last]
    {
      NotInIsClearBit(j, state);
      if j != start && !NotIn(j, state) {
        assert Candidate(state, n, start, j);
        if index == -1 {
          index := j;
        }
        var previousDistance := memory[index][state] + m[index][last];
        var newDistance := memory[j][state] + m[j][last];
        if newDistance < previousDistance {
          index := j;
        }
      }
      j := j + 1;
    }
  }

  /**
   * While `findTour` runs backwards, `placed` holds the positions `i+1 .. n-1` of the tour:
   * distinct cities other than `start`, and `state` holds `start` and exactly the cities not
   * placed yet.
   */
  ghost predicate Placed(placed: seq<nat>, n: nat, start: nat, i: nat, state: nat)
  {
    && IsState(state, n, start) && PopCount(state, n) == i + 1 && |placed| + i + 1 == n
    && (forall k :: 0 <= k < |placed| ==> placed[k] < n && placed[k] != start)
    && Distinct(placed)
    && (forall c: nat :: c < n && c != start ==> (Has(state, c) <==> c !in placed))
  }

  lemma PlacedStart(n: nat, start: nat)
    requires start < n
    ensures Placed([], n, start, n - 1, Full(n))
  {
    FullMask(n);
  }

  /** Placing a candidate at position `i` and clearing it from `state` keeps the placement. */
  lemma PlacedStep(placed: seq<nat>, n: nat, start: nat, i: nat, state: nat, index: nat)
    requires 1 <= i && Placed(placed, n, start, i, state) && Candidate(state, n, start, index)
    ensures Placed([index] + placed, n, start, i - 1, Xor(state, Pow2(index)))
  {
    FlipOff(state, index, n);
    var placed' := [index] + placed;
    forall a, b | 0 <= a < b < |placed'| ensures placed'[a] != placed'[b] {
      if a == 0 {
        assert placed'[b] == placed[b - 1] && placed[b - 1] in placed;
      } else {
        assert placed'[a] == placed[a - 1] && placed'[b] == placed[b - 1];
      }
    }
  }

  /** When only `start` is left unplaced, closing the placed cities at `start` gives a round trip. */
  lemma PlacedTour(placed: seq<nat>, n: nat, start: nat, state: nat)
    requires start < n && Placed(placed, n, start, 0, state)
    ensures IsTour([start] + placed + [start], n, start)
  {
    var t := [start] + placed + [start];
    assert t[..n] == [start] + placed;
    forall c: nat | c < n ensures c in t[..n] {
      if c != start {
        OnlyBit(state, start, n, c);
        assert c in placed;
      }
    }
    forall c: nat | c in t[..n] ensures c < n {
      if c != start {
        assert c in placed;
      }
    }
    forall a, b | 0 <= a < b < n ensures t[a] != t[b] {
      assert t[b] == placed[b - 1];
      if a > 0 {
        assert t[a] == placed[a - 1];
      }
    }
  }

  /**
   * The bound `findTour` carries: the best path into `last` over `lastState`, followed by the
   * cities `rest` already placed after it, is no longer than any round trip.
   */
  ghost predicate Bounded(m: Matrix, n: nat, start: nat, memory: Memory, lastState: nat, last: nat, rest: seq<nat>)
    requires AdjacencyMatrix.Square(m, n) && |memory| == n && n >= 1 && last < n && InRange(rest, n)
  {
    lastState in memory[last] &&
    forall t :: IsTour(t, n, start) ==> memory[last][lastState] + PathCost(m, n, rest) <= TourCost(m, n, start, t)
  }

  /** Everything `findTour` knows about the city placed last and the state it came from. */
  ghost predicate Track(m: Matrix, n: nat, start: nat, memory: Memory, lastState: nat, last: nat, state: nat, i: nat, rest: seq<nat>)
    requires AdjacencyMatrix.Square(m, n) && |memory| == n && n >= 1
  {
    && IsState(lastState, n, start) && last < n && last != start && Has(lastState, last)
    && PopCount(lastState, n) == i + 2 && state == Xor(lastState, Pow2(last))
    && InRange(rest, n) && Bounded(m, n, start, memory, lastState, last, rest)
  }

  /** Every candidate of a state of a solved table has its entry. */
  lemma StatePresent(m: Matrix, n: nat, start: nat, memory: Memory, state: nat)
    requires AdjacencyMatrix.Square(m, n) && start < n && |memory| == n
    requires Solved(m, n, start, memory, 2, n + 1) && IsState(state, n, start)
    ensures forall j :: Candidate(state, n, start, j) ==> state in memory[j]
  {
    forall j | Candidate(state, n, start, j) ensures state in memory[j] {
      SolvedEntry(m, n, start, memory, state, j);
    }
  }

  /** The first pick, the city before the return to `start`, closes a shortest round trip. */
  lemma FirstPick(m: Matrix, n: nat, start: nat, memory: Memory, index: nat)
    requires AdjacencyMatrix.Square(m, n) && start < n && |memory| == n && n >= 2
    requires Solved(m, n, start, memory, 2, n + 1)
    requires Candidate(Full(n), n, start, index)
    requires forall j :: Candidate(Full(n), n, start, j) ==> Full(n) in memory[j]
    requires forall j :: Candidate(Full(n), n, start, j) ==>
      memory[index][Full(n)] + m[index][start] <= memory[j][Full(n)] + m[j][start]
    ensures InRange([index, start], n)
    ensures Bounded(m, n, start, memory, Full(n), index, [index, start])
  {
    var v := memory[index][Full(n)] + m[index][start];
    FirstPickLeast(m, n, start, memory, index);
    ClosingIsShortest(m, n, start, memory, v);
    PathCostCons(m, n, index, [start]);
  }

  lemma FirstPickLeast(m: Matrix, n: nat, start: nat, memory: Memory, index: nat)
    requires AdjacencyMatrix.Square(m, n) && start < n && |memory| == n
    requires Candidate(Full(n), n, start, index)
    requires forall j :: Candidate(Full(n), n, start, j) ==> Full(n) in memory[j]
    requires forall j :: Candidate(Full(n), n, start, j) ==>
      memory[index][Full(n)] + m[index][start] <= memory[j][Full(n)] + m[j][start]
    ensures LeastClosing(m, n, start, memory, n, memory[index][Full(n)] + m[index][start])
  {
    FullMask(n);
    forall e | 0 <= e < n && e != start ensures Candidate(Full(n), n, start, e) {
    }
  }

  /**
   * A later pick: the least candidate through `index` is no longer than the entry the table
   * holds for `last`, so the bound moves one city back.
   */
  lemma NextPick(m: Matrix, n: nat, start: nat, memory: Memory, lastState: nat, last: nat, rest: seq<nat>, state: nat, index: nat, i: nat)
    requires AdjacencyMatrix.Square(m, n) && start < n && |memory| == n && n >= 2
    requires Solved(m, n, start, memory, 2, n + 1)
    requires Track(m, n, start, memory, lastState, last, state, i, rest)
    requires i >= 1 && |rest| >= 1 && rest[0] == last
    requires Candidate(state, n, start, index)
    requires forall j :: Candidate(state, n, start, j) ==> state in memory[j]
    requires forall j :: Candidate(state, n, start, j) ==>
      memory[index][state] + m[index][last] <= memory[j][state] + m[j][last]
    ensures InRange([index] + rest, n)
    ensures Bounded(m, n, start, memory, state, index, [index] + rest)
  {
    SolvedEntry(m, n, start, memory, lastState, last);
    var end := StepWitness(m, n, start, memory, lastState, last);
    assert Candidate(state, n, start, end);
    PathCostCons(m, n, index, rest);
  }

  /** The last pick closes the bound: the rebuilt round trip is a shortest one. */
  lemma CloseTour(m: Matrix, n: nat, start: nat, memory: Memory, lastState: nat, last: nat, rest: seq<nat>, state: nat)
    requires AdjacencyMatrix.Square(m, n) && start < n && |memory| == n && n >= 2
    requires Solved(m, n, start, memory, 2, n + 1)
    requires Track(m, n, start, memory, lastState, last, state, 0, rest)
    requires |rest| >= 1 && rest[0] == last && IsTour([start] + rest, n, start)
    ensures IsShortest(m, n, start, [start] + rest)
  {
    SolvedEntry(m, n, start, memory, lastState, last);
    Pair(start, last, n);
    TwoBits(lastState, start, last, n);
    PathCostCons(m, n, start, rest);
  }

  /** One step of `findTour` keeps both the placement and the bound. */
  lemma PickStep(m: Matrix, n: nat, start: nat, memory: Memory, placed: seq<nat>, i: nat, state: nat,
                 lastIndex: nat, lastState: nat, index: nat)
    requires AdjacencyMatrix.Square(m, n) && |memory| == n && 2 <= n && start < n
    requires Solved(m, n, start, memory, 2, n + 1)
    requires 1 <= i < n && Placed(placed, n, start, i, state)
    requires lastIndex < n && lastIndex == (placed + [start])[0]
    requires i == n - 1 ==> state == Full(n) && lastIndex == start
    requires i < n - 1 ==> Track(m, n, start, memory, lastState, lastIndex, state, i, placed + [start])
    requires Candidate(state, n, start, index)
    requires forall j :: Candidate(state, n, start, j) ==> state in memory[j]
    requires forall j :: Candidate(state, n, start, j) ==>
      memory[index][state] + m[index][lastIndex] <= memory[j][state] + m[j][lastIndex]
    ensures Placed([index] + placed, n, start, i - 1, Xor(state, Pow2(index)))
    ensures index == ([index] + placed + [start])[0]
    ensures Track(m, n, start, memory, state, index, Xor(state, Pow2(index)), i - 1, [index] + placed + [start])
  {
    ghost var rest' := [index] + placed + [start];
    if i == n - 1 {
      assert rest' == [index, start];
      FirstPick(m, n, start, memory, index);
    } else {
      assert rest' == [index] + (placed + [start]);
      NextPick(m, n, start, memory, lastState, lastIndex, placed + [start], state, index, i);
    }
    PlacedStep(placed, n, start, i, state, index);
  }

  /**
   * The loop of `findTour` for `n >= 2`: positions `n-1, ..., 1` are filled from the back, each
   * with the candidate that best reaches the city placed after it (`start` for position `n-1`).
   * Writing `tour[i]` for decreasing `i` is modelled as prepending to `placed`.
   */
  method PlaceBackwards(m: Matrix, memory: Memory, n: nat, start: nat) returns (placed: seq<nat>)
    requires AdjacencyMatrix.Square(m, n) && |memory| == n && 2 <= n && start < n
    requires Solved(m, n, start, memory, 2, n + 1)
    ensures IsTour([start] + placed + [start], n, start)
    ensures IsShortest(m, n, start, [start] + placed + [start])
  {
    var lastIndex := start;
    var state := Full(n);
    placed := [];
    ghost var lastState: nat := state;
    PlacedStart(n, start);
    var i := n - 1;
    while i >= 1
      invariant 0 <= i < n
      invariant Placed(placed, n, start, i, state)
      invariant lastIndex < n && lastIndex == (placed + [start])[0]
      invariant i == n - 1 ==> state == Full(n) && lastIndex == start
      invariant i < n - 1 ==> Track(m, n, start, memory, lastState, lastIndex, state, i, placed + [start])
    {
      StatePresent(m, n, start, memory, state);
      ghost var other := OtherBit(state, start, n);
      assert Candidate(state, n, start, other);
      var index := ChooseNext(m, memory, n, start, state, lastIndex);
      PickStep(m, n, start, memory, placed, i, state, lastIndex, lastState, index);
      placed := [index] + placed;
      lastState := state;
      state := Xor(state, Pow2(index));
      lastIndex := index;
      i := i - 1;
    }
    PlacedTour(placed, n, start, state);
    assert [start] + placed + [start] == [start] + (placed + [start]);
    CloseTour(m, n, start, memory, lastState, lastIndex, placed + [start], state);
  }

  /**
   * `findTour`: the tour `start, tour[1], ..., tour[n-1], start`, rebuilt backwards from the full
   * mask. On a solved table it is a round trip through every city that is no longer than any
   * other; with fewer than two cities it is `start` alone, or `start` twice.
   */
  method FindTour(m: Matrix, memory: Memory, n: nat, start: nat) returns (tour: seq<nat>)
    requires AdjacencyMatrix.Square(m, n) && |memory| == n && (n == 0 || start < n)
    requires n > 0 ==> Solved(m, n, start, memory, 2, n + 1)
    ensures IsTour(tour, n, start)
    ensures n >= 1 ==> IsShortest(m, n, start, tour)
  {
    if n == 0 {
      tour := [start];
    } else if n == 1 {
      tour := [start, start];
      forall t | IsTour(t, n, start) ensures TourCost(m, n, start, tour) <= TourCost(m, n, start, t) {
        assert t == tour;
      }
    } else {
      var placed := PlaceBackwards(m, memory, n, start);
      tour := [start] + placed + [start];
    }
  }

  // ---------------------------------------------------------------------------------------
  // The whole search

  /** The distances between the cities as a matrix, stated without the loops that build it. */
  ghost function Distances(cities: seq<City>, dist: (City, City) -> nat): Matrix
  {
    seq(|cities|, i requires 0 <= i < |cities| =>
      seq(|cities|, j requires 0 <= j < |cities| =>
        if i == j then AdjacencyMatrix.Sentinel
        else if i < j then dist(cities[i], cities[j])
        else dist(cities[j], cities[i])))
  }

  /** The matrix `generateAdjacencyMatrix` builds is the distance matrix. */
  lemma GeneratedIsDistances(cities: seq<City>, dist: (City, City) -> nat, m: Matrix)
    requires AdjacencyMatrix.Square(m, |cities|)
    requires forall i :: 0 <= i < |cities| ==> m[i][i] == AdjacencyMatrix.Sentinel
    requires forall i, j :: 0 <= i < j < |cities| ==> m[i][j] == dist(cities[i], cities[j]) && m[j][i] == m[i][j]
    ensures m == Distances(cities, dist)
  {
    var d := Distances(cities, dist);
    forall i | 0 <= i < |cities| ensures m[i] == d[i] {
      forall j | 0 <= j < |cities| ensures m[i][j] == d[i][j] {
        if j < i {
          assert m[j][i] == dist(cities[j], cities[i]);
        }
      }
    }
  }

  /**
   * `travel` without its printing: the distance matrix, the table filled from city 0, the length
   * of the tour (`None`, the Java code's `Double.MAX_VALUE`, with fewer than two cities) and the
   * tour itself. The tour is a shortest round trip from city 0 and the length is its length.
   */
  method Travel(cities: seq<City>, dist: (City, City) -> nat) returns (cost: Option<int>, tour: seq<nat>)
    ensures IsTour(tour, |cities|, 0)
    ensures |cities| >= 1 ==> IsShortest(Distances(cities, dist), |cities|, 0, tour)
    ensures cost.None? <==> |cities| <= 1
    ensures cost.Some? ==> |cities| >= 2 && cost.value == TourCost(Distances(cities, dist), |cities|, 0, tour)
  {
    var m := GenerateAdjacencyMatrix(cities, dist);
    var n := |cities|;
    GeneratedIsDistances(cities, dist, m);
    var startNode := 0;
    var memory := Setup(m, n, startNode);
    memory := Solve(m, memory, n, startNode);
    cost := FindCost(m, memory, n, startNode);
    tour := FindTour(m, memory, n, startNode);
    if cost.Some? {
      ShortestLengthOf(m, n, startNode, cost.value, tour);
    }
  }
}
