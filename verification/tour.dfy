/** The nearest-neighbour tour solver (`nearest_neighbor_tsp`) as a state
    machine: the current location, the ascending list of unvisited indices and
    the route so far; each step moves to the closest unvisited index. */
module Tour {
  import opened Wrappers
  import opened Seqs
  import opened Distance

  /** Removing `start` from the index list raises `ValueError` when `start` is not an index. */
  datatype TourError = StartNotInRange(start: int, size: nat)

  /** Python's `min` over the candidates keyed by their distance in `row`, as
      the position of the winner in `cands`: Python scans left to right and replaces its choice only on a
      strictly smaller key, so the first candidate of least key wins. */
  function NearestPos(row: seq<real>, cands: seq<nat>): (i: nat)
    requires |cands| > 0
    requires forall j :: 0 <= j < |cands| ==> cands[j] < |row|
    ensures i < |cands|
    ensures forall j :: 0 <= j < |cands| ==> row[cands[i]] <= row[cands[j]]
    ensures forall j :: 0 <= j < i ==> row[cands[i]] < row[cands[j]]
  {
    if |cands| == 1 then 0
    else
      var best := NearestPos(row, cands[..|cands| - 1]);
      var last := |cands| - 1;
      if row[cands[last]] < row[cands[best]] then last else best
  }

  /** The candidate `min` returns. */
  function Nearest(row: seq<real>, cands: seq<nat>): nat
    requires |cands| > 0
    requires forall j :: 0 <= j < |cands| ==> cands[j] < |row|
  {
    cands[NearestPos(row, cands)]
  }

  /** `x` is an unvisited index below `n` at least as close as every other
      unvisited index, and strictly closer than every lower-numbered one. */
  ghost predicate IsNearest(row: seq<real>, n: nat, visited: seq<nat>, x: nat)
  {
    && n <= |row| && x < n && x !in visited
    && forall y: nat :: y < n && y !in visited ==> row[x] <= row[y] && (y < x ==> row[x] < row[y])
  }

  /** Ties going to the lowest index make the nearest choice unique. */
  lemma NearestIsUnique(row: seq<real>, n: nat, visited: seq<nat>, x: nat, x': nat)
    requires IsNearest(row, n, visited, x) && IsNearest(row, n, visited, x')
    ensures x == x'
  {
  }

  /** On an ascending candidate list, the first minimum is the nearest index. */
  lemma NearestOfAscending(row: seq<real>, n: nat, visited: seq<nat>, cands: seq<nat>)
    requires n <= |row| && |cands| > 0 && Ascending(cands)
    requires forall j :: 0 <= j < |cands| ==> cands[j] < n
    requires forall y: nat :: y in cands <==> y < n && y !in visited
    ensures IsNearest(row, n, visited, Nearest(row, cands))
  {
    var i := NearestPos(row, cands);
    var x := cands[i];
    assert x in cands;
    forall y: nat | y < n && y !in visited
      ensures row[x] <= row[y] && (y < x ==> row[x] < row[y])
    {
      assert y in cands;
      var j :| 0 <= j < |cands| && cands[j] == y;
      if y < x {
        assert j < i;
      }
    }
  }

  /** The solver's state: `current`, `unvisited` and `route` of `nearest_neighbor_tsp`. */
  datatype SolverState = SolverState(current: nat, unvisited: seq<nat>, route: seq<nat>)

  /** What every state of a run over `n` locations satisfies: the route ends at
      `current`, visits distinct indices below `n`, and `unvisited` lists the
      rest in ascending order. */
  ghost predicate Valid(n: nat, s: SolverState)
  {
    && |s.route| > 0 && s.route[|s.route| - 1] == s.current
    && Ascending(s.unvisited)
    && Distinct(s.route)
    && (forall k :: 0 <= k < |s.route| ==> s.route[k] < n)
    && (forall k :: 0 <= k < |s.unvisited| ==> s.unvisited[k] < n)
    && (forall y: nat :: y in s.unvisited <==> y < n && y !in s.route)
    && |s.route| + |s.unvisited| == n
  }

  /** One iteration of the loop body: pick the nearest unvisited index, append
      it to the route, remove it from `unvisited`, move there. */
  function Step(m: Matrix, s: SolverState): (s': SolverState)
    requires IsSquare(m) && Valid(|m|, s) && |s.unvisited| > 0
    ensures Valid(|m|, s')
    ensures s'.route == s.route + [s'.current]
    ensures IsNearest(m[s.current], |m|, s.route, s'.current)
    ensures |s'.unvisited| == |s.unvisited| - 1
  {
    var next := Nearest(m[s.current], s.unvisited);
    NearestOfAscending(m[s.current], |m|, s.route, s.unvisited);
    MoveKeepsValid(|m|, s, next);
    SolverState(next, RemoveFirst(s.unvisited, next), s.route + [next])
  }

  /** Moving to any unvisited index keeps a state valid. */
  lemma MoveKeepsValid(n: nat, s: SolverState, next: nat)
    requires Valid(n, s) && next in s.unvisited
    ensures Valid(n, SolverState(next, RemoveFirst(s.unvisited, next), s.route + [next]))
  {
    RemoveFirstAscending(s.unvisited, next);
    var unvisited := RemoveFirst(s.unvisited, next);
    var route := s.route + [next];
    assert next !in s.route;
    assert Distinct(route);
    forall k | 0 <= k < |unvisited| ensures unvisited[k] < n {
      assert unvisited[k] in s.unvisited;
    }
    forall y: nat ensures y in unvisited <==> y < n && y !in route {
      if y in unvisited {
        assert y in s.unvisited && y != next;
      }
    }
  }

  /** Route entry `k` is the nearest index to entry `k - 1` among those not
      yet on the route. */
  ghost predicate NearestStep(m: Matrix, t: seq<nat>, k: nat)
  {
    1 <= k < |t| && t[k - 1] < |m| && IsNearest(m[t[k - 1]], |m|, t[..k], t[k])
  }

  /** Every route entry from position `from` on is a nearest step. */
  ghost predicate GreedyFrom(m: Matrix, t: seq<nat>, from: nat)
  {
    forall k :: 1 <= from <= k < |t| ==> NearestStep(m, t, k)
  }

  /** Prepending one nearest step to a greedy suffix extends it. */
  lemma GreedyExtends(m: Matrix, s: SolverState, s1: SolverState, t: seq<nat>)
    requires |s.route| > 0 && s.route[|s.route| - 1] == s.current && s.current < |m|
    requires s1.route == s.route + [s1.current]
    requires IsNearest(m[s.current], |m|, s.route, s1.current)
    requires s1.route <= t && GreedyFrom(m, t, |s1.route|)
    ensures GreedyFrom(m, t, |s.route|)
  {
    var k := |s.route|;
    assert t[..k] == s.route;
    assert t[k - 1] == s.current && t[k] == s1.current;
    assert NearestStep(m, t, k);
  }

  /** Repeats the loop body of `nearest_neighbor_tsp` until no index is left unvisited. */
  function Run(m: Matrix, s: SolverState): (s': SolverState)
    requires IsSquare(m) && Valid(|m|, s)
    ensures Valid(|m|, s') && |s'.unvisited| == 0
    ensures s.route <= s'.route
    ensures GreedyFrom(m, s'.route, |s.route|)
    decreases |s.unvisited|
  {
    if |s.unvisited| == 0 then s
    else
      var s1 := Step(m, s);
      var s' := Run(m, s1);
      GreedyExtends(m, s, s1, s'.route);
      s'
  }

  /** A visiting order of all `n` locations: each index below `n` exactly once. */
  ghost predicate IsPermutation(t: seq<nat>, n: nat)
  {
    && |t| == n
    && Distinct(t)
    && (forall k :: 0 <= k < |t| ==> t[k] < n)
    && (forall i: nat :: i < n ==> i in t)
  }

  /** The tour the heuristic promises: a permutation that starts at `start`
      and always steps to the nearest unvisited location, lowest index on ties. */
  ghost predicate IsGreedyTour(m: Matrix, start: int, t: seq<nat>)
  {
    IsPermutation(t, |m|) && |t| > 0 && t[0] == start && GreedyFrom(m, t, 1)
  }

  /** The state before the loop: every index unvisited except `start`. */
  function Initial(n: nat, start: nat): (s: SolverState)
    requires start < n
    ensures Valid(n, s) && s.route == [start]
  {
    var all := Range(n);
    assert start == all[start];
    RemoveFirstAscending(all, start);
    var s := SolverState(start, RemoveFirst(all, start), [start]);
    assert forall k :: 0 <= k < |s.unvisited| ==> s.unvisited[k] < n by {
      forall k | 0 <= k < |s.unvisited| ensures s.unvisited[k] < n {
        assert s.unvisited[k] in all;
      }
    }
    assert forall y: nat :: y in s.unvisited <==> y < n && y !in s.route by {
      forall y: nat | y < n && y !in s.route ensures y in s.unvisited {
        assert all[y] == y;
      }
    }
    s
  }

  /** When nothing is left unvisited the route covers every index once. */
  lemma FinalRouteIsPermutation(n: nat, s: SolverState)
    requires Valid(n, s) && |s.unvisited| == 0
    ensures IsPermutation(s.route, n)
  {
  }

  /** `nearest_neighbor_tsp(matrix, start)`: fails exactly when `start` is not
      an index of the matrix, and otherwise returns the greedy tour from it. */
  function NearestNeighborTour(m: Matrix, start: int): (r: Result<seq<nat>, TourError>)
    requires IsSquare(m)
    ensures r.Success? <==> 0 <= start < |m|
    ensures r.Failure? ==> r.error == StartNotInRange(start, |m|)
    ensures r.Success? ==> IsGreedyTour(m, start, r.value)
  {
    if 0 <= start < |m| then
      var init := Initial(|m|, start);
      var final := Run(m, init);
      FinalRouteIsPermutation(|m|, final);
      Success(final.route)
    else
      Failure(StartNotInRange(start, |m|))
  }

  /** Two greedy tours from the same start agree on every prefix. */
  lemma {:induction false} GreedyToursAgree(m: Matrix, start: int, t: seq<nat>, u: seq<nat>, k: nat)
    requires IsGreedyTour(m, start, t) && IsGreedyTour(m, start, u)
    requires 1 <= k <= |t|
    ensures t[..k] == u[..k]
  {
    if k > 1 {
      GreedyToursAgree(m, start, t, u, k - 1);
      assert NearestStep(m, t, k - 1) && NearestStep(m, u, k - 1);
      assert t[k - 2] == t[..k - 1][k - 2] == u[..k - 1][k - 2] == u[k - 2];
      NearestIsUnique(m[t[k - 2]], |m|, t[..k - 1], t[k - 1], u[k - 1]);
      assert t[..k] == t[..k - 1] + [t[k - 1]];
      assert u[..k] == u[..k - 1] + [u[k - 1]];
    }
  }

  /** The greedy-tour property pins the solver's output down completely: any
      permutation built by nearest steps from `start` is the one it returns. */
  lemma GreedyTourIsUnique(m: Matrix, start: int, t: seq<nat>)
    requires IsSquare(m) && IsGreedyTour(m, start, t)
    ensures NearestNeighborTour(m, start) == Success(t)
  {
    var u := NearestNeighborTour(m, start).value;
    GreedyToursAgree(m, start, t, u, |t|);
    assert t == t[..|t|] && u == u[..|u|];
  }

  /** Gap between positions `i` and `j` of stops one unit apart on a line. */
  function Gap(i: nat, j: nat): (g: real)
    ensures g >= 0.0 && (g == 0.0 <==> i == j)
  {
    if i <= j then (j - i) as real else (i - j) as real
  }

  /** The table of three stops one unit apart on a line, in the order listed. */
  ghost predicate IsLineMatrix(m: Matrix)
  {
    IsSquare(m) && |m| == 3 && forall i, j :: 0 <= i < 3 && 0 <= j < 3 ==> m[i][j] == Gap(i, j)
  }

  /** From one end of the line the greedy walk follows it. */
  lemma LineGreedyFromEnd(m: Matrix)
    requires IsLineMatrix(m)
    ensures IsGreedyTour(m, 0, [0, 1, 2])
  {
    var t := [0, 1, 2];
    assert m[0][1] == 1.0 && m[0][2] == 2.0 && m[1][2] == 1.0;
    assert t[..1] == [0] && t[..2] == [0, 1];
    assert NearestStep(m, t, 1) && NearestStep(m, t, 2);
    assert IsPermutation(t, 3);
  }

  /** From the middle both neighbours are equally close; the lower index wins. */
  lemma LineGreedyFromMiddle(m: Matrix)
    requires IsLineMatrix(m)
    ensures IsGreedyTour(m, 1, [1, 0, 2])
  {
    var t := [1, 0, 2];
    assert m[1][0] == 1.0 && m[1][2] == 1.0 && m[0][2] == 2.0;
    assert t[..1] == [1] && t[..2] == [1, 0];
    assert NearestStep(m, t, 1) && NearestStep(m, t, 2);
    assert IsPermutation(t, 3);
  }

  /** From one end of the line the tour walks along it. */
  lemma LineFromEnd(m: Matrix)
    requires IsLineMatrix(m)
    ensures NearestNeighborTour(m, 0) == Success([0, 1, 2])
  {
    LineGreedyFromEnd(m);
    GreedyTourIsUnique(m, 0, [0, 1, 2]);
  }

  /** From the middle the tour visits the lower-indexed neighbour first. */
  lemma LineFromMiddle(m: Matrix)
    requires IsLineMatrix(m)
    ensures NearestNeighborTour(m, 1) == Success([1, 0, 2])
  {
    LineGreedyFromMiddle(m);
    GreedyTourIsUnique(m, 1, [1, 0, 2]);
  }
}
