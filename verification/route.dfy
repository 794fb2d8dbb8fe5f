/** The route assembler (`real_route_optimizer`): resolve every identifier,
    choose the start index, build the distance table, run the solver, map the
    tour back to identifiers and pin the requested end. */
module Route {
  import opened Wrappers
  import opened Seqs
  import opened Distance
  import opened Tour

  /** A form field counts only when it is present and non-empty, as Python's
      truth test on `None` and `""` decides. */
  predicate Given(field: Option<string>)
  {
    field.Some? && field.value != ""
  }

  /** The field is given and names one of the identifiers. */
  predicate Names(field: Option<string>, codes: seq<string>)
  {
    Given(field) && field.value in codes
  }

  /** Resolves every identifier to a coordinate in input order, with the resolver
      supplied by the caller. */
  function ResolveAll(codes: seq<string>, resolve: string -> Coord): (coords: seq<Coord>)
    ensures |coords| == |codes|
    ensures forall i :: 0 <= i < |codes| ==> coords[i] == resolve(codes[i])
  {
    seq(|codes|, i requires 0 <= i < |codes| => resolve(codes[i]))
  }

  /** The first position of `start` when it is given and listed, else 0. */
  function StartIndex(codes: seq<string>, start: Option<string>): (i: nat)
    ensures Names(start, codes) ==> i < |codes|
    ensures Names(start, codes) ==> codes[i] == start.value && start.value !in codes[..i]
    ensures !Names(start, codes) ==> i == 0
  {
    if Names(start, codes) then IndexOf(codes, start.value) else 0
  }

  /** `t` is the nearest-neighbour tour over the resolved identifiers from the
      chosen start index: the solver's output, by `GreedyTourIsUnique`. */
  ghost predicate IsRouteTour(codes: seq<string>, start: Option<string>,
                              resolve: string -> Coord, dist: (Coord, Coord) -> real, t: seq<nat>)
  {
    && IsGreedyTour(DistanceMatrix(ResolveAll(codes, resolve), dist), StartIndex(codes, start), t)
    && forall k :: 0 <= k < |t| ==> t[k] < |codes|
  }

  /** The identifiers in tour order, before the end is pinned. It fails only on
      an empty list (the solver is then asked to start at 0 of 0), and it
      rearranges the identifiers without losing or adding any, beginning with
      the chosen start; its order is that of the nearest-neighbour tour. */
  function MappedTour(codes: seq<string>, start: Option<string>,
                      resolve: string -> Coord, dist: (Coord, Coord) -> real)
    : (r: Result<seq<string>, TourError>)
    ensures r.Success? <==> |codes| > 0
    ensures r.Failure? ==> r.error == StartNotInRange(0, 0)
    ensures r.Success? ==> |r.value| == |codes| && multiset(r.value) == multiset(codes)
    ensures r.Success? ==> r.value[0] == codes[StartIndex(codes, start)]
    ensures r.Success? && Distinct(codes) ==> Distinct(r.value)
    ensures r.Success? ==>
      exists t :: IsRouteTour(codes, start, resolve, dist, t) && r.value == Reorder(codes, t)
  {
    var coords := ResolveAll(codes, resolve);
    var startIndex := StartIndex(codes, start);
    var matrix := DistanceMatrix(coords, dist);
    match NearestNeighborTour(matrix, startIndex)
    case Failure(e) => Failure(e)
    case Success(order) =>
      ReorderPermutes(codes, order);
      var route := Reorder(codes, order);
      assert Distinct(codes) ==> Distinct(route) by {
        if Distinct(codes) {
          forall i, j | 0 <= i < j < |route| ensures route[i] != route[j] {
            assert order[i] != order[j];
          }
        }
      }
      assert IsRouteTour(codes, start, resolve, dist, order);
      Success(route)
  }

  /** The end-pinning rewrite: when `end` is given and listed but the route
      does not already end there, drop every copy of it and append it once. */
  function PinEnd(codes: seq<string>, route: seq<string>, end: Option<string>): (r: seq<string>)
    requires |route| > 0
    ensures |r| > 0
    ensures Names(end, codes) ==> r[|r| - 1] == end.value
    ensures !Names(end, codes) ==> r == route
  {
    if Names(end, codes) && route[|route| - 1] != end.value then
      RemoveAll(route, end.value) + [end.value]
    else
      route
  }

  /** What pinning keeps: every other identifier with its multiplicity and in
      its relative order; `end` itself occurs once, unless the route already
      ended with it and is left alone. Together with the last element these
      facts determine the pinned route. */
  lemma PinEndKeepsOthers(codes: seq<string>, route: seq<string>, end: Option<string>)
    requires |route| > 0 && Names(end, codes)
    ensures RemoveAll(PinEnd(codes, route, end), end.value) == RemoveAll(route, end.value)
    ensures forall y :: y != end.value ==> multiset(PinEnd(codes, route, end))[y] == multiset(route)[y]
    ensures route[|route| - 1] != end.value ==> multiset(PinEnd(codes, route, end))[end.value] == 1
    ensures route[|route| - 1] == end.value ==> PinEnd(codes, route, end) == route
  {
    var e := end.value;
    if route[|route| - 1] != e {
      var kept := RemoveAll(route, e);
      RemoveAllAppend(kept, [e], e);
      RemoveAllAbsent(kept, e);
      assert RemoveAll([e], e) == [];
    }
  }

  /** Pinning a route that is already pinned changes nothing. */
  lemma PinEndIdempotent(codes: seq<string>, route: seq<string>, end: Option<string>)
    requires |route| > 0
    ensures PinEnd(codes, PinEnd(codes, route, end), end) == PinEnd(codes, route, end)
  {
  }

  /** `real_route_optimizer(postal_codes, start, end)`: the identifiers in
      nearest-neighbour tour order, with the end pinned. */
  function OptimizeRoute(codes: seq<string>, start: Option<string>, end: Option<string>,
                         resolve: string -> Coord, dist: (Coord, Coord) -> real)
    : (r: Result<seq<string>, TourError>)
    ensures r.Success? <==> |codes| > 0
    ensures r.Success? ==> |r.value| > 0
    ensures r.Success? && Names(end, codes) ==> r.value[|r.value| - 1] == end.value
    ensures r.Success? && !Names(end, codes) ==>
      && multiset(r.value) == multiset(codes)
      && r.value[0] == codes[StartIndex(codes, start)]
    ensures r.Success? ==> exists t ::
      && IsRouteTour(codes, start, resolve, dist, t)
      && (Names(end, codes) ==> RemoveAll(r.value, end.value) == RemoveAll(Reorder(codes, t), end.value))
      && (!Names(end, codes) ==> r.value == Reorder(codes, t))
      && (Names(end, codes) && Reorder(codes, t)[|t| - 1] != end.value ==> multiset(r.value)[end.value] == 1)
      && (Names(end, codes) && Reorder(codes, t)[|t| - 1] == end.value ==> r.value == Reorder(codes, t))
  {
    match MappedTour(codes, start, resolve, dist)
    case Failure(e) => Failure(e)
    case Success(route) =>
      PinnedTourOrder(codes, start, end, resolve, dist, route);
      Success(PinEnd(codes, route, end))
  }

  /** Pinning keeps the tour order of every identifier other than `end`,
      leaves `end` once at the back, or leaves a tour already ending with
      `end` as it is. */
  lemma PinnedTourOrder(codes: seq<string>, start: Option<string>, end: Option<string>,
                        resolve: string -> Coord, dist: (Coord, Coord) -> real, route: seq<string>)
    requires |route| > 0
    requires exists t :: IsRouteTour(codes, start, resolve, dist, t) && route == Reorder(codes, t)
    ensures exists t ::
      && IsRouteTour(codes, start, resolve, dist, t)
      && (Names(end, codes) ==>
            RemoveAll(PinEnd(codes, route, end), end.value) == RemoveAll(Reorder(codes, t), end.value))
      && (!Names(end, codes) ==> PinEnd(codes, route, end) == Reorder(codes, t))
      && (Names(end, codes) && Reorder(codes, t)[|t| - 1] != end.value ==>
            multiset(PinEnd(codes, route, end))[end.value] == 1)
      && (Names(end, codes) && Reorder(codes, t)[|t| - 1] == end.value ==>
            PinEnd(codes, route, end) == Reorder(codes, t))
  {
    var t :| IsRouteTour(codes, start, resolve, dist, t) && route == Reorder(codes, t);
    var pinned := PinEnd(codes, route, end);
    if Names(end, codes) {
      PinEndKeepsOthers(codes, route, end);
      assert RemoveAll(pinned, end.value) == RemoveAll(route, end.value);
    } else {
      assert pinned == route;
    }
    assert IsRouteTour(codes, start, resolve, dist, t);
  }

  /** With at least one code the engine's answer is the solver's route with
      the end pinned. */
  lemma OptimizeRouteOf(codes: seq<string>, start: Option<string>, end: Option<string>,
                        resolve: string -> Coord, dist: (Coord, Coord) -> real)
    requires |codes| > 0
    ensures MappedTour(codes, start, resolve, dist).Success?
    ensures OptimizeRoute(codes, start, end, resolve, dist)
      == Success(PinEnd(codes, MappedTour(codes, start, resolve, dist).value, end))
  {
  }

  /** With distinct identifiers and different start and end, the route is a
      rearrangement of the input that begins at the start and finishes at the
      end whenever those are given and listed. */
  lemma OptimizeRouteDistinct(codes: seq<string>, start: Option<string>, end: Option<string>,
                              resolve: string -> Coord, dist: (Coord, Coord) -> real)
    requires |codes| > 0 && Distinct(codes)
    requires Names(start, codes) && Names(end, codes) ==> start.value != end.value
    ensures OptimizeRoute(codes, start, end, resolve, dist).Success?
    ensures |OptimizeRoute(codes, start, end, resolve, dist).value| == |codes|
    ensures multiset(OptimizeRoute(codes, start, end, resolve, dist).value) == multiset(codes)
    ensures Names(start, codes) ==> OptimizeRoute(codes, start, end, resolve, dist).value[0] == start.value
    ensures Names(end, codes) ==>
      OptimizeRoute(codes, start, end, resolve, dist).value[|codes| - 1] == end.value
  {
    OptimizeRouteOf(codes, start, end, resolve, dist);
    var route := MappedTour(codes, start, resolve, dist).value;
    PinEndOfDistinct(codes, route, end);
  }

  /** Pinning the end of a route without repeats that lists the same
      identifiers keeps its length and contents, and keeps its first element
      unless that is the end being pinned. */
  lemma PinEndOfDistinct(codes: seq<string>, route: seq<string>, end: Option<string>)
    requires |route| > 0 && Distinct(route) && multiset(route) == multiset(codes)
    ensures multiset(PinEnd(codes, route, end)) == multiset(route)
    ensures |PinEnd(codes, route, end)| == |route|
    ensures !Names(end, codes) || route[0] != end.value ==> PinEnd(codes, route, end)[0] == route[0]
  {
    var r := PinEnd(codes, route, end);
    if Names(end, codes) && route[|route| - 1] != end.value {
      var e := end.value;
      assert e in route by {
        assert multiset(route)[e] == multiset(codes)[e] > 0;
      }
      DistinctOccursOnce(route, e);
      PinEndKeepsOthers(codes, route, end);
      assert multiset(r) == multiset(route);
      assert |r| == |route| by {
        assert |multiset(r)| == |multiset(route)|;
      }
      if route[0] != e {
        assert route == [route[0]] + route[1..];
        assert RemoveAll(route, e) == [route[0]] + RemoveAll(route[1..], e);
      }
    }
  }

  /** When the same identifier is both start and end, pinning the end takes it
      away from the front: among distinct identifiers it ends the route and no
      longer begins it. */
  lemma StartAlsoEndLosesFront(codes: seq<string>, start: Option<string>,
                               resolve: string -> Coord, dist: (Coord, Coord) -> real)
    requires |codes| >= 2 && Distinct(codes) && Names(start, codes)
    ensures OptimizeRoute(codes, start, start, resolve, dist).Success?
    ensures |OptimizeRoute(codes, start, start, resolve, dist).value| == |codes|
    ensures OptimizeRoute(codes, start, start, resolve, dist).value[0] != start.value
    ensures OptimizeRoute(codes, start, start, resolve, dist).value[|codes| - 1] == start.value
  {
    OptimizeRouteOf(codes, start, start, resolve, dist);
    var route := MappedTour(codes, start, resolve, dist).value;
    var s := start.value;
    assert route[0] == s;
    assert route[|route| - 1] != s by {
      assert Distinct(route);
      assert |route| - 1 != 0;
    }
    var kept := RemoveAll(route, s);
    assert |kept| == |route| - 1 by {
      DistinctOccursOnce(route, s);
    }
    var r := PinEnd(codes, route, start);
    assert r == kept + [s];
    assert |r| == |codes|;
    assert r[0] == kept[0] && kept[0] in kept;
  }

  /** Manhattan distance; on points sharing a longitude it is the straight-line
      distance. */
  function Manhattan(a: Coord, b: Coord): (d: real)
    ensures d >= 0.0
  {
    (if a.lat >= b.lat then a.lat - b.lat else b.lat - a.lat)
    + (if a.lng >= b.lng then a.lng - b.lng else b.lng - a.lng)
  }

  /** Three different, non-empty codes that `resolve` places one unit apart
      on a line, in the order listed. */
  ghost predicate OnLine(codes: seq<string>, resolve: string -> Coord)
  {
    && ThreeCodes(codes)
    && resolve(codes[0]) == Coord(0.0, 0.0)
    && resolve(codes[1]) == Coord(1.0, 0.0)
    && resolve(codes[2]) == Coord(2.0, 0.0)
  }

  /** The stops on the line give the table of `IsLineMatrix`. */
  lemma LineTable(codes: seq<string>, resolve: string -> Coord)
    requires OnLine(codes, resolve)
    ensures IsLineMatrix(DistanceMatrix(ResolveAll(codes, resolve), Manhattan))
  {
    var coords := ResolveAll(codes, resolve);
    var m := DistanceMatrix(coords, Manhattan);
    forall i, j | 0 <= i < 3 && 0 <= j < 3
      ensures m[i][j] == Gap(i, j)
    {
      assert m[i][j] == Manhattan(coords[i], coords[j]);
    }
  }

  /** Once a greedy tour over the stops' table is known, the engine's answer
      is the codes in that order. */
  lemma MappedTourOf(codes: seq<string>, start: Option<string>,
                     resolve: string -> Coord, dist: (Coord, Coord) -> real, t: seq<nat>)
    requires IsGreedyTour(DistanceMatrix(ResolveAll(codes, resolve), dist), StartIndex(codes, start), t)
    ensures MappedTour(codes, start, resolve, dist) == Success(Reorder(codes, t))
  {
    GreedyTourIsUnique(DistanceMatrix(ResolveAll(codes, resolve), dist), StartIndex(codes, start), t);
  }

  /** Three different codes, none of them empty. */
  ghost predicate ThreeCodes(codes: seq<string>)
  {
    |codes| == 3 && Distinct(codes) && forall k :: 0 <= k < 3 ==> codes[k] != ""
  }

  /** The first and second of three different codes start at their own
      positions. */
  lemma LineStarts(codes: seq<string>)
    requires ThreeCodes(codes)
    ensures StartIndex(codes, Some(codes[0])) == 0
    ensures StartIndex(codes, Some(codes[1])) == 1
  {
    assert codes[0] != "" && codes[1] != "";
    assert codes[0] != codes[1] && codes[1..][0] == codes[1];
  }

  /** The greedy tours over the line's table from its first and second stop. */
  lemma LineGreedy(codes: seq<string>, resolve: string -> Coord)
    requires OnLine(codes, resolve)
    ensures IsGreedyTour(DistanceMatrix(ResolveAll(codes, resolve), Manhattan),
                         StartIndex(codes, Some(codes[0])), [0, 1, 2])
    ensures IsGreedyTour(DistanceMatrix(ResolveAll(codes, resolve), Manhattan),
                         StartIndex(codes, Some(codes[1])), [1, 0, 2])
  {
    LineStarts(codes);
    LineTable(codes, resolve);
    LineGreedyFromEnd(DistanceMatrix(ResolveAll(codes, resolve), Manhattan));
    LineGreedyFromMiddle(DistanceMatrix(ResolveAll(codes, resolve), Manhattan));
  }

  /** Visiting positions 0, 1, 2 keeps three codes in order. */
  lemma KeepAll(codes: seq<string>)
    requires |codes| == 3
    ensures Reorder(codes, [0, 1, 2]) == codes
  {
    var r := Reorder(codes, [0, 1, 2]);
    assert r[0] == codes[0] && r[1] == codes[1] && r[2] == codes[2];
  }

  /** From the first stop on the line the engine walks along it. */
  lemma LineFromFirst(codes: seq<string>, resolve: string -> Coord)
    requires OnLine(codes, resolve)
    ensures MappedTour(codes, Some(codes[0]), resolve, Manhattan) == Success(codes)
  {
    LineGreedy(codes, resolve);
    KeepAll(codes);
    MappedTourOf(codes, Some(codes[0]), resolve, Manhattan, [0, 1, 2]);
  }

  /** Visiting positions 1, 0, 2 swaps the first two of three codes. */
  lemma SwapFirstTwo(codes: seq<string>)
    requires |codes| == 3
    ensures Reorder(codes, [1, 0, 2]) == [codes[1], codes[0], codes[2]]
  {
    var r := Reorder(codes, [1, 0, 2]);
    assert r[0] == codes[1] && r[1] == codes[0] && r[2] == codes[2];
  }

  /** From the middle stop both neighbours are equally near and the one listed
      first is visited first. */
  lemma LineFromSecond(codes: seq<string>, resolve: string -> Coord)
    requires OnLine(codes, resolve)
    ensures MappedTour(codes, Some(codes[1]), resolve, Manhattan) == Success([codes[1], codes[0], codes[2]])
  {
    LineGreedy(codes, resolve);
    SwapFirstTwo(codes);
    MappedTourOf(codes, Some(codes[1]), resolve, Manhattan, [1, 0, 2]);
  }

  /** Three collinear, equally spaced stops: from the first one the route
      walks along the line. */
  lemma CollinearRoute(codes: seq<string>, resolve: string -> Coord)
    requires OnLine(codes, resolve)
    ensures OptimizeRoute(codes, Some(codes[0]), None, resolve, Manhattan) == Success(codes)
  {
    LineFromFirst(codes, resolve);
    OptimizeRouteOf(codes, Some(codes[0]), None, resolve, Manhattan);
  }

  /** From the middle one of the same stops the stop listed first comes next. */
  lemma CollinearRouteFromMiddle(codes: seq<string>, resolve: string -> Coord)
    requires OnLine(codes, resolve)
    ensures OptimizeRoute(codes, Some(codes[1]), None, resolve, Manhattan)
      == Success([codes[1], codes[0], codes[2]])
  {
    LineFromSecond(codes, resolve);
    OptimizeRouteOf(codes, Some(codes[1]), None, resolve, Manhattan);
  }

  /** Dropping the middle one of three values that differs from the others. */
  lemma RemoveMiddle<T>(y: T, x: T, z: T)
    requires x != y && x != z
    ensures RemoveAll([y, x, z], x) == [y, z]
  {
    assert [y, x, z][1..] == [x, z] && [x, z][1..] == [z] && [z][1..] == [];
    assert RemoveAll([z], x) == [z];
    assert RemoveAll([x, z], x) == [z];
  }

  /** Pinning the first of three different codes as the end of the tour
      that visits it second. */
  lemma LinePinned(codes: seq<string>)
    requires ThreeCodes(codes)
    ensures PinEnd(codes, [codes[1], codes[0], codes[2]], Some(codes[0])) == [codes[1], codes[2], codes[0]]
  {
    var x, y, z := codes[0], codes[1], codes[2];
    assert x != "" && x != y && x != z;
    assert Names(Some(x), codes);
    RemoveMiddle(y, x, z);
  }

  /** The middle-start tour with the first stop pinned as the end: that stop
      moves to the back and the other two keep their order. */
  lemma CollinearRoutePinned(codes: seq<string>, resolve: string -> Coord)
    requires OnLine(codes, resolve)
    ensures OptimizeRoute(codes, Some(codes[1]), Some(codes[0]), resolve, Manhattan)
      == Success([codes[1], codes[2], codes[0]])
  {
    LineFromSecond(codes, resolve);
    LinePinned(codes);
    OptimizeRouteOf(codes, Some(codes[1]), Some(codes[0]), resolve, Manhattan);
  }
}
