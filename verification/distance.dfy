/** Coordinates and the pairwise distance table (`create_distance_matrix`). */
module Distance {

  /** A resolved location: latitude and longitude. */
  datatype Coord = Coord(lat: real, lng: real)

  /** `matrix[i][j]` is the distance from location `i` to location `j`. */
  type Matrix = seq<seq<real>>

  ghost predicate IsSquare(m: Matrix)
  {
    forall i :: 0 <= i < |m| ==> |m[i]| == |m|
  }

  ghost predicate IsSymmetric(m: Matrix)
    requires IsSquare(m)
  {
    forall i, j :: 0 <= i < |m| && 0 <= j < |m| ==> m[i][j] == m[j][i]
  }

  ghost predicate HasZeroDiagonal(m: Matrix)
    requires IsSquare(m)
  {
    forall i :: 0 <= i < |m| ==> m[i][i] == 0.0
  }

  /** The distance function behaves like a metric where the matrix needs it. */
  ghost predicate SymmetricDistance(dist: (Coord, Coord) -> real)
  {
    forall a, b :: dist(a, b) == dist(b, a)
  }

  ghost predicate ZeroSelfDistance(dist: (Coord, Coord) -> real)
  {
    forall a :: dist(a, a) == 0.0
  }

  /** The table of all pairwise distances, one row per coordinate. */
  function DistanceMatrix(coords: seq<Coord>, dist: (Coord, Coord) -> real): (m: Matrix)
    ensures |m| == |coords| && IsSquare(m)
  {
    seq(|coords|, i requires 0 <= i < |coords| =>
      seq(|coords|, j requires 0 <= j < |coords| => dist(coords[i], coords[j])))
  }

  /** The row-by-row construction with two nested loops, as `create_distance_matrix` builds it. */
  method BuildDistanceMatrix(coords: seq<Coord>, dist: (Coord, Coord) -> real) returns (m: Matrix)
    ensures |m| == |coords| && IsSquare(m)
    ensures forall i, j :: 0 <= i < |coords| && 0 <= j < |coords| ==>
      m[i][j] == dist(coords[i], coords[j])
    ensures m == DistanceMatrix(coords, dist)
  {
    var size := |coords|;
    m := [];
    for i := 0 to size
      invariant |m| == i
      invariant forall a :: 0 <= a < i ==> |m[a]| == size
      invariant forall a, b :: 0 <= a < i && 0 <= b < size ==> m[a][b] == dist(coords[a], coords[b])
    {
      var row: seq<real> := [];
      for j := 0 to size
        invariant |row| == j
        invariant forall b :: 0 <= b < j ==> row[b] == dist(coords[i], coords[b])
      {
        row := row + [dist(coords[i], coords[j])];
      }
      m := m + [row];
    }
    var spec := DistanceMatrix(coords, dist);
    assert forall i :: 0 <= i < size ==> m[i] == spec[i];
  }

  /** With a symmetric distance that is zero from a point to itself, the table
      is symmetric with a zero diagonal. */
  lemma DistanceMatrixSymmetric(coords: seq<Coord>, dist: (Coord, Coord) -> real)
    requires SymmetricDistance(dist) && ZeroSelfDistance(dist)
    ensures IsSymmetric(DistanceMatrix(coords, dist))
    ensures HasZeroDiagonal(DistanceMatrix(coords, dist))
  {
  }
}
