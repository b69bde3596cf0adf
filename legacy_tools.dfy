/** The older image helpers of `tools.py`, repeated unchanged in
    `image_processing.py`: a three-colour point marker drawn straight onto
    the image, and a sort that buckets points into fixed columns of width
    `x_tolerance` (by floor division) and orders each column by y. The crop
    test of both files is the code of `Geometry.DetermineBound`. */
module LegacyTools {
  import opened Builtins
  import opened Geometry
  import opened StableSort

  const DoneColour := Colour(255, 0, 0)
  const CurrentColour := Colour(255, 0, 255)
  const PendingColour := Colour(0, 0, 255)

  /** The radius of every marker in this revision. */
  const MarkerRadius := 4

  /** The colour of point `i` when `current` is the cell being worked on. */
  function PointColour(i: int, current: int): (c: Colour)
    ensures c == DoneColour <==> i < current
    ensures c == CurrentColour <==> i == current
    ensures c == PendingColour <==> i > current
  {
    var colour := Colour(0, 0, 0);
    if i < current then DoneColour
    else if i == current then CurrentColour
    else if i > current then PendingColour
    else colour
  }

  /** `draw_points(image, points, current_index)`: draws in place and
      returns nothing. The image is the list of circles drawn on it; with no
      points nothing is drawn. */
  method DrawPoints(image: seq<Circle>, points: Option<seq<Point>>, current: int)
    returns (drawn: seq<Circle>)
    ensures points.None? ==> drawn == image
    ensures points.Some? ==> |drawn| == |image| + |points.value| && drawn[..|image|] == image
    ensures points.Some? ==> forall i :: 0 <= i < |points.value| ==>
      drawn[|image| + i] == Circle(points.value[i], MarkerRadius, PointColour(i, current))
  {
    drawn := image;
    if points == None {
      return;
    }
    var ps := points.value;
    for i := 0 to |ps|
      invariant |drawn| == |image| + i && drawn[..|image|] == image
      invariant forall k :: 0 <= k < i ==> drawn[|image| + k] == Circle(ps[k], MarkerRadius, PointColour(k, current))
    {
      drawn := drawn + [Circle(ps[i], MarkerRadius, PointColour(i, current))];
    }
  }

  /** The sort key `(c[0] // x_tolerance, c[1])`; it is only consulted
      when `tol` is not zero. */
  function ColumnKey(tol: int, p: Point): (k: Key)
    ensures k.minor == p.y
    ensures tol > 0 ==> k.major * tol <= p.x < k.major * tol + tol
  {
    if tol == 0 then Key(0, p.y) else Key(FloorDiv(p.x, tol), p.y)
  }

  function Columns(tol: int): Point -> Key {
    p => ColumnKey(tol, p)
  }

  /** `sort_centroids(centroids, x_tolerance)`: a new list, ordered by
      column and then by y, keeping the input order among equal keys. The
      key is computed for every element, so a zero tolerance raises
      ZeroDivisionError as soon as the list is non-empty. */
  function SortCentroids(s: seq<Point>, tol: int): (r: Outcome<seq<Point>>)
    ensures r.Raised? <==> tol == 0 && s != []
    ensures r.Raised? ==> r.error == ZeroDivisionError
    ensures r.Normal? ==>
      SortedBy(r.value, Columns(tol)) && multiset(r.value) == multiset(s)
  {
    if tol == 0 && s != [] then Raised(ZeroDivisionError)
    else Normal(Sort(s, Columns(tol)))
  }

  /** The result is the one stable arrangement of `s` by the key: any
      ordering by the key that keeps equal keys in input order is it. */
  lemma SortCentroidsStable(s: seq<Point>, tol: int)
    requires tol != 0
    ensures StableFor(SortCentroids(s, tol).value, s, Columns(tol))
  {
    SortIsStable(s, Columns(tol));
  }

  /** Any arrangement of `s` ordered by the key that keeps equal keys in
      input order is the result. */
  lemma SortCentroidsUnique(s: seq<Point>, t: seq<Point>, tol: int)
    requires tol != 0
    requires SortedBy(t, Columns(tol)) && StableFor(t, s, Columns(tol))
    ensures SortCentroids(s, tol) == Normal(t)
  {
    SortCharacterized(t, s, Columns(tol));
  }

  /** Read as columns: for a positive tolerance, a point in a column further
      left always comes first, and inside a column points run top to bottom.
      Column `k` holds the x in `[k * tol, (k + 1) * tol)`, including negative
      x, which floor division puts in negative columns. */
  lemma SortCentroidsColumns(s: seq<Point>, tol: int)
    requires tol > 0
    ensures var r := SortCentroids(s, tol).value;
      forall i, j :: 0 <= i < j < |r| ==>
        FloorDiv(r[i].x, tol) < FloorDiv(r[j].x, tol) ||
        (FloorDiv(r[i].x, tol) == FloorDiv(r[j].x, tol) && r[i].y <= r[j].y)
    ensures forall p :: p in s ==> tol * FloorDiv(p.x, tol) <= p.x < tol * FloorDiv(p.x, tol) + tol
  {
    var r := SortCentroids(s, tol).value;
    forall i, j | 0 <= i < j < |r|
      ensures FloorDiv(r[i].x, tol) < FloorDiv(r[j].x, tol) ||
        (FloorDiv(r[i].x, tol) == FloorDiv(r[j].x, tol) && r[i].y <= r[j].y)
    {
      assert KeyLe(ColumnKey(tol, r[i]), ColumnKey(tol, r[j]));
    }
  }

  /** Columns have fixed edges: two points one pixel apart across an edge
      land in different columns, so the lower of them can come second. */
  lemma ColumnEdge()
    ensures SortCentroids([Point(30, 0), Point(29, 100)], 30) == Normal([Point(29, 100), Point(30, 0)])
  {
    var key := Columns(30);
    var s := [Point(30, 0), Point(29, 100)];
    assert FloorDiv(29, 30) == 0 && FloorDiv(30, 30) == 1;
    assert key(Point(29, 100)) == Key(0, 100);
    assert key(Point(30, 0)) == Key(1, 0);
    assert s[1..] == [Point(29, 100)];
    assert Sort([Point(29, 100)], key) == [Point(29, 100)];
    assert Sort(s, key) == Insert(Point(30, 0), [Point(29, 100)], key);
    assert !KeyLe(key(Point(30, 0)), key(Point(29, 100)));
    assert [Point(29, 100)][1..] == [];
    assert Insert(Point(30, 0), [], key) == [Point(30, 0)];
    assert Insert(Point(30, 0), [Point(29, 100)], key) == [Point(29, 100), Point(30, 0)];
    assert SortCentroids(s, 30) == Normal(Sort(s, key));
  }
}
