/** The image helpers of `utils/tools.py`: the colour a detected point is
    drawn in, the crop-region test, and the grouping sort that orders
    detections into columns of similar x, each column top to bottom. */
module Tools {
  import opened Builtins
  import opened Geometry
  import opened StableSort

  // ---------------------------------------------------------------------
  // draw_points

  const DoneColour := Colour(0, 125, 255)
  const CurrentColour := Colour(0, 255, 0)
  const PendingColour := Colour(255, 0, 0)

  /** The colour of point `i` when `current` is the cell being worked on:
      points before it are done, points after it are still to come. */
  function PointColour(i: int, current: int): (c: Colour)
    ensures c == DoneColour <==> i < current
    ensures c == CurrentColour <==> i == current
    ensures c == PendingColour <==> i > current
  {
    var colour := Colour(0, 0, 0);
    if i < current then DoneColour
    else if i == current then CurrentColour
    else if i > current then PendingColour
    else colour
  }

  /** The initial black of the source is never used: every index falls in
      one of the three cases. */
  lemma PointColourNeverBlack(i: int, current: int)
    ensures PointColour(i, current) != Colour(0, 0, 0)
  {
  }

  /** Two points get the same colour exactly when they stand in the same
      relation to the current index. */
  lemma PointColourClassifies(i: int, j: int, current: int)
    ensures PointColour(i, current) == PointColour(j, current) <==>
      (i < current && j < current) || (i == current && j == current) || (i > current && j > current)
  {
  }

  /** `draw_points(image, points, current_index, size)`. The image is the
      list of filled circles drawn on it so far; with no points it comes
      back unchanged, otherwise one circle per point is added, in order. */
  method DrawPoints(image: seq<Circle>, points: Option<seq<Point>>, current: int, size: int)
    returns (r: seq<Circle>)
    ensures points.None? ==> r == image
    ensures points.Some? ==> |r| == |image| + |points.value| && r[..|image|] == image
    ensures points.Some? ==> forall i :: 0 <= i < |points.value| ==>
      r[|image| + i] == Circle(points.value[i], size, PointColour(i, current))
  {
    if points.None? {
      return image;
    }
    var ps := points.value;
    r := image;
    for i := 0 to |ps|
      invariant |r| == |image| + i && r[..|image|] == image
      invariant forall k :: 0 <= k < i ==> r[|image| + k] == Circle(ps[k], size, PointColour(k, current))
    {
      r := r + [Circle(ps[i], size, PointColour(i, current))];
    }
  }

  // ---------------------------------------------------------------------
  // sort_centroids: order by x, cut into groups at every gap wider than the
  // tolerance, sort each group by y, and concatenate the groups.

  function XKey(p: Point): Key { Key(p.x, 0) }
  function YKey(p: Point): Key { Key(p.y, 0) }

  function Last<T>(s: seq<T>): T
    requires s != []
  {
    s[|s| - 1]
  }

  /** The groups the loop of `sort_centroids` builds from the x-sorted list
      `s`: a point joins the current group when its x is within `tol` of
      the group's last point, and starts a new group otherwise. */
  function GapGroups(s: seq<Point>, tol: int): (g: seq<seq<Point>>)
    requires s != []
    ensures g != [] && forall k :: 0 <= k < |g| ==> g[k] != []
    decreases |s|
  {
    if |s| == 1 then [[s[0]]]
    else
      var g := GapGroups(s[..|s| - 1], tol);
      var y := s[|s| - 1];
      if Abs(y.x - Last(Last(g)).x) <= tol then g[..|g| - 1] + [Last(g) + [y]]
      else g + [[y]]
  }

  /** Each group sorted by y. */
  function SortEach(g: seq<seq<Point>>): (h: seq<seq<Point>>)
    ensures |h| == |g|
  {
    if g == [] then [] else [Sort(g[0], YKey)] + SortEach(g[1..])
  }

  /** The groups partition the list: concatenated, they give it back. */
  lemma {:induction false} GapGroupsFlatten(s: seq<Point>, tol: int)
    requires s != []
    ensures Flatten(GapGroups(s, tol)) == s
    decreases |s|
  {
    if |s| == 1 {
      FlattenSingle([s[0]]);
    } else {
      var p := s[..|s| - 1];
      var y := s[|s| - 1];
      var g: seq<seq<Point>> := GapGroups(p, tol);
      GapGroupsFlatten(p, tol);
      assert s == p + [y];
      if Abs(y.x - Last(Last(g)).x) <= tol {
        FlattenJoinLast(g, y);
      } else {
        FlattenAppend(g, [[y]]);
        FlattenSingle([y]);
      }
    }
  }

  /** Every member of a group is a member of the list. */
  lemma {:induction false} GapGroupsMembers(s: seq<Point>, tol: int)
    requires s != []
    ensures forall k, a :: 0 <= k < |GapGroups(s, tol)| && a in GapGroups(s, tol)[k] ==> a in s
  {
    GapGroupsFlatten(s, tol);
    var g := GapGroups(s, tol);
    forall k, a | 0 <= k < |g| && a in g[k] ensures a in s {
      FlattenMember(g, k, a);
    }
  }

  /** Inside each group, neighbouring points are at most `tol` apart in x. */
  predicate GroupsTight(g: seq<seq<Point>>, tol: int) {
    forall k, i :: 0 <= k < |g| && 0 < i < |g[k]| ==> Abs(g[k][i].x - g[k][i - 1].x) <= tol
  }

  /** Between neighbouring groups the gap in x is wider than `tol`. */
  predicate GroupsApart(g: seq<seq<Point>>, tol: int)
    requires forall k :: 0 <= k < |g| ==> g[k] != []
  {
    forall k :: 0 < k < |g| ==> Abs(g[k][0].x - Last(g[k - 1]).x) > tol
  }

  /** No point of an earlier group lies to the right of a point of a later one. */
  predicate GroupsLeftToRight(g: seq<seq<Point>>) {
    forall k, l, a, b :: 0 <= k < l < |g| && a in g[k] && b in g[l] ==> a.x <= b.x
  }

  /** One step of the grouping loop: how the groups of `s[..i + 1]` come
      from the groups of `s[..i]`. */
  lemma GapGroupsStep(s: seq<Point>, i: nat, tol: int)
    requires 0 < i < |s|
    ensures var g := GapGroups(s[..i], tol);
      GapGroups(s[..i + 1], tol) ==
        if Abs(s[i].x - Last(Last(g)).x) <= tol then g[..|g| - 1] + [Last(g) + [s[i]]]
        else g + [[s[i]]]
  {
    assert s[..i + 1][..i] == s[..i];
  }

  /** Inside a group, neighbouring points are at most `tol` apart in x. */
  lemma {:induction false} GapGroupsWithin(s: seq<Point>, tol: int)
    requires s != []
    ensures GroupsTight(GapGroups(s, tol), tol)
    decreases |s|
  {
    if |s| > 1 {
      var p := s[..|s| - 1];
      GapGroupsWithin(p, tol);
      var g: seq<seq<Point>> := GapGroups(p, tol);
      var y := s[|s| - 1];
      if Abs(y.x - Last(Last(g)).x) <= tol {
        TightJoinLast(g, y, tol);
      } else {
        TightNewGroup(g, y, tol);
      }
    }
  }

  lemma TightJoinLast(g: seq<seq<Point>>, y: Point, tol: int)
    requires g != [] && Last(g) != [] && GroupsTight(g, tol)
    requires Abs(y.x - Last(Last(g)).x) <= tol
    ensures GroupsTight(g[..|g| - 1] + [Last(g) + [y]], tol)
  {
    var g': seq<seq<Point>> := g[..|g| - 1] + [Last(g) + [y]];
    forall k: int, i: int | 0 <= k < |g'| && 0 < i < |g'[k]|
      ensures Abs(g'[k][i].x - g'[k][i - 1].x) <= tol
    {
      if k < |g| - 1 {
        assert g'[k] == g[k];
      } else if i < |Last(g)| {
        assert g'[k][i] == g[k][i] && g'[k][i - 1] == g[k][i - 1];
      } else {
        assert g'[k][i] == y && g'[k][i - 1] == Last(Last(g));
      }
    }
  }

  lemma TightNewGroup(g: seq<seq<Point>>, y: Point, tol: int)
    requires GroupsTight(g, tol)
    ensures GroupsTight(g + [[y]], tol)
  {
    var g': seq<seq<Point>> := g + [[y]];
    forall k: int, i: int | 0 <= k < |g'| && 0 < i < |g'[k]|
      ensures Abs(g'[k][i].x - g'[k][i - 1].x) <= tol
    {
      assert g'[k] == g[k];
    }
  }

  /** Between two neighbouring groups, the gap in x is wider than `tol`. */
  lemma {:induction false} GapGroupsBetween(s: seq<Point>, tol: int)
    requires s != []
    ensures GroupsApart(GapGroups(s, tol), tol)
    decreases |s|
  {
    if |s| > 1 {
      var p := s[..|s| - 1];
      GapGroupsBetween(p, tol);
      var g: seq<seq<Point>> := GapGroups(p, tol);
      var y := s[|s| - 1];
      if Abs(y.x - Last(Last(g)).x) <= tol {
        ApartJoinLast(g, y, tol);
      } else {
        ApartNewGroup(g, y, tol);
      }
    }
  }

  lemma ApartJoinLast(g: seq<seq<Point>>, y: Point, tol: int)
    requires g != [] && (forall k :: 0 <= k < |g| ==> g[k] != []) && GroupsApart(g, tol)
    ensures GroupsApart(g[..|g| - 1] + [Last(g) + [y]], tol)
  {
    var g': seq<seq<Point>> := g[..|g| - 1] + [Last(g) + [y]];
    forall k: int | 0 < k < |g'| ensures Abs(g'[k][0].x - Last(g'[k - 1]).x) > tol {
      assert g'[k - 1] == g[k - 1];
      assert g'[k][0] == g[k][0];
    }
  }

  lemma ApartNewGroup(g: seq<seq<Point>>, y: Point, tol: int)
    requires g != [] && (forall k :: 0 <= k < |g| ==> g[k] != []) && GroupsApart(g, tol)
    requires Abs(y.x - Last(Last(g)).x) > tol
    ensures GroupsApart(g + [[y]], tol)
  {
    var g': seq<seq<Point>> := g + [[y]];
    forall k: int | 0 < k < |g'| ensures Abs(g'[k][0].x - Last(g'[k - 1]).x) > tol {
      assert g'[k - 1] == g[k - 1];
      if k < |g| {
        assert g'[k] == g[k];
      }
    }
  }

  /** On an x-sorted list, a point of an earlier group never lies to the
      right of a point of a later group. */
  lemma {:induction false} GapGroupsOrdered(s: seq<Point>, tol: int)
    requires s != [] && SortedBy(s, XKey)
    ensures GroupsLeftToRight(GapGroups(s, tol))
    decreases |s|
  {
    if |s| > 1 {
      var p := s[..|s| - 1];
      assert SortedBy(p, XKey);
      GapGroupsOrdered(p, tol);
      GapGroupsMembers(p, tol);
      var y := s[|s| - 1];
      forall a | a in p ensures a.x <= y.x {
        var i :| 0 <= i < |p| && p[i] == a;
        assert KeyLe(XKey(s[i]), XKey(s[|s| - 1]));
      }
      ExtendLeftToRight(GapGroups(p, tol), y);
    }
  }

  /** Adding a point that lies right of every grouped point, to the last
      group or as a new group, keeps the groups left to right. */
  lemma ExtendLeftToRight(g: seq<seq<Point>>, y: Point)
    requires g != [] && GroupsLeftToRight(g)
    requires forall k, a :: 0 <= k < |g| && a in g[k] ==> a.x <= y.x
    ensures GroupsLeftToRight(g[..|g| - 1] + [Last(g) + [y]])
    ensures GroupsLeftToRight(g + [[y]])
  {
    var g1 := g[..|g| - 1] + [Last(g) + [y]];
    forall k: int, l: int, a: Point, b: Point | 0 <= k < l < |g1| && a in g1[k] && b in g1[l]
      ensures a.x <= b.x
    {
      assert g1[k] == g[k];
      if l < |g| - 1 {
        assert g1[l] == g[l];
      } else {
        assert g1[l] == g[l] + [y];
        assert b == y || b in g[l];
      }
    }
    var g2 := g + [[y]];
    forall k: int, l: int, a: Point, b: Point | 0 <= k < l < |g2| && a in g2[k] && b in g2[l]
      ensures a.x <= b.x
    {
      assert g2[k] == g[k];
      if l < |g| {
        assert g2[l] == g[l];
      }
    }
  }

  /** Copy `sorted(a, key=x)` back into `a`: the in-place `list.sort`. */
  method SortInPlaceByX(a: array<Point>)
    modifies a
    ensures a[..] == Sort(old(a[..]), XKey)
  {
    var t := Sort(a[..], XKey);
    for i := 0 to a.Length
      invariant forall k :: 0 <= k < i ==> a[k] == t[k]
    {
      a[i] := t[i];
    }
    assert a[..] == t;
  }

  /** `sort_centroids(centroids, x_tolerance)`. The argument list is
      sorted by x in place, as a side effect visible to the caller; the
      result is the grouped order. */
  method SortCentroids(centroids: array<Point>, tol: int) returns (r: seq<Point>)
    modifies centroids
    ensures centroids.Length == 0 ==> r == [] && centroids[..] == old(centroids[..])
    ensures centroids.Length > 0 ==>
      centroids[..] == Sort(old(centroids[..]), XKey) &&
      r == Flatten(SortEach(GapGroups(centroids[..], tol)))
  {
    if centroids.Length == 0 {
      return [];
    }
    SortInPlaceByX(centroids);
    r := GroupByGaps(centroids[..], tol);
  }

  /** Steps 2 and 3 of `sort_centroids` on the x-sorted list: the grouping
      loop, each group sorted by y as it is closed, then the flattening. */
  method GroupByGaps(s: seq<Point>, tol: int) returns (r: seq<Point>)
    requires s != []
    ensures r == Flatten(SortEach(GapGroups(s, tol)))
  {
    var groups: seq<seq<Point>> := [];
    var current := [s[0]];
    ghost var g: seq<seq<Point>> := [[s[0]]];
    assert s[..1] == [s[0]];
    for i := 1 to |s|
      invariant g == GapGroups(s[..i], tol)
      invariant g != [] && groups == SortEach(g[..|g| - 1]) && current == Last(g)
    {
      ghost var next := GapGroups(s[..i + 1], tol);
      GroupByGapsTurn(s, i, tol, g, groups, current);
      if Abs(s[i].x - Last(current).x) <= tol {
        current := current + [s[i]];
      } else {
        groups := groups + [Sort(current, YKey)];
        current := [s[i]];
      }
      g := next;
    }
    assert s[..|s|] == s;
    SortEachAppend(g[..|g| - 1], current);
    assert g[..|g| - 1] + [current] == g;
    r := Flatten(groups + [Sort(current, YKey)]);
  }

  /** One turn of the grouping loop keeps the loop's picture: the closed
      groups, sorted, and the open group, of the groups of the prefix. */
  lemma GroupByGapsTurn(s: seq<Point>, i: nat, tol: int, g: seq<seq<Point>>, groups: seq<seq<Point>>, current: seq<Point>)
    requires 0 < i < |s| && g == GapGroups(s[..i], tol)
    requires g != [] && groups == SortEach(g[..|g| - 1]) && current == Last(g)
    ensures var next := GapGroups(s[..i + 1], tol);
      next != [] &&
      (Abs(s[i].x - Last(current).x) <= tol ==>
        groups == SortEach(next[..|next| - 1]) && current + [s[i]] == Last(next)) &&
      (Abs(s[i].x - Last(current).x) > tol ==>
        groups + [Sort(current, YKey)] == SortEach(next[..|next| - 1]) && [s[i]] == Last(next))
  {
    GapGroupsStep(s, i, tol);
    GroupByGapsStep(g, GapGroups(s[..i + 1], tol), s[i], tol, groups, current);
  }

  /** The same turn on the groups themselves. */
  lemma GroupByGapsStep(g: seq<seq<Point>>, next: seq<seq<Point>>, y: Point, tol: int,
                        groups: seq<seq<Point>>, current: seq<Point>)
    requires g != [] && groups == SortEach(g[..|g| - 1]) && current == Last(g) && current != []
    requires next == if Abs(y.x - Last(current).x) <= tol then g[..|g| - 1] + [current + [y]] else g + [[y]]
    ensures next != []
    ensures Abs(y.x - Last(current).x) <= tol ==>
      groups == SortEach(next[..|next| - 1]) && current + [y] == Last(next)
    ensures Abs(y.x - Last(current).x) > tol ==>
      groups + [Sort(current, YKey)] == SortEach(next[..|next| - 1]) && [y] == Last(next)
  {
    if Abs(y.x - Last(current).x) <= tol {
      JoinStep(g, next, current + [y]);
    } else {
      SplitStep(g, next, [y]);
    }
  }

  /** The point joins the open group: the closed groups stay as they are. */
  lemma JoinStep(g: seq<seq<Point>>, next: seq<seq<Point>>, joined: seq<Point>)
    requires g != [] && next == g[..|g| - 1] + [joined]
    ensures next != [] && SortEach(g[..|g| - 1]) == SortEach(next[..|next| - 1]) && joined == Last(next)
  {
    DropAppended(g[..|g| - 1], joined);
  }

  /** The point opens a new group: the open group closes, sorted. */
  lemma SplitStep(g: seq<seq<Point>>, next: seq<seq<Point>>, started: seq<Point>)
    requires g != [] && next == g + [started]
    ensures next != [] && SortEach(g[..|g| - 1]) + [Sort(Last(g), YKey)] == SortEach(next[..|next| - 1])
    ensures started == Last(next)
  {
    DropAppended(g, started);
    SplitLast(g);
    SortEachAppend(g[..|g| - 1], Last(g));
  }

  lemma {:induction false} SortEachAt(g: seq<seq<Point>>, k: nat)
    requires k < |g|
    ensures SortEach(g)[k] == Sort(g[k], YKey)
  {
    if k > 0 {
      SortEachAt(g[1..], k - 1);
    }
  }

  lemma {:induction false} SortEachAppend(g: seq<seq<Point>>, x: seq<Point>)
    ensures SortEach(g + [x]) == SortEach(g) + [Sort(x, YKey)]
  {
    if g == [] {
      assert g + [x] == [x];
    } else {
      assert (g + [x])[1..] == g[1..] + [x];
      SortEachAppend(g[1..], x);
    }
  }

  /** What `sort_centroids` promises about its result `r` for a non-empty
      list `s`: with `g` the groups of the x-sorted list, `r` is the groups,
      each ordered by y, one after another; groups are separated by gaps wider
      than the tolerance and run left to right; and `r` is a rearrangement
      of `s`. */
  lemma SortCentroidsLayout(s: seq<Point>, tol: int)
    requires s != []
    ensures var g := GapGroups(Sort(s, XKey), tol);
      var h := SortEach(g);
      multiset(Flatten(h)) == multiset(s) &&
      (forall k :: 0 <= k < |h| ==> SortedBy(h[k], YKey) && multiset(h[k]) == multiset(g[k])) &&
      GroupsLeftToRight(h)
  {
    var x := Sort(s, XKey);
    var g := GapGroups(x, tol);
    var h := SortEach(g);
    GapGroupsFlatten(x, tol);
    GapGroupsOrdered(x, tol);
    SortEachPermutes(g);
    forall k | 0 <= k < |h| ensures SortedBy(h[k], YKey) && multiset(h[k]) == multiset(g[k]) {
      SortEachAt(g, k);
    }
    forall k: int, l: int, a: Point, b: Point | 0 <= k < l < |h| && a in h[k] && b in h[l]
      ensures a.x <= b.x
    {
      assert multiset(h[k]) == multiset(g[k]) && multiset(h[l]) == multiset(g[l]);
      assert a in multiset(h[k]) && b in multiset(h[l]);
      assert a in g[k] && b in g[l];
    }
  }

  lemma {:induction false} SortEachPermutes(g: seq<seq<Point>>)
    ensures multiset(Flatten(SortEach(g))) == multiset(Flatten(g))
  {
    if g != [] {
      SortEachPermutes(g[1..]);
      assert SortEach(g)[1..] == SortEach(g[1..]);
    }
  }
}
