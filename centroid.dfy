/** `utils/centroid.py`: the centroid manager that turns detected screw-hole
    spots into an ordered list of targets. It keeps the spots inside the
    configured boundary, links every spot to its nearest neighbour on each
    side, walks rows from the spots that have no left neighbour, keeps every
    n-th spot, converts the survivors to robot coordinates and offers them
    row by row.

    Image coordinates are whole pixels. Distances are compared squared,
    which orders spots exactly as the square-rooted distances do. The
    homography to robot coordinates is a function given to the manager. */
module Centroids {
  import opened Builtins
  import opened Geometry
  import StableSort

  /** The `Centroid` dataclass without its `left`/`right` links, which the
      neighbour search returns as index sequences instead. */
  datatype Centroid = Centroid(
    imgX: int, imgY: int, robotX: real, robotY: real,
    idx: int, idxFinal: int, insert: bool, row: int)

  /** `Centroid(img_x=x, img_y=y, robot_x=0, robot_y=0)` with the defaults. */
  function FromPoint(p: Point): Centroid {
    Centroid(p.x, p.y, 0.0, 0.0, 0, 0, false, 0)
  }

  /** What `process_centroids` may be given: raw `(x, y)` detections or
      centroid objects. */
  datatype Detections = Points(points: seq<Point>) | Objects(objects: seq<Centroid>)

  function Count(d: Detections): nat {
    match d
    case Points(ps) => |ps|
    case Objects(os) => |os|
  }

  function ToCentroids(d: Detections): (r: seq<Centroid>)
    ensures |r| == Count(d)
  {
    match d
    case Objects(os) => os
    case Points(ps) => seq(|ps|, k requires 0 <= k < |ps| => FromPoint(ps[k]))
  }

  // ---------------------------------------------------------------------
  // _filter_boundary_centroids

  predicate InBoundary(c: Centroid, box: Box) {
    StrictlyInside(c.imgX, c.imgY, box)
  }

  /** The centroids strictly inside the boundary, in their input order. */
  function FilterBoundary(cs: seq<Centroid>, box: Box): (r: seq<Centroid>)
    ensures |r| <= |cs|
    ensures forall c :: c in r <==> c in cs && InBoundary(c, box)
  {
    if cs == [] then []
    else (if InBoundary(cs[0], box) then [cs[0]] else []) + FilterBoundary(cs[1..], box)
  }

  /** Filtering distributes over concatenation; together with the
      membership clause of `FilterBoundary` this says the order is kept. */
  lemma {:induction false} FilterBoundaryAppend(a: seq<Centroid>, b: seq<Centroid>, box: Box)
    ensures FilterBoundary(a + b, box) == FilterBoundary(a, box) + FilterBoundary(b, box)
  {
    if a == [] {
      assert a + b == b;
    } else {
      assert (a + b)[1..] == a[1..] + b;
      FilterBoundaryAppend(a[1..], b, box);
    }
  }

  // ---------------------------------------------------------------------
  // _sort_centroids, step 1: nearest neighbours on each side

  /** The search window: up to 500 px along x, within 15 px along y. */
  const XRange := 500
  const YRange := 15

  datatype Side = Left | Right

  /** `j` is a right candidate of `i`: at or to the right, inside the window. */
  predicate RightOf(cs: seq<Centroid>, i: nat, j: nat)
    requires i < |cs| && j < |cs|
  {
    var dx, dy := cs[j].imgX - cs[i].imgX, cs[j].imgY - cs[i].imgY;
    0 <= dx <= XRange && -YRange <= dy <= YRange
  }

  /** `j` is a left candidate of `i`: tested only when it is not a right one. */
  predicate LeftOf(cs: seq<Centroid>, i: nat, j: nat)
    requires i < |cs| && j < |cs|
  {
    var dx, dy := cs[j].imgX - cs[i].imgX, cs[j].imgY - cs[i].imgY;
    !RightOf(cs, i, j) && 0 <= -dx <= XRange && -YRange <= dy <= YRange
  }

  predicate Candidate(cs: seq<Centroid>, side: Side, i: nat, j: nat)
    requires i < |cs| && j < |cs|
  {
    i != j && (if side == Right then RightOf(cs, i, j) else LeftOf(cs, i, j))
  }

  function Dist2(cs: seq<Centroid>, i: nat, j: nat): nat
    requires i < |cs| && j < |cs|
  {
    var dx, dy := cs[j].imgX - cs[i].imgX, cs[j].imgY - cs[i].imgY;
    dx * dx + dy * dy
  }

  /** What the scan over `j < n` leaves as `i`'s neighbour on `side`: None
      when there is no candidate, otherwise a candidate at minimal distance
      that no earlier candidate ties (the update needs a strictly smaller
      distance, so the first closest candidate wins). */
  predicate NearestAmong(cs: seq<Centroid>, side: Side, i: nat, n: nat, choice: Option<nat>)
    requires i < |cs| && n <= |cs|
  {
    match choice
    case None => forall j :: 0 <= j < n ==> !Candidate(cs, side, i, j)
    case Some(j) =>
      j < n && Candidate(cs, side, i, j) &&
      (forall k :: 0 <= k < n && Candidate(cs, side, i, k) ==> Dist2(cs, i, j) <= Dist2(cs, i, k)) &&
      (forall k :: 0 <= k < j && Candidate(cs, side, i, k) ==> Dist2(cs, i, j) < Dist2(cs, i, k))
  }

  /** The neighbour links as the source leaves them on the objects. */
  predicate Neighbours(cs: seq<Centroid>, left: seq<Option<nat>>, right: seq<Option<nat>>) {
    |left| == |cs| && |right| == |cs| &&
    forall i :: 0 <= i < |cs| ==>
      NearestAmong(cs, Left, i, |cs|, left[i]) && NearestAmong(cs, Right, i, |cs|, right[i])
  }

  /** The window made explicit: a left candidate lies strictly to the left
      (a spot straight above or below counts as a right candidate), the two
      kinds never overlap, and a spot is never its own candidate. */
  lemma CandidateSides(cs: seq<Centroid>, i: nat, j: nat)
    requires i < |cs| && j < |cs|
    ensures Candidate(cs, Left, i, j) <==>
      i != j && -XRange <= cs[j].imgX - cs[i].imgX < 0 && Abs(cs[j].imgY - cs[i].imgY) <= YRange
    ensures Candidate(cs, Right, i, j) <==>
      i != j && 0 <= cs[j].imgX - cs[i].imgX <= XRange && Abs(cs[j].imgY - cs[i].imgY) <= YRange
    ensures !(Candidate(cs, Left, i, j) && Candidate(cs, Right, i, j))
    ensures !Candidate(cs, Left, i, i) && !Candidate(cs, Right, i, i)
  {
  }

  /** The scan result is determined: at most one choice satisfies the
      specification. */
  lemma NearestUnique(cs: seq<Centroid>, side: Side, i: nat, n: nat, a: Option<nat>, b: Option<nat>)
    requires i < |cs| && n <= |cs|
    requires NearestAmong(cs, side, i, n, a) && NearestAmong(cs, side, i, n, b)
    ensures a == b
  {
  }

  /** A spot with the smallest x has no left neighbour. */
  lemma LeftmostHasNoLeft(cs: seq<Centroid>, left: seq<Option<nat>>, right: seq<Option<nat>>, i: nat)
    requires Neighbours(cs, left, right) && i < |cs|
    requires forall j :: 0 <= j < |cs| ==> cs[i].imgX <= cs[j].imgX
    ensures left[i] == None
  {
  }

  /** The index of a spot with the smallest x. */
  function LeftmostIndex(cs: seq<Centroid>): (i: nat)
    requires cs != []
    ensures i < |cs| && forall j :: 0 <= j < |cs| ==> cs[i].imgX <= cs[j].imgX
  {
    if |cs| == 1 then 0
    else
      var k := LeftmostIndex(cs[1..]) + 1;
      assert forall j :: 1 <= j < |cs| ==> cs[j] == cs[1..][j - 1];
      if cs[0].imgX <= cs[k].imgX then 0 else k
  }

  // ---------------------------------------------------------------------
  // _sort_centroids, step 2: leading nodes, top to bottom

  /** `[i for i, c in enumerate(centroids) if c.left is None]`. */
  function Leaders(left: seq<Option<nat>>): (r: seq<nat>)
    ensures forall k :: 0 <= k < |r| ==> r[k] < |left| && left[r[k]] == None
    ensures forall i :: 0 <= i < |left| && left[i] == None ==> i in r
    ensures forall a, b :: 0 <= a < b < |r| ==> r[a] < r[b]
  {
    if left == [] then []
    else
      var p := Leaders(left[..|left| - 1]);
      assert forall k :: 0 <= k < |left| - 1 ==> left[..|left| - 1][k] == left[k];
      p + (if Last(left) == None then [|left| - 1] else [])
  }

  function Last<T>(s: seq<T>): T
    requires s != []
  {
    s[|s| - 1]
  }

  /** The key `lambda i: centroids[i].img_y`. */
  function LeaderKey(cs: seq<Centroid>): nat -> StableSort.Key {
    (i: nat) => if i < |cs| then StableSort.Key(cs[i].imgY, 0) else StableSort.Key(0, 0)
  }

  // ---------------------------------------------------------------------
  // _sort_centroids, step 3: walk each row from its leader to the right

  /** `c` carries the coordinates of the input spot `src`. */
  predicate SameSpot(src: Centroid, c: Centroid) {
    c.imgX == src.imgX && c.imgY == src.imgY && c.robotX == src.robotX && c.robotY == src.robotY
  }

  /** Each emitted centroid copies the input spot its `idx` names, has
      `idx_final` equal to its position, and the default `insert` False. */
  predicate CopiesInput(cs: seq<Centroid>, sorted: seq<Centroid>) {
    forall m :: 0 <= m < |sorted| ==>
      0 <= sorted[m].idx < |cs| && SameSpot(cs[sorted[m].idx], sorted[m]) &&
      sorted[m].idxFinal == m && !sorted[m].insert
  }

  /** No input spot is emitted twice. */
  predicate DistinctIdx(s: seq<Centroid>) {
    forall a, b :: 0 <= a < b < |s| ==> s[a].idx != s[b].idx
  }

  /** The `idx` values of a list. */
  function IdxSet(s: seq<Centroid>): set<int> {
    set m | 0 <= m < |s| :: s[m].idx
  }

  lemma IdxSetAppend(s: seq<Centroid>, c: Centroid)
    ensures IdxSet(s + [c]) == IdxSet(s) + {c.idx}
  {
    var t := s + [c];
    forall k | k in IdxSet(t) ensures k in IdxSet(s) + {c.idx} {
      var m :| 0 <= m < |t| && t[m].idx == k;
      if m < |s| {
        assert s[m] == t[m];
      }
    }
    forall k | k in IdxSet(s) ensures k in IdxSet(t) {
      var m :| 0 <= m < |s| && s[m].idx == k;
      assert t[m] == s[m];
    }
    assert t[|s|] == c;
  }

  predicate Increasing(s: seq<int>) {
    forall a, b :: 0 <= a < b < |s| ==> s[a] < s[b]
  }

  /** The positions where a new row begins: the first element, and every
      element whose row number differs from the one before it. This is
      what `_row_indices` holds after the walk and after subsampling. */
  function RowStarts(s: seq<Centroid>): (r: seq<int>)
    ensures forall a :: 0 <= a < |r| ==> 0 <= r[a] < |s|
    ensures s != [] ==> |r| > 0 && r[0] == 0
    ensures |r| <= |s|
    decreases |s|
  {
    if s == [] then []
    else
      var p := s[..|s| - 1];
      RowStarts(p) + (if |s| == 1 || s[|s| - 2].row != Last(s).row then [|s| - 1] else [])
  }

  lemma RowStartsAppend(s: seq<Centroid>, e: Centroid)
    ensures RowStarts(s + [e]) ==
      RowStarts(s) + (if s == [] || Last(s).row != e.row then [|s|] else [])
  {
    assert (s + [e])[..|s|] == s;
  }

  /** The row-start list is increasing, begins at 0 for a non-empty list,
      and lists exactly the positions whose row differs from the one before. */
  lemma {:induction false} RowStartsCharacterized(s: seq<Centroid>)
    ensures Increasing(RowStarts(s))
    ensures s != [] ==> 0 in RowStarts(s)
    ensures forall m :: 0 < m < |s| ==> (m in RowStarts(s) <==> s[m - 1].row != s[m].row)
    decreases |s|
  {
    if s != [] {
      var p := s[..|s| - 1];
      RowStartsCharacterized(p);
      assert forall m :: 0 <= m < |p| ==> p[m] == s[m];
      var r := RowStarts(s);
      var tail := if |s| == 1 || s[|s| - 2].row != Last(s).row then [|s| - 1] else [];
      assert r == RowStarts(p) + tail;
      assert forall a :: 0 <= a < |RowStarts(p)| ==> RowStarts(p)[a] < |s| - 1;
      forall m | 0 < m < |s| ensures (m in r <==> s[m - 1].row != s[m].row) {
        if m < |p| {
          assert m in r <==> m in RowStarts(p);
        }
      }
      if p != [] {
        assert 0 in RowStarts(p);
      }
    }
  }

  /** Inside a row, each element is the right neighbour of the one before. */
  predicate Linked(right: seq<Option<nat>>, s: seq<Centroid>) {
    forall m :: 0 < m < |s| && s[m - 1].row == s[m].row ==>
      0 <= s[m - 1].idx < |right| && right[s[m - 1].idx] == Some(s[m].idx)
  }

  /** Each row begins with the leader of its row number. */
  predicate LeadersFirst(leaders: seq<nat>, s: seq<Centroid>) {
    (s != [] ==> 0 <= s[0].row < |leaders| && s[0].idx == leaders[s[0].row]) &&
    (forall m :: 0 < m < |s| && s[m - 1].row != s[m].row ==>
      0 <= s[m].row < |leaders| && s[m].idx == leaders[s[m].row])
  }

  /** The walk stopped after position `m`: that spot has no right neighbour,
      or its right neighbour had already been emitted. */
  predicate StopsAfter(right: seq<Option<nat>>, s: seq<Centroid>, m: nat)
    requires m < |s|
  {
    0 <= s[m].idx < |right| &&
    (right[s[m].idx] == None || exists m' :: 0 <= m' <= m && s[m'].idx == right[s[m].idx].value)
  }

  /** Every row that is followed by another ends where the walk stops. */
  predicate RowsEndAtStops(right: seq<Option<nat>>, s: seq<Centroid>) {
    forall m :: 0 < m < |s| && s[m - 1].row != s[m].row ==> StopsAfter(right, s, m - 1)
  }

  predicate RowsMonotone(s: seq<Centroid>) {
    forall m :: 0 < m < |s| ==> s[m - 1].row <= s[m].row
  }

  /** Every row number is in `[0, limit)`. */
  predicate RowsBelow(s: seq<Centroid>, limit: int) {
    forall m :: 0 <= m < |s| ==> 0 <= s[m].row < limit
  }

  /** The spot `c` emitted at position `pos` in row `rowNum`. */
  function Emitted(cs: seq<Centroid>, c: nat, pos: nat, rowNum: nat): Centroid
    requires c < |cs|
  {
    Centroid(cs[c].imgX, cs[c].imgY, cs[c].robotX, cs[c].robotY, c, pos, false, rowNum)
  }

  /** `e` may be emitted after `s`: it copies an input spot not emitted
      yet, and it either continues the last row as the right neighbour of
      the last spot, or, once the walk of the last row has stopped, opens
      a later row at that row's leader, every earlier leader having been
      emitted already (the loop over the leaders skips only those). */
  predicate Step(cs: seq<Centroid>, right: seq<Option<nat>>, leaders: seq<nat>,
                 s: seq<Centroid>, e: Centroid)
  {
    0 <= e.idx < |cs| && 0 <= e.row && e == Emitted(cs, e.idx, |s|, e.row) && e.idx !in IdxSet(s) &&
    (s != [] ==> Last(s).row <= e.row) &&
    (s != [] && Last(s).row == e.row ==>
      0 <= Last(s).idx < |right| && right[Last(s).idx] == Some(e.idx)) &&
    (s == [] || Last(s).row != e.row ==>
      e.row < |leaders| && e.idx == leaders[e.row] && (s != [] ==> StopsAfter(right, s, |s| - 1)) &&
      LeadersDone(leaders, s, e.row))
  }

  /** `s` is built by a sequence of steps the walk may take. */
  predicate Walked(cs: seq<Centroid>, right: seq<Option<nat>>, leaders: seq<nat>, s: seq<Centroid>)
    decreases |s|
  {
    s == [] || (Walked(cs, right, leaders, s[..|s| - 1]) && Step(cs, right, leaders, s[..|s| - 1], Last(s)))
  }

  lemma WalkedAppend(cs: seq<Centroid>, right: seq<Option<nat>>, leaders: seq<nat>, s: seq<Centroid>, e: Centroid)
    ensures Walked(cs, right, leaders, s + [e]) <==> Walked(cs, right, leaders, s) && Step(cs, right, leaders, s, e)
  {
    assert (s + [e])[..|s|] == s;
  }

  lemma StepCopies(cs: seq<Centroid>, right: seq<Option<nat>>, leaders: seq<nat>, s: seq<Centroid>, e: Centroid)
    requires CopiesInput(cs, s) && DistinctIdx(s) && Step(cs, right, leaders, s, e)
    ensures CopiesInput(cs, s + [e]) && DistinctIdx(s + [e])
  {
    var t := s + [e];
    assert forall m :: 0 <= m < |s| ==> t[m] == s[m];
    assert forall m :: 0 <= m < |s| ==> s[m].idx in IdxSet(s);
  }

  lemma StopsAfterAppend(right: seq<Option<nat>>, s: seq<Centroid>, e: Centroid, m: nat)
    requires m < |s| && StopsAfter(right, s, m)
    ensures StopsAfter(right, s + [e], m)
  {
    var t := s + [e];
    assert t[m] == s[m];
    var j := right[s[m].idx];
    if j.Some? {
      var m' :| 0 <= m' <= m && s[m'].idx == j.value;
      assert t[m'] == s[m'];
    }
  }

  lemma StepRows(cs: seq<Centroid>, right: seq<Option<nat>>, leaders: seq<nat>, s: seq<Centroid>, e: Centroid)
    requires RowsMonotone(s) && Step(cs, right, leaders, s, e)
    ensures RowsMonotone(s + [e])
  {
    var t := s + [e];
    assert forall m :: 0 <= m < |s| ==> t[m] == s[m];
  }

  lemma StepLeadersFirst(cs: seq<Centroid>, right: seq<Option<nat>>, leaders: seq<nat>, s: seq<Centroid>, e: Centroid)
    requires LeadersFirst(leaders, s) && Step(cs, right, leaders, s, e)
    ensures LeadersFirst(leaders, s + [e])
  {
    var t := s + [e];
    forall m | 0 < m < |t| && t[m - 1].row != t[m].row
      ensures 0 <= t[m].row < |leaders| && t[m].idx == leaders[t[m].row]
    {
      if m < |s| {
        assert t[m - 1] == s[m - 1] && t[m] == s[m];
      }
    }
    if s != [] {
      assert t[0] == s[0];
    }
  }

  lemma StepLinked(cs: seq<Centroid>, right: seq<Option<nat>>, leaders: seq<nat>, s: seq<Centroid>, e: Centroid)
    requires Linked(right, s) && Step(cs, right, leaders, s, e)
    ensures Linked(right, s + [e])
  {
    var t := s + [e];
    forall m | 0 < m < |t| && t[m - 1].row == t[m].row
      ensures 0 <= t[m - 1].idx < |right| && right[t[m - 1].idx] == Some(t[m].idx)
    {
      if m < |s| {
        assert t[m - 1] == s[m - 1] && t[m] == s[m];
      }
    }
  }

  lemma StepStops(cs: seq<Centroid>, right: seq<Option<nat>>, leaders: seq<nat>, s: seq<Centroid>, e: Centroid)
    requires RowsEndAtStops(right, s) && Step(cs, right, leaders, s, e)
    ensures RowsEndAtStops(right, s + [e])
  {
    var t := s + [e];
    forall m | 0 < m < |t| && t[m - 1].row != t[m].row ensures StopsAfter(right, t, m - 1) {
      if m < |s| {
        assert t[m - 1] == s[m - 1] && t[m] == s[m];
      }
      StopsAfterAppend(right, s, e, m - 1);
    }
  }

  /** What a walk produces: copies of distinct input spots with their
      final positions, in rows that never go back, each row starting at its
      leader and following right links, every row but the last ending where
      the walk stopped. */
  lemma {:induction false} WalkedShape(cs: seq<Centroid>, right: seq<Option<nat>>, leaders: seq<nat>, s: seq<Centroid>)
    requires Walked(cs, right, leaders, s)
    ensures CopiesInput(cs, s) && DistinctIdx(s)
    ensures RowsMonotone(s) && (s != [] ==> s[0].row >= 0)
    ensures LeadersFirst(leaders, s) && Linked(right, s) && RowsEndAtStops(right, s)
    decreases |s|
  {
    if s != [] {
      var p := s[..|s| - 1];
      assert s == p + [Last(s)];
      WalkedShape(cs, right, leaders, p);
      StepCopies(cs, right, leaders, p, Last(s));
      StepRows(cs, right, leaders, p, Last(s));
      StepLeadersFirst(cs, right, leaders, p, Last(s));
      StepLinked(cs, right, leaders, p, Last(s));
      StepStops(cs, right, leaders, p, Last(s));
      if p != [] {
        assert s[0] == p[0];
      }
    }
  }

  /** The leaders before `rowNum` have all been emitted by some row. */
  predicate LeadersDone(leaders: seq<nat>, s: seq<Centroid>, rowNum: nat)
    requires rowNum <= |leaders|
  {
    forall k :: 0 <= k < rowNum ==> leaders[k] in IdxSet(s)
  }

  /** Between rows: the leaders before `rowNum` are dealt with, the last
      row is numbered below `rowNum`, and its walk has stopped. */
  predicate BetweenRows(cs: seq<Centroid>, right: seq<Option<nat>>, leaders: seq<nat>,
                        s: seq<Centroid>, rowNum: nat)
  {
    rowNum <= |leaders| && Walked(cs, right, leaders, s) &&
    (s != [] ==> Last(s).row < rowNum && StopsAfter(right, s, |s| - 1)) &&
    LeadersDone(leaders, s, rowNum)
  }

  /** While row `rowNum` is walked: it is the last row, and it is open. */
  predicate InRow(cs: seq<Centroid>, right: seq<Option<nat>>, leaders: seq<nat>,
                  s: seq<Centroid>, rowNum: nat)
  {
    rowNum < |leaders| && Walked(cs, right, leaders, s) &&
    s != [] && Last(s).row == rowNum &&
    LeadersDone(leaders, s, rowNum)
  }

  lemma LeadersDoneAppend(leaders: seq<nat>, s: seq<Centroid>, e: Centroid, rowNum: nat)
    requires rowNum <= |leaders| && LeadersDone(leaders, s, rowNum)
    ensures LeadersDone(leaders, s + [e], rowNum)
    ensures IdxSet(s + [e]) == IdxSet(s) + {e.idx}
  {
    IdxSetAppend(s, e);
  }

  /** Emitting an unvisited leader opens row `rowNum`. */
  lemma BeginRow(cs: seq<Centroid>, right: seq<Option<nat>>, leaders: seq<nat>,
                 s: seq<Centroid>, rowNum: nat)
    requires BetweenRows(cs, right, leaders, s, rowNum) && rowNum < |leaders|
    requires leaders[rowNum] < |cs| && leaders[rowNum] !in IdxSet(s)
    ensures InRow(cs, right, leaders, s + [Emitted(cs, leaders[rowNum], |s|, rowNum)], rowNum)
    ensures RowStarts(s + [Emitted(cs, leaders[rowNum], |s|, rowNum)]) == RowStarts(s) + [|s|]
  {
    var e := Emitted(cs, leaders[rowNum], |s|, rowNum);
    WalkedAppend(cs, right, leaders, s, e);
    LeadersDoneAppend(leaders, s, e, rowNum);
    RowStartsAppend(s, e);
  }

  /** Emitting spot `c`, the unvisited right neighbour of the last spot
      emitted, continues row `rowNum`. */
  lemma EmitInRow(cs: seq<Centroid>, right: seq<Option<nat>>, leaders: seq<nat>,
                  s: seq<Centroid>, rowNum: nat, c: nat)
    requires InRow(cs, right, leaders, s, rowNum)
    requires c < |cs| && c !in IdxSet(s)
    requires 0 <= Last(s).idx < |right| && right[Last(s).idx] == Some(c)
    ensures InRow(cs, right, leaders, s + [Emitted(cs, c, |s|, rowNum)], rowNum)
    ensures RowStarts(s + [Emitted(cs, c, |s|, rowNum)]) == RowStarts(s)
  {
    var e := Emitted(cs, c, |s|, rowNum);
    WalkedAppend(cs, right, leaders, s, e);
    LeadersDoneAppend(leaders, s, e, rowNum);
    RowStartsAppend(s, e);
  }

  /** Finishing a row whose walk stopped. */
  lemma EndRow(cs: seq<Centroid>, right: seq<Option<nat>>, leaders: seq<nat>,
               s: seq<Centroid>, rowNum: nat)
    requires InRow(cs, right, leaders, s, rowNum)
    requires StopsAfter(right, s, |s| - 1)
    requires leaders[rowNum] in IdxSet(s)
    ensures BetweenRows(cs, right, leaders, s, rowNum + 1)
  {
  }

  /** Skipping a leader that an earlier row already emitted. */
  lemma SkipLeader(cs: seq<Centroid>, right: seq<Option<nat>>, leaders: seq<nat>,
                   s: seq<Centroid>, rowNum: nat)
    requires BetweenRows(cs, right, leaders, s, rowNum) && rowNum < |leaders|
    requires leaders[rowNum] in IdxSet(s)
    ensures BetweenRows(cs, right, leaders, s, rowNum + 1)
  {
  }

  /** A walk that reaches an already emitted spot stops there. */
  lemma StopsAtEmitted(right: seq<Option<nat>>, s: seq<Centroid>, c: int)
    requires s != [] && 0 <= Last(s).idx < |right| && right[Last(s).idx] == Some(c)
    requires c in IdxSet(s)
    ensures StopsAfter(right, s, |s| - 1)
  {
    var m :| 0 <= m < |s| && s[m].idx == c;
  }

  /** `visited[k]` records whether spot `k` has been emitted. */
  predicate Tracks(visited: seq<bool>, s: seq<Centroid>) {
    forall k :: 0 <= k < |visited| ==> (visited[k] <==> k in IdxSet(s))
  }

  lemma TracksEmit(visited: seq<bool>, s: seq<Centroid>, e: Centroid)
    requires Tracks(visited, s) && 0 <= e.idx < |visited|
    ensures Tracks(visited[e.idx := true], s + [e])
  {
    IdxSetAppend(s, e);
  }

  /** The spots not yet emitted. */
  ghost function Unvisited(visited: seq<bool>): set<nat> {
    set k: nat | k < |visited| && !visited[k]
  }

  lemma UnvisitedShrinks(visited: seq<bool>, c: nat)
    requires c < |visited| && !visited[c]
    ensures Unvisited(visited[c := true]) < Unvisited(visited)
  {
    assert c in Unvisited(visited);
  }

  lemma IdxSetPrefix(a: seq<Centroid>, b: seq<Centroid>)
    requires a <= b
    ensures IdxSet(a) <= IdxSet(b)
  {
    forall k | k in IdxSet(a) ensures k in IdxSet(b) {
      var m :| 0 <= m < |a| && a[m].idx == k;
      assert b[m] == a[m];
    }
  }

  /** The walk cannot have stopped while the last spot's right neighbour
      is still unemitted. */
  lemma StoppedAtEmitted(right: seq<Option<nat>>, s: seq<Centroid>, c: int)
    requires s != [] && 0 <= Last(s).idx < |right| && right[Last(s).idx] == Some(c)
    ensures StopsAfter(right, s, |s| - 1) ==> c in IdxSet(s)
  {
    if StopsAfter(right, s, |s| - 1) {
      var m :| 0 <= m <= |s| - 1 && s[m].idx == c;
      assert s[m].idx in IdxSet(s);
    }
  }

  /** The walk has no choice: at most one spot can be emitted after `s`.
      An unemitted right neighbour of the last spot must come next, and
      otherwise only the first leader not yet emitted can open a row. */
  lemma StepDetermined(cs: seq<Centroid>, right: seq<Option<nat>>, leaders: seq<nat>,
                       s: seq<Centroid>, e1: Centroid, e2: Centroid)
    requires Step(cs, right, leaders, s, e1) && Step(cs, right, leaders, s, e2)
    ensures e1 == e2
  {
    if s != [] && Last(s).row == e1.row {
      StoppedAtEmitted(right, s, e1.idx);
    } else if s != [] && Last(s).row == e2.row {
      StoppedAtEmitted(right, s, e2.idx);
    } else {
      assert e1.row == e2.row;
    }
  }

  /** Every proper prefix of a walk is a walk, followed by a step. */
  lemma {:induction false} WalkedPrefix(cs: seq<Centroid>, right: seq<Option<nat>>, leaders: seq<nat>,
                                        s: seq<Centroid>, k: nat)
    requires Walked(cs, right, leaders, s) && k < |s|
    ensures Walked(cs, right, leaders, s[..k]) && Step(cs, right, leaders, s[..k], s[k])
    decreases |s|
  {
    if k < |s| - 1 {
      var p := s[..|s| - 1];
      WalkedPrefix(cs, right, leaders, p, k);
      assert p[..k] == s[..k] && p[k] == s[k];
    }
  }

  /** A finished walk (every leader dealt with, the last row stopped)
      cannot be extended. */
  lemma FinishedHasNoStep(cs: seq<Centroid>, right: seq<Option<nat>>, leaders: seq<nat>,
                          s: seq<Centroid>, e: Centroid)
    requires BetweenRows(cs, right, leaders, s, |leaders|)
    ensures !Step(cs, right, leaders, s, e)
  {
    if s != [] && 0 <= Last(s).idx < |right| && right[Last(s).idx] == Some(e.idx) {
      StoppedAtEmitted(right, s, e.idx);
    }
  }

  lemma {:induction false} FinishedWalksAgree(cs: seq<Centroid>, right: seq<Option<nat>>, leaders: seq<nat>,
                                              s: seq<Centroid>, t: seq<Centroid>, n: nat)
    requires BetweenRows(cs, right, leaders, s, |leaders|) && BetweenRows(cs, right, leaders, t, |leaders|)
    requires n <= |s| && n <= |t| && s[..n] == t[..n]
    ensures s == t
    decreases |s| - n
  {
    if n == |s| && n == |t| {
      assert s == s[..n] && t == t[..n];
    } else if n == |s| {
      WalkedPrefix(cs, right, leaders, t, n);
      assert s[..n] == s;
      FinishedHasNoStep(cs, right, leaders, s, t[n]);
      assert false;
    } else if n == |t| {
      WalkedPrefix(cs, right, leaders, s, n);
      assert t[..n] == t;
      FinishedHasNoStep(cs, right, leaders, t, s[n]);
      assert false;
    } else {
      WalkedPrefix(cs, right, leaders, s, n);
      WalkedPrefix(cs, right, leaders, t, n);
      StepDetermined(cs, right, leaders, s[..n], s[n], t[n]);
      assert s[..n + 1] == s[..n] + [s[n]] && t[..n + 1] == t[..n] + [t[n]];
      FinishedWalksAgree(cs, right, leaders, s, t, n + 1);
    }
  }

  /** The walk over the leaders has exactly one outcome. */
  lemma FinishedWalkUnique(cs: seq<Centroid>, right: seq<Option<nat>>, leaders: seq<nat>,
                           s: seq<Centroid>, t: seq<Centroid>)
    requires BetweenRows(cs, right, leaders, s, |leaders|) && BetweenRows(cs, right, leaders, t, |leaders|)
    ensures s == t
  {
    FinishedWalksAgree(cs, right, leaders, s, t, 0);
  }

  // ---------------------------------------------------------------------
  // _sort_centroids as a whole

  /** The leaders in the order step 3 visits them: `leading_indices`
      sorted by image y with `list.sort`, which is stable. */
  function OrderedLeaders(cs: seq<Centroid>, left: seq<Option<nat>>): seq<nat> {
    StableSort.Sort(Leaders(left), LeaderKey(cs))
  }

  /** `sorted` is what `_sort_centroids(cs)` returns, with `left`/`right`
      the neighbour links it leaves on the input objects. */
  predicate SortedIntoRows(cs: seq<Centroid>, left: seq<Option<nat>>, right: seq<Option<nat>>,
                           sorted: seq<Centroid>)
  {
    Neighbours(cs, left, right) &&
    BetweenRows(cs, right, OrderedLeaders(cs, left), sorted, |OrderedLeaders(cs, left)|)
  }

  /** The neighbour links of a list are determined by it. */
  lemma NeighboursUnique(cs: seq<Centroid>, l1: seq<Option<nat>>, r1: seq<Option<nat>>,
                         l2: seq<Option<nat>>, r2: seq<Option<nat>>)
    requires Neighbours(cs, l1, r1) && Neighbours(cs, l2, r2)
    ensures l1 == l2 && r1 == r2
  {
    forall i | 0 <= i < |cs| ensures l1[i] == l2[i] && r1[i] == r2[i] {
      NearestUnique(cs, Left, i, |cs|, l1[i], l2[i]);
      NearestUnique(cs, Right, i, |cs|, r1[i], r2[i]);
    }
  }

  /** `_sort_centroids` is a function of its input: the links and the
      sorted list it produces are the only ones that fit. */
  lemma SortedIntoRowsUnique(cs: seq<Centroid>, l1: seq<Option<nat>>, r1: seq<Option<nat>>, s1: seq<Centroid>,
                             l2: seq<Option<nat>>, r2: seq<Option<nat>>, s2: seq<Centroid>)
    requires SortedIntoRows(cs, l1, r1, s1) && SortedIntoRows(cs, l2, r2, s2)
    ensures l1 == l2 && r1 == r2 && s1 == s2
  {
    NeighboursUnique(cs, l1, r1, l2, r2);
    FinishedWalkUnique(cs, r1, OrderedLeaders(cs, l1), s1, s2);
  }

  /** Every link names a spot of the list. */
  lemma LinksInRange(cs: seq<Centroid>, left: seq<Option<nat>>, right: seq<Option<nat>>)
    requires Neighbours(cs, left, right)
    ensures forall i :: 0 <= i < |cs| && right[i].Some? ==> right[i].value < |cs|
    ensures forall i :: 0 <= i < |cs| && left[i].Some? ==> left[i].value < |cs|
  {
  }

  lemma OrderedLeadersInRange(cs: seq<Centroid>, left: seq<Option<nat>>)
    requires |left| == |cs|
    ensures forall k :: 0 <= k < |OrderedLeaders(cs, left)| ==> OrderedLeaders(cs, left)[k] < |cs|
  {
    var ls := Leaders(left);
    var o := OrderedLeaders(cs, left);
    forall k | 0 <= k < |o| ensures o[k] < |cs| {
      assert o[k] in multiset(ls);
    }
  }

  lemma {:induction false} MonotoneFar(s: seq<Centroid>, a: nat, b: nat)
    requires RowsMonotone(s) && a <= b < |s|
    ensures s[a].row <= s[b].row
    decreases b - a
  {
    if a < b {
      MonotoneFar(s, a, b - 1);
    }
  }

  /** One pair of row starts, from the flat shape of the walk. */
  lemma StartsTopToBottom(cs: seq<Centroid>, leaders: seq<nat>, sorted: seq<Centroid>, a: int, b: int)
    requires StableSort.SortedBy(leaders, LeaderKey(cs))
    requires CopiesInput(cs, sorted) && RowsMonotone(sorted) && LeadersFirst(leaders, sorted)
    requires Increasing(RowStarts(sorted))
    requires forall m :: 0 < m < |sorted| ==> (m in RowStarts(sorted) <==> sorted[m - 1].row != sorted[m].row)
    requires 0 <= a < b < |RowStarts(sorted)|
    ensures sorted[RowStarts(sorted)[a]].imgY <= sorted[RowStarts(sorted)[b]].imgY
  {
    var starts := RowStarts(sorted);
    var p, q := starts[a], starts[b];
    assert p < q;
    assert sorted[q - 1].row != sorted[q].row;
    MonotoneFar(sorted, p, q - 1);
    var ra, rb := sorted[p].row, sorted[q].row;
    if p > 0 {
      assert sorted[p - 1].row != sorted[p].row;
    }
    assert ra < rb;
    assert sorted[p].idx == leaders[ra] && sorted[q].idx == leaders[rb];
    assert StableSort.KeyLe(LeaderKey(cs)(leaders[ra]), LeaderKey(cs)(leaders[rb]));
  }

  /** Rows come out top to bottom: the leader that opens a later row lies
      at the same height or lower in the image than the one opening an
      earlier row. */
  lemma RowsTopToBottom(cs: seq<Centroid>, left: seq<Option<nat>>, right: seq<Option<nat>>,
                        sorted: seq<Centroid>)
    requires SortedIntoRows(cs, left, right, sorted)
    ensures var starts := RowStarts(sorted);
      forall a, b :: 0 <= a < b < |starts| ==> sorted[starts[a]].imgY <= sorted[starts[b]].imgY
  {
    var leaders := OrderedLeaders(cs, left);
    WalkedShape(cs, right, leaders, sorted);
    RowStartsCharacterized(sorted);
    forall a, b | 0 <= a < b < |RowStarts(sorted)|
      ensures sorted[RowStarts(sorted)[a]].imgY <= sorted[RowStarts(sorted)[b]].imgY
    {
      StartsTopToBottom(cs, leaders, sorted, a, b);
    }
  }

  /** A non-empty input gives a non-empty result: a spot with the smallest
      x is a leader, and the first leader always opens a row. */
  lemma SortedNonEmpty(cs: seq<Centroid>, left: seq<Option<nat>>, right: seq<Option<nat>>,
                       sorted: seq<Centroid>)
    requires SortedIntoRows(cs, left, right, sorted) && cs != []
    ensures sorted != []
  {
    var i := LeftmostIndex(cs);
    LeftmostHasNoLeft(cs, left, right, i);
    var leaders := OrderedLeaders(cs, left);
    assert i in Leaders(left);
    assert i in multiset(leaders);
    assert leaders != [];
    assert leaders[0] in IdxSet(sorted);
  }

  /** The neighbour links of the three-spot example below. */
  lemma DropExampleLinks(left: seq<Option<nat>>, right: seq<Option<nat>>)
    requires Neighbours(DropExample(), left, right)
    ensures left == [None, Some(0), Some(0)] && right == [Some(1), None, Some(1)]
  {
    DropExampleLeft(left[0], left[1], left[2]);
    DropExampleRight(right[0], right[1], right[2]);
  }

  lemma DropExampleLeft(l0: Option<nat>, l1: Option<nat>, l2: Option<nat>)
    requires NearestAmong(DropExample(), Left, 0, 3, l0)
    requires NearestAmong(DropExample(), Left, 1, 3, l1)
    requires NearestAmong(DropExample(), Left, 2, 3, l2)
    ensures l0 == None && l1 == Some(0) && l2 == Some(0)
  {
    var cs := DropExample();
    assert NearestAmong(cs, Left, 0, 3, None);
    assert NearestAmong(cs, Left, 1, 3, Some(0));
    assert NearestAmong(cs, Left, 2, 3, Some(0));
    NearestUnique(cs, Left, 0, 3, l0, None);
    NearestUnique(cs, Left, 1, 3, l1, Some(0));
    NearestUnique(cs, Left, 2, 3, l2, Some(0));
  }

  lemma DropExampleRight(r0: Option<nat>, r1: Option<nat>, r2: Option<nat>)
    requires NearestAmong(DropExample(), Right, 0, 3, r0)
    requires NearestAmong(DropExample(), Right, 1, 3, r1)
    requires NearestAmong(DropExample(), Right, 2, 3, r2)
    ensures r0 == Some(1) && r1 == None && r2 == Some(1)
  {
    var cs := DropExample();
    assert NearestAmong(cs, Right, 0, 3, Some(1));
    assert NearestAmong(cs, Right, 1, 3, None);
    assert NearestAmong(cs, Right, 2, 3, Some(1));
    NearestUnique(cs, Right, 0, 3, r0, Some(1));
    NearestUnique(cs, Right, 1, 3, r1, None);
    NearestUnique(cs, Right, 2, 3, r2, Some(1));
  }

  /** A spot that is no leader and nobody's right neighbour is never
      emitted: each row starts at a leader and continues along right links. */
  lemma NeitherLeaderNorLinked(leaders: seq<nat>, right: seq<Option<nat>>, s: seq<Centroid>, c: nat)
    requires LeadersFirst(leaders, s) && Linked(right, s)
    requires c !in leaders && forall i :: 0 <= i < |right| ==> right[i] != Some(c)
    ensures c !in IdxSet(s)
  {
    if c in IdxSet(s) {
      var m :| 0 <= m < |s| && s[m].idx == c;
      if m > 0 && s[m - 1].row == s[m].row {
        assert false;
      }
    }
  }

  lemma DropExampleLeaders(left: seq<Option<nat>>)
    requires left == [None, Some(0), Some(0)]
    ensures OrderedLeaders(DropExample(), left) == [0]
  {
    var l2 := left[..2];
    var l1 := l2[..1];
    assert l2 == [None, Some(0)] && l1 == [None] && l1[..0] == [];
    assert Leaders(l1) == [0];
    assert Leaders(l2) == [0];
    assert Leaders(left) == [0];
    assert [0][1..] == [];
  }

  /** The walk can lose a spot. With Z = (0, 0), W = (2, 0) and X = (1, 15),
      X is within 15 px of both, so Z and W are its left and right
      neighbours; but Z's right neighbour is W, W has no right neighbour,
      and X is not a leader because it has a left neighbour. The only row is
      Z, W and X is never emitted. */
  lemma WalkCanDropSpot(left: seq<Option<nat>>, right: seq<Option<nat>>, sorted: seq<Centroid>)
    requires SortedIntoRows(DropExample(), left, right, sorted)
    ensures 2 !in IdxSet(sorted)
  {
    var cs := DropExample();
    DropExampleLinks(left, right);
    DropExampleLeaders(left);
    var leaders := OrderedLeaders(cs, left);
    WalkedShape(cs, right, leaders, sorted);
    NeitherLeaderNorLinked(leaders, right, sorted, 2);
  }

  function DropExample(): seq<Centroid> {
    [FromPoint(Point(0, 0)), FromPoint(Point(2, 0)), FromPoint(Point(1, 15))]
  }

  // ---------------------------------------------------------------------
  // _subsample_centroids

  /** `[p for i, p in enumerate(s) if i % interval == 0]`. A negative
      interval selects the same positions as its absolute value, in Python
      as here; a zero interval is the caller's ZeroDivisionError. */
  function EveryNth<T>(s: seq<T>, interval: int): (r: seq<T>)
    requires interval != 0
    ensures |r| <= |s|
    ensures s != [] ==> r != [] && r[0] == s[0]
    decreases |s|
  {
    if s == [] then []
    else EveryNth(s[..|s| - 1], interval) + (if (|s| - 1) % interval == 0 then [s[|s| - 1]] else [])
  }

  /** The sign of a product with a positive factor. */
  lemma {:induction false} MulSign(d: int, k: int)
    requires k > 0
    ensures d >= 1 ==> d * k >= k
    ensures d <= -1 ==> d * k <= -k
    ensures d == 0 ==> d * k == 0
    decreases if d < 0 then -d else d
  {
    if d > 1 {
      MulSign(d - 1, k);
      assert d * k == (d - 1) * k + k;
    } else if d < -1 {
      MulSign(d + 1, k);
      assert d * k == (d + 1) * k - k;
    }
  }

  lemma MulSub(a: int, b: int, k: int)
    ensures (a - b) * k == a * k - b * k
  {
  }

  /** Subsampling keeps positions 0, k, 2k, ...: the j-th element kept is
      the one at position `j * k`, and the positions kept reach the end of
      the list, so `ceil(n / k)` elements are kept. */
  lemma {:induction false} EveryNthCharacterized<T>(s: seq<T>, k: int)
    requires k > 0
    ensures forall j :: 0 <= j < |EveryNth(s, k)| ==> j * k < |s| && EveryNth(s, k)[j] == s[j * k]
    ensures |EveryNth(s, k)| * k >= |s|
    decreases |s|
  {
    if s != [] {
      var n := |s|;
      var p := s[..n - 1];
      EveryNthCharacterized(p, k);
      var e0 := EveryNth(p, k);
      var e := EveryNth(s, k);
      assert e == e0 + (if (n - 1) % k == 0 then [s[n - 1]] else []);
      if e0 != [] {
        assert (|e0| - 1) * k < n - 1;
      }
      CountStep(|e0|, n, k);
      forall j | 0 <= j < |e| ensures j * k < n && e[j] == s[j * k] {
        if j < |e0| {
          assert e[j] == e0[j];
          assert p[j * k] == s[j * k];
        }
      }
    }
  }

  /** The arithmetic of one step of `EveryNthCharacterized`: `a` elements
      kept from the first `n - 1`, the last of them at `(a - 1) * k`. */
  lemma CountStep(a: nat, n: int, k: int)
    requires k > 0 && n >= 1 && a * k >= n - 1
    requires a > 0 ==> (a - 1) * k < n - 1
    ensures (n - 1) % k == 0 ==> a * k == n - 1 && (a + 1) * k >= n
    ensures (n - 1) % k != 0 ==> a * k >= n
  {
    var q, m := (n - 1) / k, (n - 1) % k;
    assert n - 1 == q * k + m;
    if a > 0 {
      MulSub(a, 1, k);
    } else {
      MulSign(a, k);
    }
    assert a * k < n - 1 + k;
    MulSign(a - q, k);
    MulSub(a, q, k);
    MulSign(a - q - 1, k);
    MulSub(a - q, 1, k);
    MulSub(a + 1, 1, k);
  }

  /** Conversely, every position divisible by `k` is kept, at `i / k`. */
  lemma EveryNthKeeps<T>(s: seq<T>, k: int, i: int)
    requires k > 0 && 0 <= i < |s| && i % k == 0
    ensures i / k < |EveryNth(s, k)| && EveryNth(s, k)[i / k] == s[i]
  {
    var q := i / k;
    var e := EveryNth(s, k);
    assert i == q * k;
    EveryNthCharacterized(s, k);
    MulLess(q, |e|, k);
    assert e[q] == s[q * k];
  }

  lemma MulLess(q: int, m: int, k: int)
    requires k > 0 && q * k < m * k
    ensures q < m
  {
    MulSign(m - q, k);
    MulSub(m, q, k);
  }

  /** What the row loop of `_subsample_centroids` computes: starting from
      `current_row = -1`, every position whose row differs from the last
      row seen. It is the row-start list, except that a first element in
      row -1 would not be seen as a change. */
  function RecalculatedStarts(s: seq<Centroid>): (r: seq<int>)
    ensures forall a :: 0 <= a < |r| ==> 0 <= r[a] < |s|
    ensures |r| <= |s|
  {
    if s != [] && s[0].row == -1 then RowStarts(s)[1..] else RowStarts(s)
  }

  /** With the row numbers the walk produces, which are never negative,
      the recalculated table is the row-start list. */
  lemma RecalculatedIsRowStarts(s: seq<Centroid>)
    requires s != [] ==> s[0].row >= 0
    ensures RecalculatedStarts(s) == RowStarts(s)
  {
  }

  /** One more element: it is a recorded start exactly when its row
      differs from the last row seen, `-1` before the first element. */
  lemma RecalculatedAppend(s: seq<Centroid>, e: Centroid)
    ensures RecalculatedStarts(s + [e]) == RecalculatedStarts(s) +
      (if (if s == [] then -1 else Last(s).row) != e.row then [|s|] else [])
  {
    RowStartsAppend(s, e);
    if s != [] {
      assert (s + [e])[0] == s[0];
      var rs := RowStarts(s);
      var tail := if Last(s).row != e.row then [|s|] else [];
      assert (rs + tail)[1..] == rs[1..] + tail;
    } else {
      assert RowStarts([e]) == [0];
    }
  }

  /** The row table depends on the row numbers alone. */
  lemma {:induction false} RowStartsSameRows(s: seq<Centroid>, t: seq<Centroid>)
    requires |s| == |t| && forall m :: 0 <= m < |s| ==> s[m].row == t[m].row
    ensures RowStarts(s) == RowStarts(t)
    decreases |s|
  {
    if s != [] {
      RowStartsSameRows(s[..|s| - 1], t[..|t| - 1]);
    }
  }

  /** The walk numbers rows from zero upwards. */
  lemma RowsNonNegative(s: seq<Centroid>)
    requires RowsMonotone(s) && (s != [] ==> s[0].row >= 0)
    ensures forall m :: 0 <= m < |s| ==> s[m].row >= 0
  {
    forall m | 0 <= m < |s| ensures s[m].row >= 0 {
      MonotoneFar(s, 0, m);
    }
  }

  // ---------------------------------------------------------------------
  // _filter_test_centroids

  /** Cell `(i, j)` of the 3 x 3 grid over the boundary, borders included
      (neighbouring cells share their border). */
  predicate InCell(c: Centroid, box: Box, i: int, j: int) {
    var xStep, yStep := (box.xMax - box.xMin) as real / 3.0, (box.yMax - box.yMin) as real / 3.0;
    box.xMin as real + i as real * xStep <= c.imgX as real <= box.xMin as real + (i + 1) as real * xStep &&
    box.yMin as real + j as real * yStep <= c.imgY as real <= box.yMin as real + (j + 1) as real * yStep
  }

  /** The squared distance from `c` to the centre of cell `(i, j)`. */
  function CellDist2(c: Centroid, box: Box, i: int, j: int): real {
    var xStep, yStep := (box.xMax - box.xMin) as real / 3.0, (box.yMax - box.yMin) as real / 3.0;
    var dx := c.imgX as real - (box.xMin as real + (i as real + 0.5) * xStep);
    var dy := c.imgY as real - (box.yMin as real + (j as real + 0.5) * yStep);
    dx * dx + dy * dy
  }

  /** The scan over the first `n` centroids for cell `(i, j)`: the first
      one at the smallest distance from the cell centre, if any lies in the
      cell. */
  function Closest(cs: seq<Centroid>, box: Box, i: int, j: int, n: nat): Option<Centroid>
    requires n <= |cs|
  {
    if n == 0 then None
    else
      var best := Closest(cs, box, i, j, n - 1);
      var c := cs[n - 1];
      if InCell(c, box, i, j) && (best.None? || CellDist2(c, box, i, j) < CellDist2(best.value, box, i, j))
      then Some(c) else best
  }

  /** `cs[t]` lies in cell `(i, j)`, no centroid of the first `n` in the
      cell is closer to its centre, and every earlier one in the cell is
      farther. */
  predicate IsClosest(cs: seq<Centroid>, box: Box, i: int, j: int, n: nat, t: nat)
    requires t < n <= |cs|
  {
    InCell(cs[t], box, i, j) &&
    (forall u :: 0 <= u < n && InCell(cs[u], box, i, j) ==> CellDist2(cs[t], box, i, j) <= CellDist2(cs[u], box, i, j)) &&
    (forall u :: 0 <= u < t && InCell(cs[u], box, i, j) ==> CellDist2(cs[t], box, i, j) < CellDist2(cs[u], box, i, j))
  }

  /** The scan picks an in-cell centroid at least as close as every other
      in-cell centroid and strictly closer than the ones before it, and
      finds nothing only when no centroid lies in the cell. */
  lemma {:induction false} ClosestIsNearest(cs: seq<Centroid>, box: Box, i: int, j: int, n: nat)
    requires n <= |cs|
    ensures Closest(cs, box, i, j, n).None? <==> forall u :: 0 <= u < n ==> !InCell(cs[u], box, i, j)
    ensures Closest(cs, box, i, j, n).Some? ==>
      exists t :: 0 <= t < n && cs[t] == Closest(cs, box, i, j, n).value && IsClosest(cs, box, i, j, n, t)
  {
    if n > 0 {
      ClosestIsNearest(cs, box, i, j, n - 1);
      var best := Closest(cs, box, i, j, n - 1);
      var c := cs[n - 1];
      if InCell(c, box, i, j) && (best.None? || CellDist2(c, box, i, j) < CellDist2(best.value, box, i, j)) {
        var t := n - 1;
        if best.Some? {
          var t0 :| 0 <= t0 < n - 1 && cs[t0] == best.value && IsClosest(cs, box, i, j, n - 1, t0);
        }
        assert cs[t] == Closest(cs, box, i, j, n).value && IsClosest(cs, box, i, j, n, t);
      } else if best.Some? {
        var t0 :| 0 <= t0 < n - 1 && cs[t0] == best.value && IsClosest(cs, box, i, j, n - 1, t0);
        assert cs[t0] == Closest(cs, box, i, j, n).value && IsClosest(cs, box, i, j, n, t0);
      }
    }
  }

  /** The picks of the cells before cell number `cell`, cells numbered
      `3 * i + j` in the order the two loops visit them. */
  function Picks(cs: seq<Centroid>, box: Box, cell: nat): (r: seq<Centroid>)
    requires cell <= 9
    ensures |r| <= cell
  {
    if cell == 0 then []
    else
      var p := Closest(cs, box, (cell - 1) / 3, (cell - 1) % 3, |cs|);
      Picks(cs, box, cell - 1) + (if p.Some? then [p.value] else [])
  }

  /** `_filter_test_centroids(centroids)` with the boundary given. */
  function FilterTest(cs: seq<Centroid>, box: Box): seq<Centroid> {
    if |cs| < 9 then cs else Picks(cs, box, 9)
  }

  /** Fewer than nine centroids come back unchanged; otherwise at most
      nine, each an input centroid lying in one of the cells. */
  lemma {:induction false} FilterTestBounds(cs: seq<Centroid>, box: Box)
    ensures |cs| < 9 ==> FilterTest(cs, box) == cs
    ensures |cs| >= 9 ==> |FilterTest(cs, box)| <= 9
    ensures |cs| >= 9 ==> forall c :: c in FilterTest(cs, box) ==>
      c in cs && exists i, j :: 0 <= i < 3 && 0 <= j < 3 && InCell(c, box, i, j)
  {
    if |cs| >= 9 {
      PicksMembers(cs, box, 9);
    }
  }

  lemma {:induction false} PicksMembers(cs: seq<Centroid>, box: Box, cell: nat)
    requires cell <= 9
    ensures forall c :: c in Picks(cs, box, cell) ==>
      c in cs && exists i, j :: 0 <= i < 3 && 0 <= j < 3 && InCell(c, box, i, j)
  {
    if cell > 0 {
      PicksMembers(cs, box, cell - 1);
      var i, j := (cell - 1) / 3, (cell - 1) % 3;
      ClosestIsNearest(cs, box, i, j, |cs|);
    }
  }

  // ---------------------------------------------------------------------
  // get_row

  /** `centroids[row_indices[r]:end]` with `end` the next row start or the
      length of the list, as Python slices it. */
  function RowSlice(cs: seq<Centroid>, rowIndices: seq<int>, r: int): seq<Centroid>
    requires 0 <= r < |rowIndices|
  {
    var stop := if r + 1 < |rowIndices| then rowIndices[r + 1] else |cs|;
    Slice(cs, rowIndices[r], stop)
  }

  /** When the table is the row-start list of the centroids, row `r` is a
      non-empty run of one row number, and the element after it, if any,
      starts a different row. */
  lemma RowSliceIsRow(s: seq<Centroid>, r: int)
    requires 0 <= r < |RowStarts(s)|
    ensures var starts := RowStarts(s);
      var stop := if r + 1 < |starts| then starts[r + 1] else |s|;
      0 <= starts[r] < stop <= |s| && RowSlice(s, starts, r) == s[starts[r]..stop] &&
      (forall m :: starts[r] <= m < stop ==> s[m].row == s[starts[r]].row) &&
      (stop < |s| ==> s[stop - 1].row != s[stop].row)
  {
    var starts := RowStarts(s);
    RowStartsCharacterized(s);
    var stop := if r + 1 < |starts| then starts[r + 1] else |s|;
    var lo := starts[r];
    forall m | lo <= m < stop ensures s[m].row == s[lo].row {
      RowConstant(s, starts, lo, m, r, stop);
    }
  }

  lemma {:induction false} RowConstant(s: seq<Centroid>, starts: seq<int>, lo: int, m: int, r: int, stop: int)
    requires starts == RowStarts(s) && 0 <= r < |starts|
    requires Increasing(starts)
    requires forall m' :: 0 < m' < |s| ==> (m' in starts <==> s[m' - 1].row != s[m'].row)
    requires lo == starts[r] && stop == (if r + 1 < |starts| then starts[r + 1] else |s|)
    requires lo <= m < stop
    ensures s[m].row == s[lo].row
    decreases m - lo
  {
    if m > lo {
      RowConstant(s, starts, lo, m - 1, r, stop);
    }
  }
}

/** The imperative part of `CentroidManager`: the loops of the sort, the
    subsampling and the row bookkeeping, and the manager object itself. */
module CentroidManager {
  import opened Builtins
  import opened Geometry
  import opened Centroids
  import StableSort

  /** The double loop of step 1: for every spot, the closest right and left
      candidates, each found by a linear scan over all other spots. */
  method FindNeighbours(cs: seq<Centroid>) returns (left: seq<Option<nat>>, right: seq<Option<nat>>)
    ensures Neighbours(cs, left, right)
  {
    var n := |cs|;
    left, right := [], [];
    for i := 0 to n
      invariant |left| == i && |right| == i
      invariant forall i' :: 0 <= i' < i ==>
        NearestAmong(cs, Left, i', n, left[i']) && NearestAmong(cs, Right, i', n, right[i'])
    {
      var bestLeft: Option<nat> := None;
      var bestRight: Option<nat> := None;
      for j := 0 to n
        invariant NearestAmong(cs, Left, i, j, bestLeft)
        invariant NearestAmong(cs, Right, i, j, bestRight)
      {
        if i == j {
          continue;
        }
        var d := Dist2(cs, i, j);
        if RightOf(cs, i, j) {
          if bestRight == None || d < Dist2(cs, i, bestRight.value) {
            bestRight := Some(j);
          }
        } else if LeftOf(cs, i, j) {
          if bestLeft == None || d < Dist2(cs, i, bestLeft.value) {
            bestLeft := Some(j);
          }
        }
      }
      left, right := left + [bestLeft], right + [bestRight];
    }
  }

  /** Following right links from the leader just emitted, until a spot has
      no right neighbour or was already emitted. */
  method WalkRow(cs: seq<Centroid>, right: seq<Option<nat>>, leaders: seq<nat>,
                 sorted0: seq<Centroid>, visited0: seq<bool>, rowNum: nat)
    returns (sorted: seq<Centroid>, visited: seq<bool>)
    requires |right| == |cs| == |visited0|
    requires forall i :: 0 <= i < |cs| && right[i].Some? ==> right[i].value < |cs|
    requires InRow(cs, right, leaders, sorted0, rowNum)
    requires Tracks(visited0, sorted0)
    ensures InRow(cs, right, leaders, sorted, rowNum)
    ensures StopsAfter(right, sorted, |sorted| - 1)
    ensures |visited| == |cs| && Tracks(visited, sorted)
    ensures sorted0 <= sorted && RowStarts(sorted) == RowStarts(sorted0)
  {
    sorted, visited := sorted0, visited0;
    var n := |cs|;
    WalkedShape(cs, right, leaders, sorted);
    var current := right[Last(sorted).idx];
    while current.Some? && !visited[current.value]
      invariant InRow(cs, right, leaders, sorted, rowNum)
      invariant 0 <= Last(sorted).idx < n && current == right[Last(sorted).idx]
      invariant |visited| == n && Tracks(visited, sorted)
      invariant sorted0 <= sorted && RowStarts(sorted) == RowStarts(sorted0)
      decreases Unvisited(visited)
    {
      var c := current.value;
      EmitInRow(cs, right, leaders, sorted, rowNum, c);
      TracksEmit(visited, sorted, Emitted(cs, c, |sorted|, rowNum));
      UnvisitedShrinks(visited, c);
      visited := visited[c := true];
      sorted := sorted + [Emitted(cs, c, |sorted|, rowNum)];
      current := right[c];
    }
    if current.Some? {
      StopsAtEmitted(right, sorted, current.value);
    }
  }

  /** The walk of step 3 over the leaders in the given order. A leader
      already emitted by an earlier row is skipped, but its row number is
      still used up; a row otherwise starts at its leader and follows right
      links until a spot has no right neighbour or was already emitted.
      `starts` is `_row_indices`, the position where each row begins. */
  method TraverseRows(cs: seq<Centroid>, right: seq<Option<nat>>, leaders: seq<nat>)
    returns (sorted: seq<Centroid>, starts: seq<int>)
    requires |right| == |cs|
    requires forall i :: 0 <= i < |cs| && right[i].Some? ==> right[i].value < |cs|
    requires forall k :: 0 <= k < |leaders| ==> leaders[k] < |cs|
    ensures BetweenRows(cs, right, leaders, sorted, |leaders|)
    ensures starts == RowStarts(sorted)
  {
    var visited := seq(|cs|, _ => false);
    sorted, starts := [], [];
    for rowNum := 0 to |leaders|
      invariant |visited| == |cs| && Tracks(visited, sorted)
      invariant BetweenRows(cs, right, leaders, sorted, rowNum)
      invariant starts == RowStarts(sorted)
    {
      var lead := leaders[rowNum];
      if visited[lead] {
        SkipLeader(cs, right, leaders, sorted, rowNum);
        continue;
      }
      // The leader opens the row.
      BeginRow(cs, right, leaders, sorted, rowNum);
      TracksEmit(visited, sorted, Emitted(cs, lead, |sorted|, rowNum));
      IdxSetAppend(sorted, Emitted(cs, lead, |sorted|, rowNum));
      visited := visited[lead := true];
      starts := starts + [|sorted|];
      sorted := sorted + [Emitted(cs, lead, |sorted|, rowNum)];
      ghost var withLeader := sorted;
      sorted, visited := WalkRow(cs, right, leaders, sorted, visited, rowNum);
      IdxSetPrefix(withLeader, sorted);
      EndRow(cs, right, leaders, sorted, rowNum);
    }
  }

  /** The loop of `_subsample_centroids` that rebuilds the row table,
      starting from `current_row = -1`. */
  method RecalculateRowIndices(s: seq<Centroid>) returns (starts: seq<int>)
    ensures starts == RecalculatedStarts(s)
  {
    starts := [];
    var currentRow := -1;
    for i := 0 to |s|
      invariant starts == RecalculatedStarts(s[..i])
      invariant currentRow == if i == 0 then -1 else s[i - 1].row
    {
      RecalculatedStep(s, i);
      if s[i].row != currentRow {
        currentRow := s[i].row;
        starts := starts + [i];
      }
    }
    assert s[..|s|] == s;
  }

  /** `RecalculatedAppend` at position `i` of `s`. */
  lemma RecalculatedStep(s: seq<Centroid>, i: nat)
    requires i < |s|
    ensures RecalculatedStarts(s[..i + 1]) == RecalculatedStarts(s[..i]) +
      (if (if i == 0 then -1 else s[i - 1].row) != s[i].row then [i] else [])
  {
    RecalculatedAppend(s[..i], s[i]);
    assert s[..i + 1] == s[..i] + [s[i]];
    if i > 0 {
      assert Last(s[..i]) == s[i - 1];
    }
  }

  /** The first `k` elements of `cs`, each with the robot coordinates the
      homography gives for its image point. */
  predicate ConvertedPrefix(toRobot: Point -> RobotXY, cs: seq<Centroid>, r: seq<Centroid>, k: nat)
    requires k <= |cs| && k <= |r|
  {
    forall m :: 0 <= m < k ==>
      r[m].robotX == toRobot(Point(cs[m].imgX, cs[m].imgY)).x &&
      r[m].robotY == toRobot(Point(cs[m].imgX, cs[m].imgY)).y &&
      r[m] == cs[m].(robotX := r[m].robotX, robotY := r[m].robotY)
  }

  /** `_convert_to_robot_coords`: overwrites the robot coordinates of each
      centroid with the image of its pixel position; every other field,
      and the order, stay as they were. */
  method ConvertToRobotCoords(toRobot: Point -> RobotXY, cs: seq<Centroid>) returns (r: seq<Centroid>)
    ensures |r| == |cs| && ConvertedPrefix(toRobot, cs, r, |cs|)
  {
    r := cs;
    for i := 0 to |cs|
      invariant |r| == |cs| && ConvertedPrefix(toRobot, cs, r, i)
      invariant r[i..] == cs[i..]
    {
      var robot := toRobot(Point(r[i].imgX, r[i].imgY));
      r := r[i := r[i].(robotX := robot.x, robotY := robot.y)];
    }
  }

  /** `CentroidManager`: the spots of the last processed image and a row
      cursor over them. The boundary comes from the configuration and the
      homography from the calibration; both are fixed at construction. */
  class Manager {
    const boundary: Box
    const toRobot: Point -> RobotXY
    var centroids: seq<Centroid>
    var rowIndices: seq<int>
    var rowCounter: int

    constructor (boundary: Box, toRobot: Point -> RobotXY)
      ensures this.boundary == boundary && this.toRobot == toRobot
      ensures centroids == [] && rowIndices == [] && rowCounter == 0
    {
      this.boundary := boundary;
      this.toRobot := toRobot;
      centroids := [];
      rowIndices := [];
      rowCounter := 0;
    }

    /** The row table describes the stored centroids. */
    predicate RowsConsistent()
      reads this
    {
      rowIndices == RowStarts(centroids)
    }

    /** `_filter_boundary_centroids` with the configured boundary. */
    function FilterBoundaryCentroids(cs: seq<Centroid>): (r: seq<Centroid>)
      ensures |r| <= |cs|
      ensures forall c :: c in r <==> c in cs && InBoundary(c, boundary)
      ensures r == FilterBoundary(cs, boundary)
    {
      FilterBoundary(cs, boundary)
    }

    /** `_sort_centroids`. An empty list is returned at once and leaves the
      row table as it was; otherwise the links are recomputed, the rows are
      walked and the row table is the position where each row begins. The
      links are returned instead of being set on the input objects. */
    method SortCentroids(cs: seq<Centroid>) returns (sorted: seq<Centroid>, left: seq<Option<nat>>, right: seq<Option<nat>>)
      modifies this`rowIndices
      ensures Neighbours(cs, left, right)
      ensures cs == [] ==> sorted == [] && rowIndices == old(rowIndices)
      ensures cs != [] ==> SortedIntoRows(cs, left, right, sorted) && rowIndices == RowStarts(sorted)
    {
      if |cs| == 0 {
        return [], [], [];
      }
      rowIndices := [];
      left, right := FindNeighbours(cs);
      var leaders := StableSort.Sort(Leaders(left), LeaderKey(cs));
      assert leaders == OrderedLeaders(cs, left);
      OrderedLeadersInRange(cs, left);
      LinksInRange(cs, left, right);
      var starts;
      sorted, starts := TraverseRows(cs, right, leaders);
      rowIndices := starts;
    }

    /** `_subsample_centroids(centroids, interval)`. The comprehension runs
      before the row table is touched, so a zero interval raises with the
      table unchanged. */
    method SubsampleCentroids(cs: seq<Centroid>, interval: int) returns (r: Outcome<seq<Centroid>>)
      modifies this`rowIndices
      ensures cs == [] ==> r == Normal([]) && rowIndices == []
      ensures cs != [] && interval == 0 ==> r == Raised(ZeroDivisionError) && rowIndices == old(rowIndices)
      ensures cs != [] && interval != 0 ==>
        r == Normal(EveryNth(cs, interval)) && rowIndices == RecalculatedStarts(r.value)
    {
      if cs == [] {
        rowIndices := [];
        return Normal([]);
      }
      if interval == 0 {
        return Raised(ZeroDivisionError);
      }
      var subsampled := EveryNth(cs, interval);
      rowIndices := RecalculateRowIndices(subsampled);
      r := Normal(subsampled);
    }

    /** `_filter_test_centroids`: with nine or more centroids, for each cell
      of a 3 x 3 grid over the boundary (column-major, as the loops run),
      the in-cell centroid closest to the cell centre, if any. */
    method FilterTestCentroids(cs: seq<Centroid>) returns (r: seq<Centroid>)
      ensures r == FilterTest(cs, boundary)
    {
      if |cs| < 9 {
        return cs;
      }
      r := [];
      for i := 0 to 3
        invariant r == Picks(cs, boundary, 3 * i)
      {
        for j := 0 to 3
          invariant r == Picks(cs, boundary, 3 * i + j)
        {
          var closest: Option<Centroid> := None;
          var minDistance: real := 0.0;
          for k := 0 to |cs|
            invariant closest == Closest(cs, boundary, i, j, k)
            invariant closest.Some? ==> minDistance == CellDist2(closest.value, boundary, i, j)
          {
            if InCell(cs[k], boundary, i, j) {
              var dist := CellDist2(cs[k], boundary, i, j);
              if closest.None? || dist < minDistance {
                minDistance := dist;
                closest := Some(cs[k]);
              }
            }
          }
          assert (3 * i + j + 1 - 1) / 3 == i && (3 * i + j + 1 - 1) % 3 == j;
          if closest.Some? {
            r := r + [closest.value];
          }
        }
      }
    }

    /** `process_centroids(centroids)`. Nothing given, or an empty list,
      clears the stored centroids and keeps the row table and the cursor.
      Otherwise the spots are filtered to the boundary, sorted into rows,
      subsampled every fifth, converted to robot coordinates and stored,
      the row table describes them and the cursor is back at the first row.
      `sorted` is the list before subsampling. */
    method ProcessCentroids(d: Option<Detections>)
      returns (r: seq<Centroid>, ghost sorted: seq<Centroid>, ghost left: seq<Option<nat>>, ghost right: seq<Option<nat>>)
      modifies this`centroids, this`rowIndices, this`rowCounter
      ensures d.None? || Count(d.value) == 0 ==>
        r == [] && centroids == [] && rowIndices == old(rowIndices) && rowCounter == old(rowCounter)
      ensures d.Some? && Count(d.value) > 0 ==>
        var filtered := FilterBoundary(ToCentroids(d.value), boundary);
        (filtered != [] ==> SortedIntoRows(filtered, left, right, sorted)) &&
        (filtered == [] ==> sorted == []) &&
        |r| == |EveryNth(sorted, 5)| && ConvertedPrefix(toRobot, EveryNth(sorted, 5), r, |r|) &&
        centroids == r && RowsConsistent() && rowCounter == 0
    {
      sorted, left, right := [], [], [];
      if d.None? || Count(d.value) == 0 {
        centroids := [];
        return [], sorted, left, right;
      }
      var raw := ToCentroids(d.value);
      var filtered := FilterBoundaryCentroids(raw);
      var s, l, rt := SortCentroids(filtered);
      sorted, left, right := s, l, rt;
      var subsampled := SubsampleCentroids(s, 5);
      var sub := subsampled.value;
      if s != [] {
        WalkedShape(filtered, right, OrderedLeaders(filtered, left), s);
        EveryNthCharacterized(s, 5);
        RecalculatedIsRowStarts(sub);
      }
      r := ConvertToRobotCoords(toRobot, sub);
      RowStartsSameRows(sub, r);
      centroids := r;
      rowCounter := 0;
    }

    /** `get_row()`: the centroids of the row under the cursor, or nothing
      when the cursor is outside the row table. */
    function GetRow(): (r: seq<Centroid>)
      reads this
      ensures (rowCounter < 0 || rowCounter >= |rowIndices|) ==> r == []
      ensures 0 <= rowCounter < |rowIndices| ==> r == RowSlice(centroids, rowIndices, rowCounter)
    {
      if rowCounter < 0 || rowCounter >= |rowIndices| then []
      else RowSlice(centroids, rowIndices, rowCounter)
    }

    /** `next_row()`: moves the cursor on, with no bounds check. */
    method NextRow()
      modifies this`rowCounter
      ensures rowCounter == old(rowCounter) + 1
    {
      rowCounter := rowCounter + 1;
    }

    /** `get_num_rows()`. */
    function GetNumRows(): (n: nat)
      reads this
      ensures n == |rowIndices|
    {
      |rowIndices|
    }

    /** With a consistent table, the row under the cursor is a non-empty
      run of one row number that cannot be extended to the right; with no
      centroids, every row is empty even if the table is stale. */
    lemma RowUnderCursor()
      requires RowsConsistent() && 0 <= rowCounter < GetNumRows()
      ensures GetRow() != [] && GetRow() <= centroids[rowIndices[rowCounter]..]
      ensures forall m :: 0 <= m < |GetRow()| ==> GetRow()[m].row == GetRow()[0].row
      ensures rowIndices[rowCounter] + |GetRow()| < |centroids| ==>
        centroids[rowIndices[rowCounter] + |GetRow()|].row != GetRow()[0].row
    {
      RowSliceIsRow(centroids, rowCounter);
    }

    /** A stale table over an empty list yields only empty rows. */
    lemma NoCentroidsNoRow()
      requires centroids == []
      ensures GetRow() == []
    {
    }

    /** A consistent table has at least one row for a non-empty list and
      never more rows than centroids. */
    lemma NumRowsBounds()
      requires RowsConsistent()
      ensures centroids != [] ==> GetNumRows() >= 1
      ensures GetNumRows() <= |centroids|
    {
    }
  }
}
