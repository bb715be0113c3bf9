/** Cell reconstruction from ruling crossings (closed-rectangle detection over
    the crossing points, after Nurminen): every crossing point is tried as a
    top-left corner, and the first bottom-right corner that closes a rectangle
    with four ruled sides yields one cell. */
module CellFinder {
  import opened Geometry

  /** The crossing points of the rulings, each mapped to the (horizontal,
      vertical) pair of rulings that cross there. */
  type Crossings = map<Point, (Ruling, Ruling)>

  /** Whether a point lies on a ruling (Ruling#colinear?), supplied by the caller. */
  type Colinear = (Ruling, Point) -> bool

  /** The crossing points of s that lie on the same vertical line as p and below
      it (byX), or on the same horizontal line and to its right (!byX), in
      their order in s. */
  function Ray(s: seq<Point>, p: Point, byX: bool): (r: seq<Point>)
    ensures forall q :: q in r <==> q in s && Primary(q, byX) == Primary(p, byX) && Secondary(q, byX) > Secondary(p, byX)
    ensures Sorted(s, false) ==> Sorted(r, false)
  {
    if s == [] then []
    else
      var rest := Ray(s[1..], p, byX);
      assert Sorted(s, false) ==> forall q :: q in rest ==> Less(s[0], q, false) by {
        if Sorted(s, false) {
          forall q | q in rest ensures Less(s[0], q, false) {
            var k :| 1 <= k < |s| && s[k] == q;
          }
        }
      }
      if Primary(s[0], byX) == Primary(p, byX) && Secondary(s[0], byX) > Secondary(p, byX) then [s[0]] + rest else rest
  }

  /** The bottom-right corner of the rectangle spanned by a crossing directly
      below the top-left one and a crossing directly to its right. */
  function Corner(xPoint: Point, yPoint: Point): Point {
    Point(yPoint.x, xPoint.y)
  }

  /** The four-sided check: the top-left's vertical ruling reaches xPoint, its
      horizontal ruling reaches yPoint, the corner is a crossing, and the
      corner's horizontal and vertical rulings reach xPoint and yPoint. */
  predicate Closes(inter: Crossings, colinear: Colinear, topLeft: Point, xPoint: Point, yPoint: Point)
    requires topLeft in inter
    ensures Closes(inter, colinear, topLeft, xPoint, yPoint) ==>
      var corner := Corner(xPoint, yPoint);
      corner in inter && corner.x == yPoint.x && corner.y == xPoint.y
  {
    && colinear(inter[topLeft].1, xPoint)
    && colinear(inter[topLeft].0, yPoint)
    && Corner(xPoint, yPoint) in inter
    && colinear(inter[Corner(xPoint, yPoint)].0, xPoint)
    && colinear(inter[Corner(xPoint, yPoint)].1, yPoint)
  }

  /** xPoint is a crossing directly below topLeft and yPoint one directly to its right. */
  predicate Candidates(inter: Crossings, topLeft: Point, xPoint: Point, yPoint: Point) {
    && xPoint in inter && xPoint.x == topLeft.x && xPoint.y > topLeft.y
    && yPoint in inter && yPoint.y == topLeft.y && yPoint.x > topLeft.x
  }

  /** Some rectangle with four ruled sides has topLeft as its top-left corner. */
  ghost predicate Closable(inter: Crossings, colinear: Colinear, topLeft: Point)
    requires topLeft in inter
  {
    exists xPoint, yPoint :: Candidates(inter, topLeft, xPoint, yPoint) && Closes(inter, colinear, topLeft, xPoint, yPoint)
  }

  /** A cell whose four corners are crossings and whose four sides are ruled. */
  ghost predicate Confirmed(inter: Crossings, colinear: Colinear, c: Cell) {
    var tl, br := c.TopLeft(), c.BottomRight();
    && !c.spanning && !c.placeholder
    && tl in inter && br in inter
    && Candidates(inter, tl, Point(tl.x, br.y), Point(br.x, tl.y))
    && Closes(inter, colinear, tl, Point(tl.x, br.y), Point(br.x, tl.y))
  }

  /** No other four-sided rectangle from c's top-left has a nearer bottom side,
      or the same bottom side and a nearer right side. */
  ghost predicate Nearest(inter: Crossings, colinear: Colinear, c: Cell)
    requires c.TopLeft() in inter
  {
    var tl, br := c.TopLeft(), c.BottomRight();
    forall xPoint, yPoint :: Candidates(inter, tl, xPoint, yPoint) && Closes(inter, colinear, tl, xPoint, yPoint) ==>
      br.y < xPoint.y || (br.y == xPoint.y && br.x <= yPoint.x)
  }

  /** The inner search for one top-left corner: the first pair, in the order
      of xs then ys, that closes a four-sided rectangle; the early exit stands
      for the source's throw out of both loops. */
  method SearchCell(inter: Crossings, colinear: Colinear, topLeft: Point, xs: seq<Point>, ys: seq<Point>)
    returns (r: Option<(nat, nat)>)
    requires topLeft in inter
    ensures r.Some? ==> r.value.0 < |xs| && r.value.1 < |ys| && Closes(inter, colinear, topLeft, xs[r.value.0], ys[r.value.1])
    ensures r.Some? ==> forall a, b :: 0 <= a < |xs| && 0 <= b < |ys| && (a < r.value.0 || (a == r.value.0 && b < r.value.1)) ==>
      !Closes(inter, colinear, topLeft, xs[a], ys[b])
    ensures r.None? ==> forall a, b :: 0 <= a < |xs| && 0 <= b < |ys| ==> !Closes(inter, colinear, topLeft, xs[a], ys[b])
  {
    var (horizontal, vertical) := inter[topLeft];
    var a := 0;
    while a < |xs|
      invariant 0 <= a <= |xs|
      invariant forall a', b :: 0 <= a' < a && 0 <= b < |ys| ==> !Closes(inter, colinear, topLeft, xs[a'], ys[b])
    {
      var xPoint := xs[a];
      if colinear(vertical, xPoint) {
        var b := 0;
        while b < |ys|
          invariant 0 <= b <= |ys|
          invariant forall b' :: 0 <= b' < b ==> !Closes(inter, colinear, topLeft, xPoint, ys[b'])
        {
          var yPoint := ys[b];
          if colinear(horizontal, yPoint) {
            var btmRight := Corner(xPoint, yPoint);
            if btmRight in inter {
              var (btmRightHorizontal, btmRightVertical) := inter[btmRight];
              if colinear(btmRightHorizontal, xPoint) && colinear(btmRightVertical, yPoint) {
                return Some((a, b));
              }
            }
          }
          b := b + 1;
        }
      }
      a := a + 1;
    }
    return None;
  }

  lemma SortedSuffix(s: seq<Point>, i: nat)
    requires Sorted(s, false) && i <= |s|
    ensures Sorted(s[i..], false)
  {
    forall a, b | 0 <= a < b < |s[i..]| ensures Less(s[i..][a], s[i..][b], false) {
      assert s[i..][a] == s[i + a] && s[i..][b] == s[i + b];
    }
  }

  lemma SortedIndex(s: seq<Point>, i: nat, j: nat, byX: bool)
    requires Sorted(s, byX) && i < |s| && j < |s|
    requires Less(s[i], s[j], byX)
    ensures i < j
  {
    if j <= i {
      LessTotal(s[i], s[j], byX);
    }
  }

  /** The candidates of a top-left corner s[i] all lie in s[i..]. */
  lemma CandidatesAfter(inter: Crossings, s: seq<Point>, i: nat, xPoint: Point, yPoint: Point)
    requires Sorted(s, false) && Elements(s) == inter.Keys && i < |s|
    requires Candidates(inter, s[i], xPoint, yPoint)
    ensures xPoint in Ray(s[i..], s[i], true) && yPoint in Ray(s[i..], s[i], false)
  {
    var a :| 0 <= a < |s| && s[a] == xPoint;
    var b :| 0 <= b < |s| && s[b] == yPoint;
    SortedIndex(s, i, a, false);
    SortedIndex(s, i, b, false);
    assert s[i..][a - i] == xPoint && s[i..][b - i] == yPoint;
  }

  /** In two rays sorted row-major, an index pair that is not before (a, b) in
      the search order lies no nearer than (xs[a], ys[b]). */
  lemma NotBeforeIsFarther(xs: seq<Point>, ys: seq<Point>, a: nat, b: nat, a': nat, b': nat)
    requires Sorted(xs, false) && Sorted(ys, false)
    requires a < |xs| && a' < |xs| && b < |ys| && b' < |ys|
    requires xs[a].x == xs[a'].x && ys[b].y == ys[b'].y
    requires !(a' < a || (a' == a && b' < b))
    ensures xs[a].y < xs[a'].y || (xs[a].y == xs[a'].y && ys[b].x <= ys[b'].x)
  {
    if a < a' {
      assert Less(xs[a], xs[a'], false);
    } else if b < b' {
      assert Less(ys[b], ys[b'], false);
    }
  }

  /** The first closing pair of the search gives the nearest bottom-right corner. */
  lemma FirstIsNearest(inter: Crossings, colinear: Colinear, s: seq<Point>, i: nat, xs: seq<Point>, ys: seq<Point>, a: nat, b: nat)
    requires Sorted(s, false) && Elements(s) == inter.Keys && i < |s|
    requires xs == Ray(s[i..], s[i], true) && ys == Ray(s[i..], s[i], false)
    requires a < |xs| && b < |ys|
    requires forall a', b' :: 0 <= a' < |xs| && 0 <= b' < |ys| && (a' < a || (a' == a && b' < b)) ==>
      !Closes(inter, colinear, s[i], xs[a'], ys[b'])
    ensures Nearest(inter, colinear, CellFromPoints(s[i], Corner(xs[a], ys[b])))
  {
    var br := Corner(xs[a], ys[b]);
    SortedSuffix(s, i);
    assert Sorted(xs, false) && Sorted(ys, false);
    forall xPoint, yPoint | Candidates(inter, s[i], xPoint, yPoint) && Closes(inter, colinear, s[i], xPoint, yPoint)
      ensures br.y < xPoint.y || (br.y == xPoint.y && br.x <= yPoint.x)
    {
      CandidatesAfter(inter, s, i, xPoint, yPoint);
      NearestPair(inter, colinear, s[i], xs, ys, a, b, xPoint, yPoint);
    }
  }

  lemma NearestPair(inter: Crossings, colinear: Colinear, topLeft: Point, xs: seq<Point>, ys: seq<Point>, a: nat, b: nat, xPoint: Point, yPoint: Point)
    requires topLeft in inter && Sorted(xs, false) && Sorted(ys, false)
    requires forall q :: q in xs ==> q.x == topLeft.x
    requires forall q :: q in ys ==> q.y == topLeft.y
    requires a < |xs| && b < |ys| && xPoint in xs && yPoint in ys
    requires forall a', b' :: 0 <= a' < |xs| && 0 <= b' < |ys| && (a' < a || (a' == a && b' < b)) ==>
      !Closes(inter, colinear, topLeft, xs[a'], ys[b'])
    requires Closes(inter, colinear, topLeft, xPoint, yPoint)
    ensures Corner(xs[a], ys[b]).y < xPoint.y || (Corner(xs[a], ys[b]).y == xPoint.y && Corner(xs[a], ys[b]).x <= yPoint.x)
  {
    var a' :| 0 <= a' < |xs| && xs[a'] == xPoint;
    var b' :| 0 <= b' < |ys| && ys[b'] == yPoint;
    assert xs[a] in xs && ys[b] in ys;
    NotBeforeIsFarther(xs, ys, a, b, a', b');
  }

  /** A search that finds nothing means no four-sided rectangle starts at s[i]. */
  lemma NoneNotClosable(inter: Crossings, colinear: Colinear, s: seq<Point>, i: nat, xs: seq<Point>, ys: seq<Point>)
    requires Sorted(s, false) && Elements(s) == inter.Keys && i < |s|
    requires xs == Ray(s[i..], s[i], true) && ys == Ray(s[i..], s[i], false)
    requires forall a, b :: 0 <= a < |xs| && 0 <= b < |ys| ==> !Closes(inter, colinear, s[i], xs[a], ys[b])
    ensures !Closable(inter, colinear, s[i])
  {
    forall xPoint, yPoint | Candidates(inter, s[i], xPoint, yPoint)
      ensures !Closes(inter, colinear, s[i], xPoint, yPoint)
    {
      CandidatesAfter(inter, s, i, xPoint, yPoint);
      var a :| 0 <= a < |xs| && xs[a] == xPoint;
      var b :| 0 <= b < |ys| && ys[b] == yPoint;
    }
  }

  /** The state of the outer loop of find_cells! after the first i crossings:
      idx[k] is the position of the top-left corner of found[k]. */
  ghost predicate Progress(inter: Crossings, colinear: Colinear, points: seq<Point>, i: nat, found: seq<Cell>, idx: seq<nat>) {
    && Sorted(points, false) && Elements(points) == inter.Keys
    && Indexed(points, i, found, idx) && Increasing(idx)
    && AllNearest(inter, colinear, found) && Complete(inter, colinear, points, i, idx)
  }

  /** found[k] has its top-left corner at points[idx[k]], one of the first i. */
  ghost predicate Indexed(points: seq<Point>, i: nat, found: seq<Cell>, idx: seq<nat>) {
    && i <= |points| && |found| == |idx|
    && forall k :: 0 <= k < |idx| ==> idx[k] < i && found[k].TopLeft() == points[idx[k]]
  }

  ghost predicate Increasing(idx: seq<nat>) {
    forall k, l :: 0 <= k < l < |idx| ==> idx[k] < idx[l]
  }

  ghost predicate AllNearest(inter: Crossings, colinear: Colinear, found: seq<Cell>) {
    forall k :: 0 <= k < |found| ==> Confirmed(inter, colinear, found[k]) && Nearest(inter, colinear, found[k])
  }

  /** Of the first i crossings, exactly those at the positions idx are closable. */
  ghost predicate Complete(inter: Crossings, colinear: Colinear, points: seq<Point>, i: nat, idx: seq<nat>) {
    forall j :: 0 <= j < i && j < |points| && points[j] in inter ==> (Closable(inter, colinear, points[j]) <==> j in idx)
  }

  /** The cell built from the first closing pair is confirmed and nearest. */
  lemma FirstPairCell(inter: Crossings, colinear: Colinear, points: seq<Point>, i: nat, xs: seq<Point>, ys: seq<Point>, a: nat, b: nat)
    requires Sorted(points, false) && Elements(points) == inter.Keys && i < |points|
    requires xs == Ray(points[i..], points[i], true) && ys == Ray(points[i..], points[i], false)
    requires a < |xs| && b < |ys| && points[i] in inter && Closes(inter, colinear, points[i], xs[a], ys[b])
    requires forall a', b' :: 0 <= a' < |xs| && 0 <= b' < |ys| && (a' < a || (a' == a && b' < b)) ==>
      !Closes(inter, colinear, points[i], xs[a'], ys[b'])
    ensures var cell := CellFromPoints(points[i], Corner(xs[a], ys[b]));
      Confirmed(inter, colinear, cell) && Nearest(inter, colinear, cell) && Closable(inter, colinear, points[i])
  {
    assert xs[a] in xs && ys[b] in ys;
    FirstIsNearest(inter, colinear, points, i, xs, ys, a, b);
    assert Candidates(inter, points[i], xs[a], ys[b]);
  }

  lemma ProgressFound(inter: Crossings, colinear: Colinear, points: seq<Point>, i: nat, found: seq<Cell>, idx: seq<nat>, cell: Cell)
    requires Progress(inter, colinear, points, i, found, idx) && i < |points|
    requires cell.TopLeft() == points[i] && Closable(inter, colinear, points[i])
    requires Confirmed(inter, colinear, cell) && Nearest(inter, colinear, cell)
    ensures Progress(inter, colinear, points, i + 1, found + [cell], idx + [i])
  {
    IndexedFound(points, i, found, idx, cell);
    IncreasingFound(points, i, found, idx);
    AllNearestFound(inter, colinear, found, cell);
    assert points[i] in inter.Keys;
    CompleteStep(inter, colinear, points, i, found, idx, true);
  }

  lemma ProgressNone(inter: Crossings, colinear: Colinear, points: seq<Point>, i: nat, found: seq<Cell>, idx: seq<nat>)
    requires Progress(inter, colinear, points, i, found, idx) && i < |points|
    requires !Closable(inter, colinear, points[i])
    ensures Progress(inter, colinear, points, i + 1, found, idx)
  {
    IndexedNone(points, i, found, idx);
    assert points[i] in inter.Keys;
    CompleteStep(inter, colinear, points, i, found, idx, false);
  }

  lemma IndexedFound(points: seq<Point>, i: nat, found: seq<Cell>, idx: seq<nat>, cell: Cell)
    requires Indexed(points, i, found, idx) && i < |points| && cell.TopLeft() == points[i]
    ensures Indexed(points, i + 1, found + [cell], idx + [i])
  {
  }

  lemma IndexedNone(points: seq<Point>, i: nat, found: seq<Cell>, idx: seq<nat>)
    requires Indexed(points, i, found, idx) && i < |points|
    ensures Indexed(points, i + 1, found, idx)
  {
  }

  lemma IncreasingFound(points: seq<Point>, i: nat, found: seq<Cell>, idx: seq<nat>)
    requires Indexed(points, i, found, idx) && Increasing(idx)
    ensures Increasing(idx + [i])
  {
  }

  lemma AllNearestFound(inter: Crossings, colinear: Colinear, found: seq<Cell>, cell: Cell)
    requires AllNearest(inter, colinear, found)
    requires Confirmed(inter, colinear, cell) && Nearest(inter, colinear, cell)
    ensures AllNearest(inter, colinear, found + [cell])
  {
  }

  /** Deciding crossing i extends the decided prefix by one; it joins the
      positions exactly when it is closable. */
  lemma CompleteStep(inter: Crossings, colinear: Colinear, points: seq<Point>, i: nat, found: seq<Cell>, idx: seq<nat>, closable: bool)
    requires Indexed(points, i, found, idx) && Complete(inter, colinear, points, i, idx)
    requires i < |points| && points[i] in inter && Closable(inter, colinear, points[i]) == closable
    ensures Complete(inter, colinear, points, i + 1, if closable then idx + [i] else idx)
  {
    var idx' := if closable then idx + [i] else idx;
    forall j | 0 <= j < i + 1 && points[j] in inter ensures Closable(inter, colinear, points[j]) <==> j in idx' {
      if j == i {
        assert i !in idx by {
          forall k | 0 <= k < |idx| ensures idx[k] != i {
          }
        }
      }
    }
  }

  lemma ProgressDone(inter: Crossings, colinear: Colinear, points: seq<Point>, found: seq<Cell>, idx: seq<nat>)
    requires Progress(inter, colinear, points, |points|, found, idx)
    ensures |found| <= |inter|
    ensures forall k, l :: 0 <= k < l < |found| ==> Less(found[k].TopLeft(), found[l].TopLeft(), false)
    ensures forall p :: p in inter ==> (Closable(inter, colinear, p) <==> exists k :: 0 <= k < |found| && found[k].TopLeft() == p)
  {
    DoneCount(inter, points, found, idx);
    DoneOrder(points, found, idx);
    DoneExact(inter, colinear, points, found, idx);
  }

  /** At most one cell per crossing. */
  lemma DoneCount(inter: Crossings, points: seq<Point>, found: seq<Cell>, idx: seq<nat>)
    requires Sorted(points, false) && Elements(points) == inter.Keys
    requires Indexed(points, |points|, found, idx) && Increasing(idx)
    ensures |found| <= |inter|
  {
    SortedDistinct(points, false);
    DistinctCard(points);
    assert |inter| == |inter.Keys|;
    if idx != [] {
      IncreasingAtLeastIndex(idx, |idx| - 1);
    }
  }

  /** The cells come in row-major order of their top-left corners. */
  lemma DoneOrder(points: seq<Point>, found: seq<Cell>, idx: seq<nat>)
    requires Sorted(points, false)
    requires Indexed(points, |points|, found, idx) && Increasing(idx)
    ensures forall k, l :: 0 <= k < l < |found| ==> Less(found[k].TopLeft(), found[l].TopLeft(), false)
  {
    forall k, l | 0 <= k < l < |found| ensures Less(found[k].TopLeft(), found[l].TopLeft(), false) {
      assert idx[k] < idx[l];
    }
  }

  /** A crossing is the top-left corner of a cell exactly when it is closable. */
  lemma DoneExact(inter: Crossings, colinear: Colinear, points: seq<Point>, found: seq<Cell>, idx: seq<nat>)
    requires Sorted(points, false) && Elements(points) == inter.Keys
    requires Indexed(points, |points|, found, idx) && Complete(inter, colinear, points, |points|, idx)
    ensures forall p :: p in inter ==> (Closable(inter, colinear, p) <==> exists k :: 0 <= k < |found| && found[k].TopLeft() == p)
  {
    forall p | p in inter ensures Closable(inter, colinear, p) <==> exists k :: 0 <= k < |found| && found[k].TopLeft() == p {
      assert p in inter.Keys;
      var j :| 0 <= j < |points| && points[j] == p;
      if j in idx {
        var k :| 0 <= k < |idx| && idx[k] == j;
        assert found[k].TopLeft() == p;
      }
      if exists k :: 0 <= k < |found| && found[k].TopLeft() == p {
        var k :| 0 <= k < |found| && found[k].TopLeft() == p;
        if idx[k] != j {
          LessTotal(points[idx[k]], points[j], false);
        }
      }
    }
  }

  lemma {:induction false} IncreasingAtLeastIndex(idx: seq<nat>, k: nat)
    requires forall a, b :: 0 <= a < b < |idx| ==> idx[a] < idx[b]
    requires k < |idx|
    ensures idx[k] >= k
  {
    if k > 0 {
      IncreasingAtLeastIndex(idx, k - 1);
    }
  }

  /** find_cells!: every crossing, in row-major order, is tried as a top-left
      corner; at most one cell is emitted per corner. */
  method CollectCells(inter: Crossings, colinear: Colinear) returns (found: seq<Cell>)
    ensures |found| <= |inter|
    ensures forall k :: 0 <= k < |found| ==> Confirmed(inter, colinear, found[k]) && Nearest(inter, colinear, found[k])
    ensures forall k, l :: 0 <= k < l < |found| ==> Less(found[k].TopLeft(), found[l].TopLeft(), false)
    ensures forall p :: p in inter ==> (Closable(inter, colinear, p) <==> exists k :: 0 <= k < |found| && found[k].TopLeft() == p)
  {
    var points := SortPoints(inter.Keys, false);
    found := [];
    ghost var idx: seq<nat> := [];
    for i := 0 to |points|
      invariant Progress(inter, colinear, points, i, found, idx)
    {
      var topLeft := points[i];
      assert topLeft in inter.Keys;
      var xs := Ray(points[i..], topLeft, true);
      var ys := Ray(points[i..], topLeft, false);
      var r := SearchCell(inter, colinear, topLeft, xs, ys);
      if r.Some? {
        var xPoint, yPoint := xs[r.value.0], ys[r.value.1];
        var cell := CellFromPoints(topLeft, Corner(xPoint, yPoint));
        FirstPairCell(inter, colinear, points, i, xs, ys, r.value.0, r.value.1);
        ProgressFound(inter, colinear, points, i, found, idx, cell);
        found := found + [cell];
        idx := idx + [i];
      } else {
        NoneNotClosable(inter, colinear, points, i, xs, ys);
        ProgressNone(inter, colinear, points, i, found, idx);
      }
    }
    ProgressDone(inter, colinear, points, found, idx);
  }
}
