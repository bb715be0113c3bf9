/** Geometry primitives shared by the ruled-table reconstruction: points, rulings,
    cells, the two point orders (row-major and column-major) and a sort into them.
    Coordinates are integers: the source's floats pre-scaled to a fixed precision,
    so rounding to that precision is the identity here. */
module Geometry {

  datatype Option<T> = None | Some(value: T)

  datatype Point = Point(x: int, y: int)

  /** An axis-aligned ruling segment, given by its bounding box; a horizontal
      ruling has top == bottom, a vertical one left == right. */
  datatype Ruling = Ruling(top: int, left: int, bottom: int, right: int)

  /** A table cell: a rectangle plus the two flags the spanning pass sets. */
  datatype Cell = Cell(top: int, left: int, width: int, height: int, spanning: bool, placeholder: bool)
  {
    function Right(): int { left + width }
    function Bottom(): int { top + height }
    function TopLeft(): Point { Point(left, top) }
    function BottomRight(): Point { Point(left + width, top + height) }

    /** The four corners, clockwise from the top-left. */
    function Points(): (ps: seq<Point>)
      ensures |ps| == 4
      ensures ps[0].y == ps[1].y == top && ps[2].y == ps[3].y == top + height
      ensures ps[0].x == ps[3].x == left && ps[1].x == ps[2].x == left + width
    {
      [Point(left, top), Point(left + width, top), Point(left + width, top + height), Point(left, top + height)]
    }

    predicate SameGeometry(other: Cell) {
      top == other.top && left == other.left && width == other.width && height == other.height
    }
  }

  /** A plain (non-spanning, non-placeholder) cell from its top-left and bottom-right corners. */
  function CellFromPoints(topLeft: Point, bottomRight: Point): (c: Cell)
    ensures c.TopLeft() == topLeft && c.BottomRight() == bottomRight
    ensures !c.spanning && !c.placeholder
  {
    Cell(topLeft.y, topLeft.x, bottomRight.x - topLeft.x, bottomRight.y - topLeft.y, false, false)
  }

  /** The primary coordinate of a point in row-major order (byX == false: y) or
      column-major order (byX == true: x), and the secondary one. */
  function Primary(p: Point, byX: bool): int { if byX then p.x else p.y }
  function Secondary(p: Point, byX: bool): int { if byX then p.y else p.x }

  /** Strict lexicographic order on (primary, secondary). */
  predicate Less(p: Point, q: Point, byX: bool) {
    Primary(p, byX) < Primary(q, byX) || (Primary(p, byX) == Primary(q, byX) && Secondary(p, byX) < Secondary(q, byX))
  }

  lemma LessTotal(p: Point, q: Point, byX: bool)
    ensures p == q || Less(p, q, byX) || Less(q, p, byX)
    ensures !(Less(p, q, byX) && Less(q, p, byX))
  {
  }

  /** Strictly ascending, hence free of duplicates. */
  predicate Sorted(s: seq<Point>, byX: bool) {
    forall i, j :: 0 <= i < j < |s| ==> Less(s[i], s[j], byX)
  }

  predicate Distinct<T(==)>(s: seq<T>) {
    forall i, j :: 0 <= i < j < |s| ==> s[i] != s[j]
  }

  /** The set of elements of a sequence. */
  function Elements<T>(s: seq<T>): set<T> {
    set x | x in s
  }

  lemma {:induction false} DistinctCard<T>(s: seq<T>)
    requires Distinct(s)
    ensures |Elements(s)| == |s|
  {
    if s != [] {
      DistinctCard(s[1..]);
      assert Elements(s) == {s[0]} + Elements(s[1..]);
      assert s[0] !in Elements(s[1..]);
    }
  }

  lemma SortedDistinct(s: seq<Point>, byX: bool)
    requires Sorted(s, byX)
    ensures Distinct(s)
  {
    forall i, k | 0 <= i < k < |s| ensures s[i] != s[k] {
      assert Less(s[i], s[k], byX);
    }
  }

  /** Membership in a non-empty sequence, split at its last element. */
  lemma InitLast<T>(s: seq<T>)
    requires s != []
    ensures forall x :: x in s <==> x in s[..|s| - 1] || x == s[|s| - 1]
  {
    assert s == s[..|s| - 1] + [s[|s| - 1]];
  }

  lemma DistinctInitLast<T>(s: seq<T>)
    requires s != [] && Distinct(s)
    ensures Distinct(s[..|s| - 1]) && s[|s| - 1] !in s[..|s| - 1]
  {
  }

  /** Inserts p at its place in a sorted sequence. */
  function Insert(s: seq<Point>, p: Point, byX: bool): (r: seq<Point>)
    requires Sorted(s, byX) && p !in s
    ensures Sorted(r, byX)
    ensures forall q :: q in r <==> q in s || q == p
    ensures |r| == |s| + 1
  {
    if s == [] then [p]
    else if Less(p, s[0], byX) then [p] + s
    else
      var t := Insert(s[1..], p, byX);
      LessTotal(p, s[0], byX);
      assert forall q :: q in t ==> Less(s[0], q, byX) by {
        forall q | q in t ensures Less(s[0], q, byX) {
          if q != p {
            var k :| 1 <= k < |s| && s[k] == q;
          }
        }
      }
      [s[0]] + t
  }

  /** Sorts a finite set of points into row-major or column-major order (the
      source's Point2D sort and its x-first comparator). */
  method SortPoints(ps: set<Point>, byX: bool) returns (s: seq<Point>)
    ensures Sorted(s, byX)
    ensures Elements(s) == ps
    ensures |s| == |ps|
  {
    s := [];
    var rest := ps;
    while rest != {}
      invariant Sorted(s, byX)
      invariant Elements(s) + rest == ps
      invariant Elements(s) !! rest
      decreases rest
    {
      var p :| p in rest;
      s := Insert(s, p, byX);
      rest := rest - {p};
    }
    DistinctCard(s);
  }
}
