/** The region merger: the cells of a table are merged into the outlines of
    the spreadsheets they form. Every cell corner toggles membership of a
    point set, so the points left are the corners shared by an odd number of
    cells. Sorted by row, the points pair off into horizontal edges; sorted by
    column, into vertical edges. Following vertical and horizontal edges in
    turn from any point traces one closed rectilinear outline.

    Parity is what keeps the pairing on its lines: every cell has two or four
    corners on or before any row or column, so each row and each column holds
    an even number of the toggled points. */
module RegionMerger {
  import opened Geometry

  /** The corners of the cells, four per cell, in cell order. */
  function Corners(cells: seq<Cell>): (r: seq<Point>)
    ensures |r| == 4 * |cells|
  {
    if cells == [] then [] else Corners(cells[..|cells| - 1]) + cells[|cells| - 1].Points()
  }

  /** The corner list is each cell's four points, in cell order: cell k
      owns positions 4k to 4k + 3. */
  lemma {:induction false} CornersLayout(cells: seq<Cell>)
    ensures |Corners(cells)| == 4 * |cells|
    ensures forall k :: 0 <= k < |cells| ==> Corners(cells)[4 * k .. 4 * k + 4] == cells[k].Points()
  {
    if cells != [] {
      var init := cells[..|cells| - 1];
      CornersLayout(init);
      var r := Corners(cells);
      assert r == Corners(init) + cells[|cells| - 1].Points();
      forall k | 0 <= k < |cells| ensures r[4 * k .. 4 * k + 4] == cells[k].Points() {
        if k < |init| {
          assert r[4 * k .. 4 * k + 4] == Corners(init)[4 * k .. 4 * k + 4];
        }
      }
    }
  }

  /** p toggled in t: removed when present, added when absent. */
  function Flip(t: set<Point>, p: Point): (r: set<Point>)
    ensures forall q :: q in r <==> (q in t) != (q == p)
    ensures |r| == if p in t then |t| - 1 else |t| + 1
  {
    if p in t then t - {p} else t + {p}
  }

  /** The point set after toggling each point of s in turn. */
  function Toggled(s: seq<Point>): set<Point> {
    if s == [] then {} else Flip(Toggled(s[..|s| - 1]), s[|s| - 1])
  }

  lemma ToggledSnoc(s: seq<Point>, p: Point)
    ensures Toggled(s + [p]) == Flip(Toggled(s), p)
  {
    assert (s + [p])[..|s|] == s;
  }

  /** The toggled set is the set of points occurring an odd number of times. */
  lemma ToggledOdd(s: seq<Point>)
    ensures forall p :: p in Toggled(s) <==> multiset(s)[p] % 2 == 1
  {
    forall p ensures p in Toggled(s) <==> multiset(s)[p] % 2 == 1 {
      ToggledOddAt(s, p);
    }
  }

  lemma {:induction false} ToggledOddAt(s: seq<Point>, p: Point)
    ensures p in Toggled(s) <==> multiset(s)[p] % 2 == 1
  {
    if s != [] {
      var init, last := s[..|s| - 1], s[|s| - 1];
      ToggledOddAt(init, p);
      assert s == init + [last];
      ToggledSnoc(init, last);
      var n := multiset(init)[p];
      assert multiset(s)[p] == n + (if p == last then 1 else 0);
      OddStep(n, p == last);
    }
  }

  /** Adding one flips the parity; adding zero keeps it. */
  lemma OddStep(n: int, flip: bool)
    ensures ((n + (if flip then 1 else 0)) % 2 == 1) == ((n % 2 == 1) != flip)
  {
  }

  /** Toggling changes the size by one each time, so the parity of the
      toggled set is that of the sequence. */
  lemma {:induction false} ToggledParity(s: seq<Point>)
    ensures |Toggled(s)| % 2 == |s| % 2
  {
    if s != [] {
      var init := s[..|s| - 1];
      ToggledParity(init);
      ParityShift(|Toggled(init)|, |init|, |Toggled(s)|, |s|);
    }
  }

  /** Moving one of two numbers of equal parity by one, and the other up by
      one, keeps their parities equal. */
  lemma ParityShift(a: int, b: int, c: int, d: int)
    requires a % 2 == b % 2 && (c == a - 1 || c == a + 1) && d == b + 1
    ensures c % 2 == d % 2
  {
  }

  /** The points of s whose primary coordinate is at most r. */
  function Upto(s: seq<Point>, r: int, byX: bool): (t: seq<Point>)
    ensures forall p :: p in t <==> p in s && Primary(p, byX) <= r
  {
    if s == [] then []
    else
      var init, last := s[..|s| - 1], s[|s| - 1];
      InitLast(s);
      Upto(init, r, byX) + (if Primary(last, byX) <= r then [last] else [])
  }

  lemma UptoSnoc(s: seq<Point>, p: Point, r: int, byX: bool)
    ensures Upto(s + [p], r, byX) == Upto(s, r, byX) + (if Primary(p, byX) <= r then [p] else [])
  {
    assert (s + [p])[..|s|] == s;
  }

  lemma {:induction false} UptoAppend(s: seq<Point>, t: seq<Point>, r: int, byX: bool)
    ensures Upto(s + t, r, byX) == Upto(s, r, byX) + Upto(t, r, byX)
  {
    if t == [] {
      assert s + t == s;
    } else {
      var init, last := t[..|t| - 1], t[|t| - 1];
      assert (s + t)[..|s + t| - 1] == s + init;
      assert (s + t)[|s + t| - 1] == last;
      UptoAppend(s, init, r, byX);
    }
  }

  /** One when p is on or before line r, zero otherwise. */
  function Indicator(p: Point, r: int, byX: bool): nat {
    if Primary(p, byX) <= r then 1 else 0
  }

  lemma UptoSnocLength(s: seq<Point>, p: Point, r: int, byX: bool)
    ensures |Upto(s + [p], r, byX)| == |Upto(s, r, byX)| + Indicator(p, r, byX)
  {
    UptoSnoc(s, p, r, byX);
  }

  /** A cell has zero, two or four corners on or before any row and any column:
      its corners lie on two rows and two columns, two on each. */
  lemma UptoPointsEven(c: Cell, r: int, byX: bool)
    ensures |Upto(c.Points(), r, byX)| % 2 == 0
  {
    var ps := c.Points();
    var s1 := [ps[0]];
    var s2 := s1 + [ps[1]];
    var s3 := s2 + [ps[2]];
    assert s3 + [ps[3]] == ps;
    assert [] + [ps[0]] == s1;
    UptoSnocLength([], ps[0], r, byX);
    UptoSnocLength(s1, ps[1], r, byX);
    UptoSnocLength(s2, ps[2], r, byX);
    UptoSnocLength(s3, ps[3], r, byX);
    var i0, i1, i2, i3 := Indicator(ps[0], r, byX), Indicator(ps[1], r, byX), Indicator(ps[2], r, byX), Indicator(ps[3], r, byX);
    assert |Upto(ps, r, byX)| == i0 + i1 + i2 + i3;
    var half := if byX then i0 + i1 else i0 + i2;
    assert i0 + i1 + i2 + i3 == 2 * half;
    DoubleEven(half);
  }

  lemma DoubleEven(k: int)
    ensures (2 * k) % 2 == 0
  {
  }

  lemma {:induction false} UptoCornersEven(cells: seq<Cell>, r: int, byX: bool)
    ensures |Upto(Corners(cells), r, byX)| % 2 == 0
  {
    if cells != [] {
      var init, last := cells[..|cells| - 1], cells[|cells| - 1];
      UptoCornersEven(init, r, byX);
      UptoAppend(Corners(init), last.Points(), r, byX);
      UptoPointsEven(last, r, byX);
      var a, b := |Upto(Corners(init), r, byX)|, |Upto(last.Points(), r, byX)|;
      assert |Upto(Corners(cells), r, byX)| == a + b;
    }
  }

  lemma {:induction false} ToggledUptoMember(s: seq<Point>, r: int, byX: bool, p: Point)
    ensures (p in Toggled(s) && Primary(p, byX) <= r) <==> p in Toggled(Upto(s, r, byX))
  {
    if s != [] {
      var init, last := s[..|s| - 1], s[|s| - 1];
      ToggledUptoMember(init, r, byX, p);
      assert s == init + [last];
      UptoSnoc(init, last, r, byX);
      var u := Upto(init, r, byX);
      if Primary(last, byX) <= r {
        ToggledSnoc(u, last);
      } else {
        assert Upto(s, r, byX) == u;
      }
    }
  }

  /** Toggling commutes with keeping the points on or before a line. */
  lemma ToggledUpto(s: seq<Point>, r: int, byX: bool)
    ensures (set p | p in Toggled(s) && Primary(p, byX) <= r) == Toggled(Upto(s, r, byX))
  {
    forall p ensures (p in Toggled(s) && Primary(p, byX) <= r) <==> p in Toggled(Upto(s, r, byX)) {
      ToggledUptoMember(s, r, byX, p);
    }
  }

  /** Every row, and every column, of the toggled corners holds an even
      number of points; counted here up to a line, inclusive. */
  lemma LineParity(cells: seq<Cell>, r: int, byX: bool)
    ensures |set p | p in Toggled(Corners(cells)) && Primary(p, byX) <= r| % 2 == 0
  {
    ToggledUpto(Corners(cells), r, byX);
    ToggledParity(Upto(Corners(cells), r, byX));
    UptoCornersEven(cells, r, byX);
  }

  /** The toggled corners are even in number. */
  lemma TotalParity(cells: seq<Cell>)
    ensures |Toggled(Corners(cells))| % 2 == 0
  {
    ToggledParity(Corners(cells));
  }

  /** Sorted by line, the points pair off as s[0], s[1], then s[2], s[3], and so on,
      each pair on one line: an even count and no pair straddling two lines. */
  predicate PairedLines(s: seq<Point>, byX: bool) {
    && |s| % 2 == 0
    && forall j :: 0 <= j < |s| && j % 2 == 1 ==> Primary(s[j - 1], byX) == Primary(s[j], byX)
  }

  /** In a sorted sequence the points on or before the line of s[j] are the
      first j + 1 when the next point lies on a later line. */
  lemma PrefixUpto(s: seq<Point>, j: nat, byX: bool)
    requires Sorted(s, byX) && j + 1 < |s|
    requires Primary(s[j], byX) < Primary(s[j + 1], byX)
    ensures (set p | p in s && Primary(p, byX) <= Primary(s[j], byX)) == Elements(s[..j + 1])
  {
    forall p | p in s && Primary(p, byX) <= Primary(s[j], byX) ensures p in s[..j + 1] {
      var k :| 0 <= k < |s| && s[k] == p;
      assert k <= j;
      assert s[..j + 1][k] == p;
    }
    forall p | p in s[..j + 1] ensures Primary(p, byX) <= Primary(s[j], byX) {
      var k :| 0 <= k <= j && s[k] == p;
      if k < j {
        assert Less(s[k], s[j], byX);
      }
    }
  }

  /** A sorted sequence of the toggled corners pairs off along lines. */
  lemma SortedPaired(cells: seq<Cell>, s: seq<Point>, byX: bool)
    requires Sorted(s, byX) && Elements(s) == Toggled(Corners(cells))
    ensures PairedLines(s, byX)
  {
    SortedDistinct(s, byX);
    DistinctCard(s);
    TotalParity(cells);
    forall j | 0 <= j < |s| && j % 2 == 1 ensures Primary(s[j - 1], byX) == Primary(s[j], byX) {
      PairSameLine(cells, s, byX, j);
    }
  }

  /** The point at odd position j shares its line with the one before it:
      otherwise the lines up to that point would hold the first j points,
      an odd number. */
  lemma PairSameLine(cells: seq<Cell>, s: seq<Point>, byX: bool, j: int)
    requires Sorted(s, byX) && Elements(s) == Toggled(Corners(cells))
    requires 0 <= j < |s| && j % 2 == 1
    ensures Primary(s[j - 1], byX) == Primary(s[j], byX)
  {
    assert Less(s[j - 1], s[j], byX);
    if Primary(s[j - 1], byX) != Primary(s[j], byX) {
      OddPrefix(s, Toggled(Corners(cells)), j, byX);
      LineParity(cells, Primary(s[j - 1], byX), byX);
      assert false;
    }
  }

  /** When s[j] starts a new line, the points of s on or before the line of
      s[j - 1] are exactly the first j. */
  lemma OddPrefix(s: seq<Point>, t: set<Point>, j: int, byX: bool)
    requires Sorted(s, byX) && Elements(s) == t
    requires 0 < j < |s| && Primary(s[j - 1], byX) < Primary(s[j], byX)
    ensures |set p | p in t && Primary(p, byX) <= Primary(s[j - 1], byX)| == j
  {
    PrefixUpto(s, j - 1, byX);
    assert s[..j - 1 + 1] == s[..j];
    SortedDistinct(s, byX);
    assert Distinct(s[..j]);
    DistinctCard(s[..j]);
    assert (set p | p in t && Primary(p, byX) <= Primary(s[j - 1], byX)) == (set p | p in s && Primary(p, byX) <= Primary(s[j - 1], byX));
  }

  lemma CornersNext(cells: seq<Cell>, i: int)
    requires 0 <= i < |cells|
    ensures Corners(cells[..i + 1]) == Corners(cells[..i]) + cells[i].Points()
  {
    assert cells[..i + 1][..i] == cells[..i];
  }

  /** Toggling one more point of ps. */
  lemma ToggleNext(a: seq<Point>, ps: seq<Point>, k: int)
    requires 0 <= k < |ps|
    ensures Toggled(a + ps[..k + 1]) == Flip(Toggled(a + ps[..k]), ps[k])
  {
    assert a + ps[..k + 1] == (a + ps[..k]) + [ps[k]];
    ToggledSnoc(a + ps[..k], ps[k]);
  }

  lemma {:induction false} CornersAppend(a: seq<Cell>, b: seq<Cell>)
    ensures Corners(a + b) == Corners(a) + Corners(b)
  {
    if b == [] {
      assert a + b == a;
    } else {
      var init := b[..|b| - 1];
      CornersAppend(a, init);
      assert (a + b)[..|a + b| - 1] == a + init;
    }
  }

  /** The corners of a reordered cell list are the same points, with the
      same multiplicities. */
  lemma {:induction false} CornersPermutation(cells: seq<Cell>, other: seq<Cell>)
    requires multiset(cells) == multiset(other)
    ensures multiset(Corners(cells)) == multiset(Corners(other))
    decreases |other|
  {
    if other == [] {
      assert |cells| == |multiset(cells)| == 0;
    } else {
      var init, x := other[..|other| - 1], other[|other| - 1];
      assert other == init + [x];
      assert x in multiset(cells);
      var k :| 0 <= k < |cells| && cells[k] == x;
      var before, after := cells[..k], cells[k + 1..];
      assert cells == before + [x] + after;
      assert multiset(before + after) + multiset{x} == multiset(init) + multiset{x} by {
        assert multiset(cells) == multiset(before + after) + multiset{x};
        assert multiset(other) == multiset(init) + multiset{x};
      }
      MultisetCancel(multiset(before + after), multiset(init), x);
      CornersPermutation(before + after, init);
      CornersSplice(before, x, after);
      assert Corners(other) == Corners(init) + x.Points();
    }
  }

  /** The corners of a cell list with one cell taken out, and that cell's corners. */
  lemma CornersSplice(before: seq<Cell>, x: Cell, after: seq<Cell>)
    ensures multiset(Corners(before + [x] + after)) == multiset(Corners(before + after)) + multiset(x.Points())
  {
    CornersAppend(before + [x], after);
    CornersAppend(before, [x]);
    CornersAppend(before, after);
    assert Corners([x]) == x.Points() by {
      assert [x][..0] == [];
    }
  }

  lemma MultisetCancel(a: multiset<Cell>, b: multiset<Cell>, x: Cell)
    requires a + multiset{x} == b + multiset{x}
    ensures a == b
  {
    forall y ensures a[y] == b[y] {
      assert (a + multiset{x})[y] == (b + multiset{x})[y];
    }
  }

  /** The toggled corners, and so the outlines, do not depend on the order of
      the cells: sorting the cells first changes nothing. */
  lemma CellOrderIrrelevant(cells: seq<Cell>, other: seq<Cell>)
    requires multiset(cells) == multiset(other)
    ensures Toggled(Corners(cells)) == Toggled(Corners(other))
  {
    CornersPermutation(cells, other);
    ToggledOdd(Corners(cells));
    ToggledOdd(Corners(other));
  }

  /** Toggles every corner of every cell in turn (the corner loop of
      find_spreadsheets_from_cells): the points kept are exactly those that
      are a corner of an odd number of cells, counted with multiplicity. */
  method ToggleCorners(cells: seq<Cell>) returns (points: set<Point>)
    ensures points == Toggled(Corners(cells))
    ensures forall p :: p in points <==> multiset(Corners(cells))[p] % 2 == 1
  {
    points := {};
    for i := 0 to |cells|
      invariant points == Toggled(Corners(cells[..i]))
    {
      var ps := cells[i].Points();
      ghost var corners := Corners(cells[..i]);
      assert corners + ps[..0] == corners;
      for k := 0 to 4
        invariant points == Toggled(corners + ps[..k])
      {
        ToggleNext(corners, ps, k);
        if ps[k] in points {
          points := points - {ps[k]};
        } else {
          points := points + {ps[k]};
        }
      }
      assert ps[..4] == ps;
      CornersNext(cells, i);
    }
    assert cells[..|cells|] == cells;
    ToggledOdd(Corners(cells));
  }

  /** edges pairs off the first i points of s: s[0] with s[1], s[2] with s[3], ... */
  ghost predicate PairedUpTo(edges: map<Point, Point>, s: seq<Point>, i: nat)
    requires i <= |s|
  {
    && (forall p :: p in edges <==> p in s[..i])
    && (forall j :: 0 <= j < i && j % 2 == 1 ==> edges[s[j - 1]] == s[j] && edges[s[j]] == s[j - 1])
  }

  lemma PairStep(edges: map<Point, Point>, s: seq<Point>, i: nat)
    requires Distinct(s) && i + 2 <= |s| && i % 2 == 0 && PairedUpTo(edges, s, i)
    ensures PairedUpTo(edges[s[i] := s[i + 1]][s[i + 1] := s[i]], s, i + 2)
  {
    var e := edges[s[i] := s[i + 1]][s[i + 1] := s[i]];
    assert s[..i + 2] == s[..i] + [s[i], s[i + 1]];
    forall j | 0 <= j < i + 2 && j % 2 == 1 ensures e[s[j - 1]] == s[j] && e[s[j]] == s[j - 1] {
      if j < i {
        assert s[j - 1] != s[i] && s[j - 1] != s[i + 1] && s[j] != s[i] && s[j] != s[i + 1];
      }
    }
  }

  /** Pairs the sorted points off along their lines (the edges_h and edges_v
      loops): s[0] with s[1], s[2] with s[3], and so on, line by line, in both
      directions. */
  method PairUp(s: seq<Point>, byX: bool) returns (edges: map<Point, Point>)
    requires Sorted(s, byX) && |s| % 2 == 0
    ensures forall p :: p in edges <==> p in s
    ensures forall j :: 0 <= j < |s| && j % 2 == 1 ==> edges[s[j - 1]] == s[j] && edges[s[j]] == s[j - 1]
  {
    SortedDistinct(s, byX);
    edges := map[];
    var i := 0;
    while i < |s|
      invariant i <= |s| && i % 2 == 0 && PairedUpTo(edges, s, i)
      decreases |s| - i
    {
      var line := Primary(s[i], byX);
      ghost var i0 := i;
      while i < |s| && Primary(s[i], byX) == line
        invariant i0 <= i <= |s| && i % 2 == 0 && PairedUpTo(edges, s, i)
        invariant i == i0 ==> Primary(s[i], byX) == line
        decreases |s| - i
      {
        PairStep(edges, s, i);
        edges := edges[s[i] := s[i + 1]][s[i + 1] := s[i]];
        i := i + 2;
      }
    }
    assert s[..|s|] == s;
  }

  /** m pairs each of its points with another point on the same line, and
      the partner's partner is the point itself. */
  ghost predicate LineMatching(m: map<Point, Point>, byX: bool) {
    forall p {:trigger m[p]} :: p in m ==>
      && m[p] in m && m[m[p]] == p
      && Primary(m[p], byX) == Primary(p, byX) && Secondary(m[p], byX) != Secondary(p, byX)
  }

  /** No point of points lies on the line strictly between a point of m and its partner. */
  ghost predicate Gapless(m: map<Point, Point>, points: set<Point>, byX: bool) {
    forall p, q :: p in m && q in points && Primary(q, byX) == Primary(p, byX) ==>
      !(Secondary(p, byX) < Secondary(q, byX) < Secondary(m[p], byX))
  }

  /** The pairing of a sequence sorted and paired along lines is a matching
      along those lines whose pairs are neighbours on their line. */
  lemma PairingMatches(s: seq<Point>, edges: map<Point, Point>, byX: bool)
    requires Sorted(s, byX) && PairedLines(s, byX)
    requires forall p :: p in edges <==> p in s
    requires forall j :: 0 <= j < |s| && j % 2 == 1 ==> edges[s[j - 1]] == s[j] && edges[s[j]] == s[j - 1]
    ensures LineMatching(edges, byX) && Gapless(edges, Elements(s), byX)
  {
    forall p | p in edges
      ensures edges[p] in edges && edges[edges[p]] == p
      ensures Primary(edges[p], byX) == Primary(p, byX) && Secondary(edges[p], byX) != Secondary(p, byX)
      ensures forall q :: q in s && Primary(q, byX) == Primary(p, byX) ==> !(Secondary(p, byX) < Secondary(q, byX) < Secondary(edges[p], byX))
    {
      var k :| 0 <= k < |s| && s[k] == p;
      var j := if k % 2 == 1 then k else k + 1;
      assert Less(s[j - 1], s[j], byX);
      NeighboursOnLine(s, j, byX);
    }
  }

  /** s[j - 1] and s[j] are neighbours: no point of s lies on their line between them. */
  lemma NeighboursOnLine(s: seq<Point>, j: nat, byX: bool)
    requires Sorted(s, byX) && 0 < j < |s|
    ensures forall q :: q in s && Primary(q, byX) == Primary(s[j], byX) ==> !(Secondary(s[j - 1], byX) < Secondary(q, byX) < Secondary(s[j], byX))
  {
    forall q | q in s && Primary(q, byX) == Primary(s[j], byX)
      ensures !(Secondary(s[j - 1], byX) < Secondary(q, byX) < Secondary(s[j], byX))
    {
      var k :| 0 <= k < |s| && s[k] == q;
      if k < j - 1 {
        assert Less(s[k], s[j - 1], byX);
      } else if k > j {
        assert Less(s[j], s[k], byX);
      }
    }
  }

  /** The walk leaves position i along a vertical edge when i is even and
      along a horizontal edge when i is odd, reaching position i + 1. */
  ghost predicate Leaves(path: seq<Point>, i: int, eh: map<Point, Point>, ev: map<Point, Point>) {
    && 0 <= i < |path| - 1 && path[i] in eh && path[i] in ev
    && (if i % 2 == 0 then ev[path[i]] else eh[path[i]]) == path[i + 1]
  }

  /** A closed outline: an even number, at least four, of distinct points of
      both edge maps, each left along a vertical edge at even positions and a
      horizontal edge at odd ones, the last horizontal edge leading back to
      the first point. */
  ghost predicate Outline(polygon: seq<Point>, eh: map<Point, Point>, ev: map<Point, Point>) {
    && |polygon| >= 4 && |polygon| % 2 == 0 && Distinct(polygon)
    && (forall i :: 0 <= i < |polygon| ==> polygon[i] in eh && polygon[i] in ev)
    && (forall i :: 0 <= i < |polygon| - 1 ==> Leaves(polygon, i, eh, ev))
    && eh[polygon[|polygon| - 1]] == polygon[0]
  }

  /** pos is the inverse of path: it maps each point of path to its position. */
  ghost predicate Positions(path: seq<Point>, pos: map<Point, int>) {
    && (forall i :: 0 <= i < |path| ==> path[i] in pos && pos[path[i]] == i)
    && (forall q :: q in pos ==> 0 <= pos[q] < |path| && path[pos[q]] == q)
  }

  lemma PositionsElements(path: seq<Point>, pos: map<Point, int>)
    requires Positions(path, pos)
    ensures Distinct(path)
    ensures pos.Keys == Elements(path)
  {
    forall i, j | 0 <= i < j < |path| ensures path[i] != path[j] {
      assert pos[path[i]] != pos[path[j]];
    }
  }

  lemma PositionsAppend(path: seq<Point>, pos: map<Point, int>, next: Point)
    requires Positions(path, pos) && next !in pos
    ensures Positions(path + [next], pos[next := |path|])
  {
    var p' := path + [next];
    assert forall i :: 0 <= i < |path| ==> p'[i] == path[i];
  }

  /** An unfinished walk: points of both edge maps, indexed by pos, each but
      the last left along the edge its position asks for. */
  ghost predicate Walk(path: seq<Point>, pos: map<Point, int>, eh: map<Point, Point>, ev: map<Point, Point>) {
    && |path| >= 1 && Positions(path, pos)
    && (forall q :: q in pos ==> q in eh && q in ev)
    && (forall i :: 0 <= i < |path| - 1 ==> Leaves(path, i, eh, ev))
  }

  /** A vertical step out of an even position reaches a point not yet on the walk. */
  lemma VerticalStepFresh(path: seq<Point>, pos: map<Point, int>, eh: map<Point, Point>, ev: map<Point, Point>)
    requires LineMatching(eh, false) && LineMatching(ev, true)
    requires Walk(path, pos, eh, ev) && |path| % 2 == 1
    ensures ev[path[|path| - 1]] !in pos
  {
    var n := |path| - 1;
    var last := path[n];
    var next := ev[last];
    assert ev[next] == last;
    forall q | q in pos ensures q != next {
      var k := pos[q];
      if k == n {
        assert Secondary(next, true) != Secondary(last, true);
      } else if k % 2 == 1 {
        assert Leaves(path, k - 1, eh, ev);
        assert pos[path[k - 1]] == k - 1;
      } else {
        assert Leaves(path, k, eh, ev);
        assert pos[path[k + 1]] == k + 1;
      }
    }
  }

  /** A horizontal step out of an odd position reaches the first point or a
      point not yet on the walk. */
  lemma HorizontalStepFresh(path: seq<Point>, pos: map<Point, int>, eh: map<Point, Point>, ev: map<Point, Point>)
    requires LineMatching(eh, false) && LineMatching(ev, true)
    requires Walk(path, pos, eh, ev) && !(|path| % 2 == 1)
    ensures eh[path[|path| - 1]] != path[0] ==> eh[path[|path| - 1]] !in pos
  {
    var n := |path| - 1;
    var last := path[n];
    var next := eh[last];
    assert eh[next] == last;
    forall q | q in pos && q != path[0] ensures q != next {
      var k := pos[q];
      if k == n {
        assert Secondary(next, false) != Secondary(last, false);
      } else if k % 2 == 0 {
        assert Leaves(path, k - 1, eh, ev);
        assert pos[path[k - 1]] == k - 1;
      } else {
        assert Leaves(path, k, eh, ev);
        assert pos[path[k + 1]] == k + 1;
      }
    }
  }

  /** A walk of two points cannot close: the second point would share both
      coordinates with the first. */
  lemma NoTwoPointOutline(path: seq<Point>, pos: map<Point, int>, eh: map<Point, Point>, ev: map<Point, Point>)
    requires LineMatching(eh, false) && LineMatching(ev, true)
    requires Walk(path, pos, eh, ev) && |path| == 2
    ensures eh[path[1]] != path[0]
  {
    assert Leaves(path, 0, eh, ev);
    assert path[1].x == path[0].x && path[1].y != path[0].y;
    assert eh[path[1]].y == path[1].y;
  }

  /** m is what is left of m0 once some keys in gone were removed: every key
      kept with its value, every key outside gone still there. */
  ghost predicate Remains(m: map<Point, Point>, m0: map<Point, Point>, gone: set<Point>) {
    && Submap(m, m0)
    && (forall q :: q in m0 && q !in gone ==> q in m)
  }

  /** Every key of m is a key of m0 with the same value. */
  ghost predicate Submap(m: map<Point, Point>, m0: map<Point, Point>) {
    forall q {:trigger m[q]} :: q in m ==> q in m0 && m[q] == m0[q]
  }

  /** Removing a key of gone, or none, keeps m what is left of m0 once the
      keys of a grown walk were removed. */
  lemma RemainsStep(m: map<Point, Point>, m0: map<Point, Point>, pos: map<Point, int>, curr: Point, next: Point, k: int)
    requires Remains(m, m0, pos.Keys) && curr in pos
    ensures Remains(m, m0, pos[next := k].Keys)
    ensures Remains(m - {curr}, m0, pos[next := k].Keys)
  {
  }

  lemma RemainsShrink(m: map<Point, Point>, m0: map<Point, Point>, gone: set<Point>, curr: Point)
    requires Remains(m, m0, gone) && curr in gone
    ensures Remains(m - {curr}, m0, gone)
  {
  }

  lemma AppendParity(s: seq<Point>, x: Point)
    ensures |s + [x]| % 2 == 1 <==> !(|s| % 2 == 1)
  {
  }

  /** The state of an unfinished trace: the walk so far, how its last point
      was reached, and edge maps that still hold the edge to leave it by. */
  ghost predicate Tracing(eh: map<Point, Point>, ev: map<Point, Point>, polygon: seq<Point>, pos: map<Point, int>,
                          horizontal: bool, h: map<Point, Point>, v: map<Point, Point>)
  {
    && Walk(polygon, pos, eh, ev) && horizontal == (|polygon| % 2 == 1)
    && Remains(h, eh, pos.Keys) && Remains(v, ev, pos.Keys)
    && (if horizontal then polygon[|polygon| - 1] in v else polygon[|polygon| - 1] in h)
  }

  /** A finished trace: a closed outline, and edge maps that lost keys of the
      outline only. */
  ghost predicate Traced(eh: map<Point, Point>, ev: map<Point, Point>, polygon: seq<Point>, h: map<Point, Point>, v: map<Point, Point>) {
    && Outline(polygon, eh, ev)
    && Remains(h, eh, Elements(polygon)) && Remains(v, ev, Elements(polygon))
  }

  /** The trace starts at a key of the horizontal edges, with that key removed. */
  lemma TraceStart(eh: map<Point, Point>, ev: map<Point, Point>, start: Point)
    requires eh.Keys == ev.Keys && start in eh
    ensures Tracing(eh, ev, [start], map[start := 0], true, eh - {start}, ev)
  {
  }

  /** Leaving a point reached horizontally: its vertical edge is still there
      and leads to a new point. */
  lemma VerticalStep(eh: map<Point, Point>, ev: map<Point, Point>, polygon: seq<Point>, pos: map<Point, int>,
                     h: map<Point, Point>, v: map<Point, Point>)
    requires LineMatching(eh, false) && LineMatching(ev, true) && eh.Keys == ev.Keys
    requires Tracing(eh, ev, polygon, pos, true, h, v)
    ensures var curr := polygon[|polygon| - 1];
      Tracing(eh, ev, polygon + [v[curr]], pos[v[curr] := |polygon|], false, h, v - {curr})
  {
    var curr := polygon[|polygon| - 1];
    VerticalStepFresh(polygon, pos, eh, ev);
    var next := ev[curr];
    WalkExtend(polygon, pos, eh, ev, true, next);
    AppendParity(polygon, next);
    RemainsStep(h, eh, pos, curr, next, |polygon|);
    RemainsStep(v, ev, pos, curr, next, |polygon|);
  }

  /** Appending a fresh point reached along the right kind of edge extends a walk. */
  lemma WalkExtend(path: seq<Point>, pos: map<Point, int>, eh: map<Point, Point>, ev: map<Point, Point>, vertical: bool, next: Point)
    requires Walk(path, pos, eh, ev) && next !in pos && next in eh && next in ev
    requires vertical == (|path| % 2 == 1)
    requires (if vertical then ev[path[|path| - 1]] else eh[path[|path| - 1]]) == next
    ensures Walk(path + [next], pos[next := |path|], eh, ev)
  {
    var p' := path + [next];
    PositionsAppend(path, pos, next);
    forall i | 0 <= i < |p'| - 1 ensures Leaves(p', i, eh, ev) {
      if i < |path| - 1 {
        assert Leaves(path, i, eh, ev);
      }
    }
  }

  /** Leaving a point reached vertically: its horizontal edge is still there
      and leads to a new point unless it leads back to the start. */
  lemma HorizontalStep(eh: map<Point, Point>, ev: map<Point, Point>, polygon: seq<Point>, pos: map<Point, int>,
                       h: map<Point, Point>, v: map<Point, Point>)
    requires LineMatching(eh, false) && LineMatching(ev, true) && eh.Keys == ev.Keys
    requires Tracing(eh, ev, polygon, pos, false, h, v)
    requires h[polygon[|polygon| - 1]] != polygon[0]
    ensures var curr := polygon[|polygon| - 1];
      Tracing(eh, ev, polygon + [h[curr]], pos[h[curr] := |polygon|], true, h - {curr}, v)
  {
    var curr := polygon[|polygon| - 1];
    HorizontalStepFresh(polygon, pos, eh, ev);
    var next := eh[curr];
    assert next == h[curr] && next !in pos;
    WalkExtend(polygon, pos, eh, ev, false, next);
    AppendParity(polygon, next);
    RemainsStep(h, eh, pos, curr, next, |polygon|);
    RemainsStep(v, ev, pos, curr, next, |polygon|);
  }

  /** A horizontal edge back to the start closes the outline. */
  lemma HorizontalClose(eh: map<Point, Point>, ev: map<Point, Point>, polygon: seq<Point>, pos: map<Point, int>,
                        h: map<Point, Point>, v: map<Point, Point>)
    requires LineMatching(eh, false) && LineMatching(ev, true) && eh.Keys == ev.Keys
    requires Tracing(eh, ev, polygon, pos, false, h, v)
    requires h[polygon[|polygon| - 1]] == polygon[0]
    ensures Traced(eh, ev, polygon, h - {polygon[|polygon| - 1]}, v)
  {
    var last := polygon[|polygon| - 1];
    if |polygon| == 2 {
      NoTwoPointOutline(polygon, pos, eh, ev);
    }
    CloseLength(|polygon|);
    WalkOutline(polygon, pos, eh, ev);
    PositionsElements(polygon, pos);
    RemainsShrink(h, eh, pos.Keys, last);
  }

  /** A walk of even length at least four whose last horizontal edge leads
      back to its first point is a closed outline. */
  lemma WalkOutline(polygon: seq<Point>, pos: map<Point, int>, eh: map<Point, Point>, ev: map<Point, Point>)
    requires Walk(polygon, pos, eh, ev) && |polygon| >= 4 && |polygon| % 2 == 0
    requires eh[polygon[|polygon| - 1]] == polygon[0]
    ensures Outline(polygon, eh, ev)
  {
    PositionsElements(polygon, pos);
  }

  lemma CloseLength(n: int)
    requires n >= 1 && !(n % 2 == 1) && n != 2
    ensures n >= 4 && n % 2 == 0
  {
  }

  /** Removing a present key shrinks a map. */
  lemma RemoveKey(m: map<Point, Point>, k: Point)
    requires k in m
    ensures |(m - {k}).Keys| < |m.Keys|
  {
    assert (m - {k}).Keys == m.Keys - {k};
  }

  /** Traces one outline (one turn of the polygon loop): takes a key of the
      horizontal edges as the start, removing it, then follows vertical and
      horizontal edges in turn, removing each key it leaves by, until a
      horizontal edge leads back to the start. */
  method TraceOutline(eh: map<Point, Point>, ev: map<Point, Point>) returns (polygon: seq<Point>, h: map<Point, Point>, v: map<Point, Point>)
    requires eh != map[] && eh.Keys == ev.Keys
    requires LineMatching(eh, false) && LineMatching(ev, true)
    ensures Traced(eh, ev, polygon, h, v)
  {
    var start :| start in eh;
    h := eh - {start};
    v := ev;
    polygon := [start];
    ghost var pos := map[start := 0];
    // whether the last point was reached along a horizontal edge; the start counts as such
    var horizontal := true;
    TraceStart(eh, ev, start);
    while true
      invariant Tracing(eh, ev, polygon, pos, horizontal, h, v)
      decreases |h.Keys| + |v.Keys|
    {
      var closed;
      closed, polygon, pos, horizontal, h, v := Advance(eh, ev, polygon, pos, horizontal, h, v);
      if closed {
        break;
      }
    }
  }

  /** One round of the trace loop: from the last point, follows the vertical
      edge after a horizontal one, else the horizontal edge, deleting the key
      it leaves by from that map only; closed tells that the horizontal edge
      led back to the start, which is then not appended again. */
  method Advance(ghost eh: map<Point, Point>, ghost ev: map<Point, Point>, polygon: seq<Point>, ghost pos: map<Point, int>,
                 horizontal: bool, h: map<Point, Point>, v: map<Point, Point>)
    returns (closed: bool, polygon': seq<Point>, ghost pos': map<Point, int>, horizontal': bool, h': map<Point, Point>, v': map<Point, Point>)
    requires LineMatching(eh, false) && LineMatching(ev, true) && eh.Keys == ev.Keys
    requires Tracing(eh, ev, polygon, pos, horizontal, h, v)
    ensures closed ==> Traced(eh, ev, polygon', h', v')
    ensures !closed ==> Tracing(eh, ev, polygon', pos', horizontal', h', v')
    ensures |h'.Keys| + |v'.Keys| < |h.Keys| + |v.Keys|
    ensures var last := polygon[|polygon| - 1];
      if horizontal then last in v && h' == h && v' == v - {last}
      else last in h && v' == v && h' == h - {last}
    ensures closed <==> !horizontal && h[polygon[|polygon| - 1]] == polygon[0]
    ensures closed ==> polygon' == polygon
    ensures !closed ==> horizontal' == !horizontal
    ensures !closed ==> polygon' == polygon + [if horizontal then v[polygon[|polygon| - 1]] else h[polygon[|polygon| - 1]]]
  {
    var curr := polygon[|polygon| - 1];
    TraceStep(eh, ev, polygon, pos, horizontal, h, v);
    var next;
    closed, h', v' := false, h, v;
    if horizontal {
      next := v[curr];
      RemoveKey(v, curr);
      v' := v - {curr};
    } else {
      next := h[curr];
      RemoveKey(h, curr);
      h' := h - {curr};
      // the point reached horizontally is the start: the outline is closed
      closed := next == polygon[0];
    }
    if closed {
      polygon', pos', horizontal' := polygon, pos, horizontal;
    } else {
      polygon', pos', horizontal' := polygon + [next], pos[next := |polygon|], !horizontal;
    }
  }

  /** One step of the trace: along the vertical edge after a horizontal one,
      else along the horizontal edge, which either closes the outline at the
      start or reaches a point not visited yet. */
  lemma TraceStep(eh: map<Point, Point>, ev: map<Point, Point>, polygon: seq<Point>, pos: map<Point, int>,
                  horizontal: bool, h: map<Point, Point>, v: map<Point, Point>)
    requires LineMatching(eh, false) && LineMatching(ev, true) && eh.Keys == ev.Keys
    requires Tracing(eh, ev, polygon, pos, horizontal, h, v)
    ensures var curr := polygon[|polygon| - 1];
      if horizontal then
        curr in v && Tracing(eh, ev, polygon + [v[curr]], pos[v[curr] := |polygon|], false, h, v - {curr})
      else if h[curr] == polygon[0] then
        Traced(eh, ev, polygon, h - {curr}, v)
      else
        Tracing(eh, ev, polygon + [h[curr]], pos[h[curr] := |polygon|], true, h - {curr}, v)
  {
    if horizontal {
      VerticalStep(eh, ev, polygon, pos, h, v);
    } else if h[polygon[|polygon| - 1]] == polygon[0] {
      HorizontalClose(eh, ev, polygon, pos, h, v);
    } else {
      HorizontalStep(eh, ev, polygon, pos, h, v);
    }
  }

  /** The points of all the polygons. */
  function Vertices(polygons: seq<seq<Point>>): set<Point> {
    if polygons == [] then {} else Vertices(polygons[..|polygons| - 1]) + Elements(polygons[|polygons| - 1])
  }

  lemma VerticesAppend(polygons: seq<seq<Point>>, polygon: seq<Point>)
    ensures Vertices(polygons + [polygon]) == Vertices(polygons) + Elements(polygon)
  {
    assert (polygons + [polygon])[..|polygons|] == polygons;
  }

  lemma {:induction false} VerticesMember(polygons: seq<seq<Point>>, i: int)
    requires 0 <= i < |polygons|
    ensures Elements(polygons[i]) <= Vertices(polygons)
  {
    if i < |polygons| - 1 {
      VerticesMember(polygons[..|polygons| - 1], i);
    }
  }

  /** An outline is closed under both edge maps: its points have their
      partners on it. */
  lemma OutlineClosed(polygon: seq<Point>, eh: map<Point, Point>, ev: map<Point, Point>)
    requires LineMatching(eh, false) && LineMatching(ev, true)
    requires Outline(polygon, eh, ev)
    ensures forall q :: q in Elements(polygon) ==> eh[q] in Elements(polygon) && ev[q] in Elements(polygon)
  {
    var n := |polygon|;
    forall q | q in Elements(polygon) ensures eh[q] in Elements(polygon) && ev[q] in Elements(polygon) {
      var i :| 0 <= i < n && polygon[i] == q;
      if i % 2 == 0 {
        assert Leaves(polygon, i, eh, ev);
        if i == 0 {
          assert eh[polygon[n - 1]] == q;
          assert eh[q] == polygon[n - 1];
        } else {
          assert Leaves(polygon, i - 1, eh, ev);
        }
      } else {
        assert Leaves(polygon, i - 1, eh, ev);
        if i < n - 1 {
          assert Leaves(polygon, i, eh, ev);
        }
      }
    }
  }

  /** Taking away from a matching the keys of a set closed under it leaves a matching. */
  lemma MatchingMinus(m: map<Point, Point>, m1: map<Point, Point>, gone: set<Point>, byX: bool)
    requires LineMatching(m, byX) && Submap(m1, m) && m1.Keys == m.Keys - gone
    requires forall q :: q in gone && q in m ==> m[q] in gone
    ensures LineMatching(m1, byX)
  {
    forall p | p in m1 ensures m1[p] in m1 {
      assert m[m[p]] == p;
    }
  }

  /** An outline along submaps of two edge maps is an outline along them. */
  lemma OutlineSubmap(polygon: seq<Point>, h: map<Point, Point>, v: map<Point, Point>, eh: map<Point, Point>, ev: map<Point, Point>)
    requires Outline(polygon, h, v) && Submap(h, eh) && Submap(v, ev)
    ensures Outline(polygon, eh, ev)
  {
    forall i | 0 <= i < |polygon| - 1 ensures Leaves(polygon, i, eh, ev) {
      assert Leaves(polygon, i, h, v);
    }
  }

  /** Deletes every vertex of the polygon from an edge map, where present
      (the clean-up after each polygon). */
  method RemoveVertices(m: map<Point, Point>, polygon: seq<Point>) returns (r: map<Point, Point>)
    ensures Submap(r, m)
    ensures r.Keys == m.Keys - Elements(polygon)
  {
    r := m;
    for j := 0 to |polygon|
      invariant Submap(r, m)
      invariant r.Keys == m.Keys - Elements(polygon[..j])
    {
      assert Elements(polygon[..j + 1]) == Elements(polygon[..j]) + {polygon[j]} by {
        assert polygon[..j + 1] == polygon[..j] + [polygon[j]];
      }
      if polygon[j] in r {
        r := r - {polygon[j]};
      }
    }
    assert polygon[..|polygon|] == polygon;
  }

  /** What the trace left of m, cleaned of the polygon's vertices, is m
      without them. */
  lemma CleanupKeys(m: map<Point, Point>, m1: map<Point, Point>, m2: map<Point, Point>, gone: set<Point>)
    requires Remains(m1, m, gone) && Submap(m2, m1) && m2.Keys == m1.Keys - gone
    ensures Submap(m2, m) && m2.Keys == m.Keys - gone
  {
  }

  /** The state of the polygon loop: the edge maps left are the matchings
      restricted to the points not yet on a polygon, and the polygons found
      are disjoint outlines. */
  ghost predicate Splitting(eh: map<Point, Point>, ev: map<Point, Point>, polygons: seq<seq<Point>>,
                            h: map<Point, Point>, v: map<Point, Point>)
  {
    MapsLeft(eh, ev, h, v) && Partition(eh, polygons, h) && Found(eh, ev, polygons)
  }

  /** The edge maps left are matchings on equal keys, inside the original maps. */
  ghost predicate MapsLeft(eh: map<Point, Point>, ev: map<Point, Point>, h: map<Point, Point>, v: map<Point, Point>) {
    && h.Keys == v.Keys && LineMatching(h, false) && LineMatching(v, true)
    && Submap(h, eh) && Submap(v, ev)
  }

  /** Every point is either left in the edge maps or a vertex found, not both. */
  ghost predicate Partition(eh: map<Point, Point>, polygons: seq<seq<Point>>, h: map<Point, Point>) {
    h.Keys !! Vertices(polygons) && h.Keys + Vertices(polygons) == eh.Keys
  }

  /** The polygons found are pairwise disjoint outlines. */
  ghost predicate Found(eh: map<Point, Point>, ev: map<Point, Point>, polygons: seq<seq<Point>>) {
    && (forall i :: 0 <= i < |polygons| ==> Outline(polygons[i], eh, ev))
    && (forall i, j :: 0 <= i < j < |polygons| ==> Elements(polygons[i]) !! Elements(polygons[j]))
  }

  lemma SubmapTrans(m1: map<Point, Point>, m2: map<Point, Point>, m3: map<Point, Point>)
    requires Submap(m1, m2) && Submap(m2, m3)
    ensures Submap(m1, m3)
  {
  }

  /** The points of an outline are keys of the horizontal edges. */
  lemma OutlineKeys(polygon: seq<Point>, h: map<Point, Point>, v: map<Point, Point>)
    requires Outline(polygon, h, v)
    ensures Elements(polygon) <= h.Keys && polygon[0] in Elements(polygon)
  {
    forall q | q in Elements(polygon) ensures q in h {
      var i :| 0 <= i < |polygon| && polygon[i] == q;
    }
  }

  /** Moving the points of a polygon from the keys left to the vertices found
      keeps the two a partition of all the points. */
  lemma VerticesStep(polygons: seq<seq<Point>>, polygon: seq<Point>, keys: set<Point>, keys1: set<Point>, all: set<Point>)
    requires keys !! Vertices(polygons) && keys + Vertices(polygons) == all
    requires Elements(polygon) <= keys && keys1 == keys - Elements(polygon)
    ensures keys1 !! Vertices(polygons + [polygon]) && keys1 + Vertices(polygons + [polygon]) == all
  {
    VerticesAppend(polygons, polygon);
  }

  /** Appending an outline disjoint from the earlier ones keeps all of them
      outlines, pairwise disjoint. */
  lemma PolygonsStep(eh: map<Point, Point>, ev: map<Point, Point>, polygons: seq<seq<Point>>, polygon: seq<Point>)
    requires forall i :: 0 <= i < |polygons| ==> Outline(polygons[i], eh, ev)
    requires forall i, j :: 0 <= i < j < |polygons| ==> Elements(polygons[i]) !! Elements(polygons[j])
    requires Outline(polygon, eh, ev) && Elements(polygon) !! Vertices(polygons)
    ensures forall i :: 0 <= i < |polygons| + 1 ==> Outline((polygons + [polygon])[i], eh, ev)
    ensures forall i, j :: 0 <= i < j < |polygons| + 1 ==>
      Elements((polygons + [polygon])[i]) !! Elements((polygons + [polygon])[j])
  {
    var ps := polygons + [polygon];
    forall i, j | 0 <= i < j < |ps| ensures Elements(ps[i]) !! Elements(ps[j]) {
      if j == |polygons| {
        VerticesMember(polygons, i);
      } else {
        assert ps[i] == polygons[i] && ps[j] == polygons[j];
      }
    }
    forall i | 0 <= i < |ps| ensures Outline(ps[i], eh, ev) {
      if i < |polygons| {
        assert ps[i] == polygons[i];
      }
    }
  }

  /** Before any polygon is traced, the edge maps are whole. */
  lemma SplitStart(eh: map<Point, Point>, ev: map<Point, Point>)
    requires eh.Keys == ev.Keys && LineMatching(eh, false) && LineMatching(ev, true)
    ensures Splitting(eh, ev, [], eh, ev)
  {
    MapsLeftStart(eh, ev);
    FoundStart(eh, ev);
    assert Vertices([]) == {};
  }

  lemma MapsLeftStart(eh: map<Point, Point>, ev: map<Point, Point>)
    requires eh.Keys == ev.Keys && LineMatching(eh, false) && LineMatching(ev, true)
    ensures MapsLeft(eh, ev, eh, ev)
  {
  }

  lemma FoundStart(eh: map<Point, Point>, ev: map<Point, Point>)
    ensures Found(eh, ev, [])
  {
  }

  /** Removing the points of an outline from both matchings leaves matchings
      on equal keys. */
  lemma SplitMatchings(h: map<Point, Point>, v: map<Point, Point>, polygon: seq<Point>,
                       h1: map<Point, Point>, v1: map<Point, Point>)
    requires h.Keys == v.Keys && LineMatching(h, false) && LineMatching(v, true)
    requires Outline(polygon, h, v)
    requires Submap(h1, h) && h1.Keys == h.Keys - Elements(polygon)
    requires Submap(v1, v) && v1.Keys == v.Keys - Elements(polygon)
    ensures h1.Keys == v1.Keys && LineMatching(h1, false) && LineMatching(v1, true)
  {
    OutlineClosed(polygon, h, v);
    MatchingMinus(h, h1, Elements(polygon), false);
    MatchingMinus(v, v1, Elements(polygon), true);
  }

  /** Removing the points of an outline moves them from the keys left to the
      vertices found, and strictly shrinks the keys left. */
  lemma SplitKeys(eh: map<Point, Point>, polygons: seq<seq<Point>>, h: map<Point, Point>, v: map<Point, Point>,
                  polygon: seq<Point>, h1: map<Point, Point>)
    requires h.Keys !! Vertices(polygons) && h.Keys + Vertices(polygons) == eh.Keys
    requires Outline(polygon, h, v)
    requires h1.Keys == h.Keys - Elements(polygon)
    ensures h1.Keys !! Vertices(polygons + [polygon]) && h1.Keys + Vertices(polygons + [polygon]) == eh.Keys
    ensures Elements(polygon) !! Vertices(polygons)
    ensures |h1.Keys| < |h.Keys|
  {
    OutlineKeys(polygon, h, v);
    VerticesStep(polygons, polygon, h.Keys, h1.Keys, eh.Keys);
    assert h1.Keys < h.Keys;
  }

  /** Records the polygon traced from h and v and removes its vertices. */
  lemma SplitStep(eh: map<Point, Point>, ev: map<Point, Point>, polygons: seq<seq<Point>>,
                  h: map<Point, Point>, v: map<Point, Point>, polygon: seq<Point>,
                  h1: map<Point, Point>, v1: map<Point, Point>)
    requires Splitting(eh, ev, polygons, h, v)
    requires Outline(polygon, h, v)
    requires Submap(h1, h) && h1.Keys == h.Keys - Elements(polygon)
    requires Submap(v1, v) && v1.Keys == v.Keys - Elements(polygon)
    ensures Splitting(eh, ev, polygons + [polygon], h1, v1)
    ensures |h1.Keys| < |h.Keys|
  {
    SplitMaps(eh, ev, h, v, polygon, h1, v1);
    SplitPolygons(eh, ev, polygons, h, v, polygon, h1);
  }

  /** The maps left after removing an outline's points are matchings on
      equal keys, inside the original maps. */
  lemma SplitMaps(eh: map<Point, Point>, ev: map<Point, Point>, h: map<Point, Point>, v: map<Point, Point>,
                  polygon: seq<Point>, h1: map<Point, Point>, v1: map<Point, Point>)
    requires MapsLeft(eh, ev, h, v) && Outline(polygon, h, v)
    requires Submap(h1, h) && h1.Keys == h.Keys - Elements(polygon)
    requires Submap(v1, v) && v1.Keys == v.Keys - Elements(polygon)
    ensures MapsLeft(eh, ev, h1, v1)
  {
    SplitMatchings(h, v, polygon, h1, v1);
    SubmapTrans(h1, h, eh);
    SubmapTrans(v1, v, ev);
  }

  /** The outline joins the polygons found, and its points leave the keys. */
  lemma SplitPolygons(eh: map<Point, Point>, ev: map<Point, Point>, polygons: seq<seq<Point>>,
                      h: map<Point, Point>, v: map<Point, Point>, polygon: seq<Point>, h1: map<Point, Point>)
    requires Submap(h, eh) && Submap(v, ev)
    requires Partition(eh, polygons, h) && Found(eh, ev, polygons)
    requires Outline(polygon, h, v)
    requires h1.Keys == h.Keys - Elements(polygon)
    ensures Partition(eh, polygons + [polygon], h1) && Found(eh, ev, polygons + [polygon])
    ensures |h1.Keys| < |h.Keys|
  {
    SplitKeys(eh, polygons, h, v, polygon, h1);
    OutlineSubmap(polygon, h, v, eh, ev);
    PolygonsStep(eh, ev, polygons, polygon);
  }

  /** One round of the polygon loop: traces an outline from the edge maps
      left and deletes its vertices from both. */
  method PeelOutline(ghost eh: map<Point, Point>, ghost ev: map<Point, Point>, ghost polygons: seq<seq<Point>>,
                     h: map<Point, Point>, v: map<Point, Point>)
    returns (polygon: seq<Point>, h2: map<Point, Point>, v2: map<Point, Point>)
    requires h != map[] && Splitting(eh, ev, polygons, h, v)
    ensures Outline(polygon, h, v)
    ensures Splitting(eh, ev, polygons + [polygon], h2, v2)
    ensures |h2.Keys| < |h.Keys|
  {
    var h1, v1;
    polygon, h1, v1 := TraceOutline(h, v);
    h2 := RemoveVertices(h1, polygon);
    v2 := RemoveVertices(v1, polygon);
    CleanupKeys(h, h1, h2, Elements(polygon));
    CleanupKeys(v, v1, v2, Elements(polygon));
    SplitStep(eh, ev, polygons, h, v, polygon, h2, v2);
  }

  /** Traces all the polygons (the polygon loop): while horizontal edges are
      left, traces an outline from any of them and deletes its vertices from
      both edge maps. */
  method TraceOutlines(eh: map<Point, Point>, ev: map<Point, Point>) returns (polygons: seq<seq<Point>>)
    requires eh.Keys == ev.Keys
    requires LineMatching(eh, false) && LineMatching(ev, true)
    ensures Vertices(polygons) == eh.Keys
    ensures forall i :: 0 <= i < |polygons| ==> Outline(polygons[i], eh, ev)
    ensures forall i, j :: 0 <= i < j < |polygons| ==> Elements(polygons[i]) !! Elements(polygons[j])
  {
    var h, v := eh, ev;
    polygons := [];
    SplitStart(eh, ev);
    while h != map[]
      invariant Splitting(eh, ev, polygons, h, v)
      decreases |h.Keys|
    {
      var polygon, h2, v2 := PeelOutline(eh, ev, polygons, h, v);
      polygons := polygons + [polygon];
      h, v := h2, v2;
    }
    SplitDone(eh, ev, polygons, h, v);
  }

  /** When no edges are left, the polygons found cover all the points. */
  lemma SplitDone(eh: map<Point, Point>, ev: map<Point, Point>, polygons: seq<seq<Point>>,
                  h: map<Point, Point>, v: map<Point, Point>)
    requires Splitting(eh, ev, polygons, h, v) && h == map[]
    ensures Vertices(polygons) == eh.Keys
    ensures forall i :: 0 <= i < |polygons| ==> Outline(polygons[i], eh, ev)
    ensures forall i, j :: 0 <= i < j < |polygons| ==> Elements(polygons[i]) !! Elements(polygons[j])
  {
    assert h.Keys == {};
  }

  /** q lies strictly inside the axis-parallel segment from a to b. */
  predicate Inside(q: Point, a: Point, b: Point) {
    || (q.x == a.x == b.x && (a.y < q.y < b.y || b.y < q.y < a.y))
    || (q.y == a.y == b.y && (a.x < q.x < b.x || b.x < q.x < a.x))
  }

  /** The point after position i round the polygon. */
  function Succ(polygon: seq<Point>, i: int): Point
    requires 0 <= i < |polygon|
  {
    if i + 1 < |polygon| then polygon[i + 1] else polygon[0]
  }

  /** Side i of the polygon, from its point i to the next one round the
      polygon, is vertical for even i and horizontal for odd i. */
  predicate Side(polygon: seq<Point>, i: int)
    requires 0 <= i < |polygon|
  {
    var p, q := polygon[i], Succ(polygon, i);
    if i % 2 == 0 then p.x == q.x && p.y != q.y else p.y == q.y && p.x != q.x
  }

  /** A closed rectilinear polygon: an even number, at least four, of
      distinct corners whose sides alternate vertical and horizontal. */
  ghost predicate Rectilinear(polygon: seq<Point>) {
    && |polygon| >= 4 && |polygon| % 2 == 0 && Distinct(polygon)
    && forall i :: 0 <= i < |polygon| ==> Side(polygon, i)
  }

  /** No point of points lies strictly inside a side of the polygon. */
  ghost predicate Tight(polygon: seq<Point>, points: set<Point>) {
    forall i, q :: 0 <= i < |polygon| && q in points ==> !Inside(q, polygon[i], Succ(polygon, i))
  }

  /** Each side of an outline is an edge of the matching its parity names,
      and its ends are partners. */
  lemma OutlineSide(polygon: seq<Point>, eh: map<Point, Point>, ev: map<Point, Point>, i: int)
    requires LineMatching(eh, false) && LineMatching(ev, true)
    requires Outline(polygon, eh, ev) && 0 <= i < |polygon|
    ensures i % 2 == 0 ==> polygon[i] in ev && ev[polygon[i]] == Succ(polygon, i) && ev[Succ(polygon, i)] == polygon[i]
    ensures i % 2 == 1 ==> polygon[i] in eh && eh[polygon[i]] == Succ(polygon, i) && eh[Succ(polygon, i)] == polygon[i]
  {
    if i < |polygon| - 1 {
      assert Leaves(polygon, i, eh, ev);
    }
  }

  /** An outline along two line matchings is a rectilinear polygon. */
  lemma OutlineRectilinear(polygon: seq<Point>, eh: map<Point, Point>, ev: map<Point, Point>)
    requires LineMatching(eh, false) && LineMatching(ev, true)
    requires Outline(polygon, eh, ev)
    ensures Rectilinear(polygon)
  {
    forall i | 0 <= i < |polygon| ensures Side(polygon, i) {
      OutlineSide(polygon, eh, ev, i);
    }
  }

  /** An outline along matchings whose pairs are neighbours on their lines
      has no point strictly inside any side. */
  lemma OutlineTight(polygon: seq<Point>, eh: map<Point, Point>, ev: map<Point, Point>, points: set<Point>)
    requires LineMatching(eh, false) && LineMatching(ev, true)
    requires Gapless(eh, points, false) && Gapless(ev, points, true)
    requires Outline(polygon, eh, ev)
    ensures Tight(polygon, points)
  {
    forall i | 0 <= i < |polygon| ensures forall q :: q in points ==> !Inside(q, polygon[i], Succ(polygon, i)) {
      OutlineSide(polygon, eh, ev, i);
      if i % 2 == 0 {
        EdgeTight(ev, points, true, polygon[i]);
      } else {
        EdgeTight(eh, points, false, polygon[i]);
      }
    }
  }

  /** No point lies strictly inside the segment from a key of a gapless
      matching to its partner. */
  lemma EdgeTight(m: map<Point, Point>, points: set<Point>, byX: bool, a: Point)
    requires a in m && m[a] in m && m[m[a]] == a
    requires Primary(m[a], byX) == Primary(a, byX)
    requires Gapless(m, points, byX)
    ensures forall q :: q in points ==> !Inside(q, a, m[a])
  {
    forall q | q in points ensures !Inside(q, a, m[a]) {
      if Primary(q, byX) == Primary(a, byX) {
        assert !(Secondary(a, byX) < Secondary(q, byX) < Secondary(m[a], byX));
        assert !(Secondary(m[a], byX) < Secondary(q, byX) < Secondary(m[m[a]], byX));
      }
    }
  }

  /** The pairing of the toggled points, sorted along one direction, is a
      matching along that direction's lines whose keys are the toggled
      points and whose pairs are neighbours. */
  lemma EdgeMap(cells: seq<Cell>, s: seq<Point>, edges: map<Point, Point>, byX: bool)
    requires Sorted(s, byX) && Elements(s) == Toggled(Corners(cells))
    requires forall p :: p in edges <==> p in s
    requires forall j :: 0 <= j < |s| && j % 2 == 1 ==> edges[s[j - 1]] == s[j] && edges[s[j]] == s[j - 1]
    ensures edges.Keys == Toggled(Corners(cells))
    ensures LineMatching(edges, byX) && Gapless(edges, Toggled(Corners(cells)), byX)
  {
    SortedPaired(cells, s, byX);
    PairingMatches(s, edges, byX);
  }

  /** Outlines along two gapless line matchings are rectilinear polygons
      with no point inside a side. */
  lemma OutlinesShape(polygons: seq<seq<Point>>, eh: map<Point, Point>, ev: map<Point, Point>, points: set<Point>)
    requires LineMatching(eh, false) && LineMatching(ev, true)
    requires Gapless(eh, points, false) && Gapless(ev, points, true)
    requires forall i :: 0 <= i < |polygons| ==> Outline(polygons[i], eh, ev)
    ensures forall i :: 0 <= i < |polygons| ==> Rectilinear(polygons[i]) && Tight(polygons[i], points)
  {
    forall i | 0 <= i < |polygons| ensures Rectilinear(polygons[i]) && Tight(polygons[i], points) {
      OutlineRectilinear(polygons[i], eh, ev);
      OutlineTight(polygons[i], eh, ev, points);
    }
  }

  /** The outlines of the regions the cells cover (find_spreadsheets_from_cells
      up to the polygons): toggles the corners, sorts the points left by
      column and by row, pairs them into vertical and horizontal edges and
      traces the polygons. Every toggled point is a corner of exactly one
      polygon; every polygon is rectilinear and its sides join neighbouring
      toggled points. */
  method FindOutlines(cells: seq<Cell>) returns (polygons: seq<seq<Point>>)
    ensures Vertices(polygons) == Toggled(Corners(cells))
    ensures forall i :: 0 <= i < |polygons| ==> Rectilinear(polygons[i]) && Tight(polygons[i], Toggled(Corners(cells)))
    ensures forall i, j :: 0 <= i < j < |polygons| ==> Elements(polygons[i]) !! Elements(polygons[j])
  {
    var points := ToggleCorners(cells);
    var byColumn := SortPoints(points, true);
    var byRow := SortPoints(points, false);
    SortedPaired(cells, byRow, false);
    SortedPaired(cells, byColumn, true);
    var eh := PairUp(byRow, false);
    var ev := PairUp(byColumn, true);
    EdgeMap(cells, byRow, eh, false);
    EdgeMap(cells, byColumn, ev, true);
    polygons := TraceOutlines(eh, ev);
    OutlinesShape(polygons, eh, ev, points);
  }
}
