/** The spanning resolver: a cell that strictly straddles a ruling location is
    flagged spanning, and zero-width, zero-height and zero-size ("double")
    placeholder cells are appended for the locations it straddles.

    The source walks the cell list with an iterator that re-reads the length on
    every step, so the placeholders it appends are visited too. SpanningPass
    models that walk; its termination measure SumCost drops by exactly one per
    visited cell, which also gives the final length. OncePass is the walk over
    the original cells only. */
module Spanning {
  import opened Geometry

  /** The de-duplicated vertical (x) and horizontal (y) ruling locations. */
  datatype Locations = Locations(vertical: seq<int>, horizontal: seq<int>)

  /** The index of the first occurrence of v in s. */
  function IndexOf(s: seq<int>, v: int): (k: nat)
    requires v in s
    ensures k < |s| && s[k] == v && v !in s[..k]
  {
    if s[0] == v then 0
    else
      var k := 1 + IndexOf(s[1..], v);
      assert s[..k] == [s[0]] + s[1..][..k - 1];
      k
  }

  /** A position holding v with no v before it is the first occurrence. */
  lemma IndexOfUnique(s: seq<int>, v: int, k: nat)
    requires k < |s| && s[k] == v && v !in s[..k]
    ensures IndexOf(s, v) == k
  {
  }

  /** Keeps the first occurrence of every value, in order: the values of s,
      each once, ordered by where they first occur in s. */
  function Uniq(s: seq<int>): (r: seq<int>)
    ensures forall v :: v in r <==> v in s
    ensures Distinct(r)
    ensures forall i, j :: 0 <= i < j < |r| ==> IndexOf(s, r[i]) < IndexOf(s, r[j])
  {
    if s == [] then []
    else
      var init, last := s[..|s| - 1], s[|s| - 1];
      var r := Uniq(init);
      assert s == init + [last];
      UniqStep(init, last, r);
      if last in r then r else r + [last]
  }

  /** One step of Uniq: the de-duplication of init, extended by x. */
  lemma UniqStep(init: seq<int>, x: int, r: seq<int>)
    requires forall v :: v in r <==> v in init
    requires forall i, j :: 0 <= i < j < |r| ==> IndexOf(init, r[i]) < IndexOf(init, r[j])
    ensures forall v :: v in init + [x] <==> v in init || v == x
    ensures var r' := if x in r then r else r + [x];
      forall i, j :: 0 <= i < j < |r'| ==> IndexOf(init + [x], r'[i]) < IndexOf(init + [x], r'[j])
  {
    var s := init + [x];
    forall v | v in init ensures IndexOf(s, v) == IndexOf(init, v) {
      var k := IndexOf(init, v);
      assert s[..k] == init[..k];
      IndexOfUnique(s, v, k);
    }
    if x !in r {
      assert s[..|init|] == init;
      IndexOfUnique(s, x, |init|);
    }
  }

  function Lefts(rulings: seq<Ruling>): seq<int> {
    seq(|rulings|, k requires 0 <= k < |rulings| => rulings[k].left)
  }

  function Tops(rulings: seq<Ruling>): seq<int> {
    seq(|rulings|, k requires 0 <= k < |rulings| => rulings[k].top)
  }

  /** The locations the resolver compares against: every vertical ruling's x
      and every horizontal ruling's y, each once, in the order of the first
      ruling at that location. */
  function RulingLocations(horizontal: seq<Ruling>, vertical: seq<Ruling>): (locs: Locations)
    ensures Distinct(locs.vertical) && Distinct(locs.horizontal)
    ensures forall v :: v in locs.vertical <==> v in Lefts(vertical)
    ensures forall h :: h in locs.horizontal <==> h in Tops(horizontal)
    ensures forall i, j :: 0 <= i < j < |locs.vertical| ==>
      IndexOf(Lefts(vertical), locs.vertical[i]) < IndexOf(Lefts(vertical), locs.vertical[j])
    ensures forall i, j :: 0 <= i < j < |locs.horizontal| ==>
      IndexOf(Tops(horizontal), locs.horizontal[i]) < IndexOf(Tops(horizontal), locs.horizontal[j])
    ensures forall v :: v in locs.vertical <==> exists k :: 0 <= k < |vertical| && vertical[k].left == v
    ensures forall h :: h in locs.horizontal <==> exists k :: 0 <= k < |horizontal| && horizontal[k].top == h
  {
    var locs := Locations(Uniq(Lefts(vertical)), Uniq(Tops(horizontal)));
    forall v ensures v in Lefts(vertical) <==> exists k :: 0 <= k < |vertical| && vertical[k].left == v {
      if v in Lefts(vertical) {
        var k :| 0 <= k < |vertical| && Lefts(vertical)[k] == v;
      }
      if exists k :: 0 <= k < |vertical| && vertical[k].left == v {
        var k :| 0 <= k < |vertical| && vertical[k].left == v;
        assert Lefts(vertical)[k] == v;
      }
    }
    forall h ensures h in Tops(horizontal) <==> exists k :: 0 <= k < |horizontal| && horizontal[k].top == h {
      if h in Tops(horizontal) {
        var k :| 0 <= k < |horizontal| && Tops(horizontal)[k] == h;
      }
      if exists k :: 0 <= k < |horizontal| && horizontal[k].top == h {
        var k :| 0 <= k < |horizontal| && horizontal[k].top == h;
        assert Tops(horizontal)[k] == h;
      }
    }
    locs
  }

  /** The locations strictly between lo and hi, in their order in locs. */
  function Between(locs: seq<int>, lo: int, hi: int): (r: seq<int>)
    ensures forall v :: v in r <==> v in locs && lo < v < hi
    ensures Distinct(locs) ==> Distinct(r)
    ensures Distinct(locs) ==> forall i, j :: 0 <= i < j < |r| ==> IndexOf(locs, r[i]) < IndexOf(locs, r[j])
    ensures hi <= lo ==> r == []
  {
    if locs == [] then []
    else
      var rest := Between(locs[1..], lo, hi);
      assert Distinct(locs) ==> locs[0] !in locs[1..];
      assert forall v :: v in rest && v != locs[0] ==> IndexOf(locs, v) == 1 + IndexOf(locs[1..], v);
      if lo < locs[0] < hi then [locs[0]] + rest else rest
  }

  /** Selecting from a concatenation selects from each part, keeping the
      parts in order. */
  lemma {:induction false} BetweenAppend(a: seq<int>, b: seq<int>, lo: int, hi: int)
    ensures Between(a + b, lo, hi) == Between(a, lo, hi) + Between(b, lo, hi)
  {
    if a != [] {
      assert (a + b)[0] == a[0] && (a + b)[1..] == a[1..] + b;
      BetweenAppend(a[1..], b, lo, hi);
    } else {
      assert a + b == b;
    }
  }

  /** The vertical locations a cell spans over, and the horizontal ones. */
  function VSpanned(c: Cell, locs: Locations): seq<int> { Between(locs.vertical, c.left, c.Right()) }
  function HSpanned(c: Cell, locs: Locations): seq<int> { Between(locs.horizontal, c.top, c.Bottom()) }

  predicate Spans(c: Cell, locs: Locations) {
    VSpanned(c, locs) != [] || HSpanned(c, locs) != []
  }

  /** The zero-width placeholders of c, one per spanned vertical location. */
  function ZeroWidths(c: Cell, vs: seq<int>): (r: seq<Cell>)
    ensures |r| == |vs|
    ensures forall k :: 0 <= k < |vs| ==> r[k] == Cell(c.top, vs[k], 0, c.height, false, true)
  {
    if vs == [] then [] else ZeroWidths(c, vs[..|vs| - 1]) + [Cell(c.top, vs[|vs| - 1], 0, c.height, false, true)]
  }

  /** The zero-height placeholders of c, one per spanned horizontal location. */
  function ZeroHeights(c: Cell, hs: seq<int>): (r: seq<Cell>)
    ensures |r| == |hs|
    ensures forall k :: 0 <= k < |hs| ==> r[k] == Cell(hs[k], c.left, c.width, 0, false, true)
  {
    if hs == [] then [] else ZeroHeights(c, hs[..|hs| - 1]) + [Cell(hs[|hs| - 1], c.left, c.width, 0, false, true)]
  }

  /** The double (zero-size) placeholder at (h, v). */
  function DoublePlaceholder(h: int, v: int): Cell {
    Cell(h, v, 0, 0, false, true)
  }

  /** The double placeholders of one vertical location v, one per horizontal location. */
  function DoubleRow(v: int, hs: seq<int>): (r: seq<Cell>)
    ensures |r| == |hs|
    ensures forall k :: 0 <= k < |hs| ==> r[k] == DoublePlaceholder(hs[k], v)
  {
    if hs == [] then [] else DoubleRow(v, hs[..|hs| - 1]) + [DoublePlaceholder(hs[|hs| - 1], v)]
  }

  /** The double placeholders for the product vs x hs, vertical location major. */
  function Doubles(vs: seq<int>, hs: seq<int>): seq<Cell> {
    if vs == [] then [] else Doubles(vs[..|vs| - 1], hs) + DoubleRow(vs[|vs| - 1], hs)
  }

  /** Every double placeholder is an unflagged zero-size placeholder at a
      location of vs and a location of hs. */
  lemma {:induction false} DoublesMembers(vs: seq<int>, hs: seq<int>)
    ensures forall x :: x in Doubles(vs, hs) ==>
      x.width == 0 && x.height == 0 && x.placeholder && !x.spanning && x.left in vs && x.top in hs
  {
    if vs != [] {
      var init, last := vs[..|vs| - 1], vs[|vs| - 1];
      DoublesMembers(init, hs);
      assert forall v :: v in init ==> v in vs;
    }
  }

  /** The product of a concatenation is the concatenation of the products:
      the placeholders come vertical location major, in the order of vs. */
  lemma {:induction false} DoublesAppend(vs: seq<int>, ws: seq<int>, hs: seq<int>)
    ensures Doubles(vs + ws, hs) == Doubles(vs, hs) + Doubles(ws, hs)
  {
    if ws == [] {
      assert vs + ws == vs;
    } else {
      var init, last := ws[..|ws| - 1], ws[|ws| - 1];
      var all := vs + ws;
      assert all[..|all| - 1] == vs + init && all[|all| - 1] == last;
      calc {
        Doubles(all, hs);
        Doubles(vs + init, hs) + DoubleRow(last, hs);
        { DoublesAppend(vs, init, hs); }
        (Doubles(vs, hs) + Doubles(init, hs)) + DoubleRow(last, hs);
        { AppendAssoc(Doubles(vs, hs), Doubles(init, hs), DoubleRow(last, hs)); }
        Doubles(vs, hs) + (Doubles(init, hs) + DoubleRow(last, hs));
        Doubles(vs, hs) + Doubles(ws, hs);
      }
    }
  }

  /** The product holds |vs| * |hs| placeholders, and the row of vs[a] sits
      between the rows of the locations before it and those after it. */
  lemma DoublesLayout(vs: seq<int>, hs: seq<int>)
    ensures |Doubles(vs, hs)| == |vs| * |hs|
    ensures forall a :: 0 <= a < |vs| ==>
      Doubles(vs, hs) == Doubles(vs[..a], hs) + DoubleRow(vs[a], hs) + Doubles(vs[a + 1..], hs)
  {
    DoublesLength(vs, hs);
    forall a | 0 <= a < |vs|
      ensures Doubles(vs, hs) == Doubles(vs[..a], hs) + DoubleRow(vs[a], hs) + Doubles(vs[a + 1..], hs)
    {
      DoublesRowAt(vs, hs, a);
    }
  }

  /** The pair (vs[a], hs[b]) sits at position a * |hs| + b of the product. */
  lemma DoublesAt(vs: seq<int>, hs: seq<int>, a: nat, b: nat)
    requires a < |vs| && b < |hs|
    ensures a * |hs| + b < |Doubles(vs, hs)|
    ensures Doubles(vs, hs)[a * |hs| + b] == DoublePlaceholder(hs[b], vs[a])
  {
    DoublesRowAt(vs, hs, a);
    DoublesLength(vs[..a], hs);
    DoublesLength(vs, hs);
    MulSucc(a, |hs|);
    MulMono(a + 1, |vs|, |hs|);
    assert Doubles(vs, hs)[a * |hs| + b] == DoubleRow(vs[a], hs)[b];
  }

  lemma MulMono(a: nat, m: nat, n: nat)
    requires a <= m
    ensures a * n <= m * n
  {
  }

  lemma {:induction false} DoublesLength(vs: seq<int>, hs: seq<int>)
    ensures |Doubles(vs, hs)| == |vs| * |hs|
  {
    if vs != [] {
      DoublesLength(vs[..|vs| - 1], hs);
      MulSucc(|vs| - 1, |hs|);
    }
  }

  lemma DoublesRowAt(vs: seq<int>, hs: seq<int>, a: nat)
    requires a < |vs|
    ensures Doubles(vs, hs) == Doubles(vs[..a], hs) + DoubleRow(vs[a], hs) + Doubles(vs[a + 1..], hs)
  {
    var front, x, back := vs[..a], vs[a], vs[a + 1..];
    assert vs == front + [x] + back;
    assert Doubles([x], hs) == DoubleRow(x, hs) by {
      assert [x][..0] == [];
    }
    DoublesAppend(front + [x], back, hs);
    DoublesAppend(front, [x], hs);
  }

  /** Everything appended when c is visited: a cell straddling a vertical
      and b horizontal locations gets a + b + ab placeholders, none of them
      flagged. */
  function Expand(c: Cell, locs: Locations): (r: seq<Cell>)
    ensures var a, b := |VSpanned(c, locs)|, |HSpanned(c, locs)|; |r| == a + b + a * b
    ensures forall x :: x in r ==> x.placeholder && !x.spanning
  {
    var vs, hs := VSpanned(c, locs), HSpanned(c, locs);
    DoublesLayout(vs, hs);
    DoublesMembers(vs, hs);
    ZeroWidths(c, vs) + ZeroHeights(c, hs) + Doubles(vs, hs)
  }

  /** c with its spanning flag set when it spans some location. */
  function Flag(c: Cell, locs: Locations): (r: Cell)
    ensures r.SameGeometry(c) && r.placeholder == c.placeholder
    ensures r.spanning == (c.spanning || Spans(c, locs))
  {
    if Spans(c, locs) then c.(spanning := true) else c
  }

  /** The list after visiting position i: that cell flagged, its placeholders
      appended, every other cell as it was. */
  function Visit(cs: seq<Cell>, i: nat, locs: Locations): (r: seq<Cell>)
    requires i < |cs|
    ensures |r| == |cs| + |Expand(cs[i], locs)|
    ensures r[i] == Flag(cs[i], locs)
    ensures forall k :: 0 <= k < |cs| && k != i ==> r[k] == cs[k]
    ensures forall k :: |cs| <= k < |r| ==> r[k] == Expand(cs[i], locs)[k - |cs|]
  {
    cs[i := Flag(cs[i], locs)] + Expand(cs[i], locs)
  }

  /** The number of cells a visit of c eventually contributes, c included:
      a = |VSpanned|, b = |HSpanned| give 1 + a + b + 3ab. */
  function Cost(c: Cell, locs: Locations): nat {
    var a, b := |VSpanned(c, locs)|, |HSpanned(c, locs)|;
    1 + a + b + 3 * (a * b)
  }

  function SumCost(cs: seq<Cell>, locs: Locations): nat {
    if cs == [] then 0 else Cost(cs[0], locs) + SumCost(cs[1..], locs)
  }

  lemma {:induction false} SumCostAppend(s: seq<Cell>, t: seq<Cell>, locs: Locations)
    ensures SumCost(s + t, locs) == SumCost(s, locs) + SumCost(t, locs)
  {
    if s == [] {
      assert s + t == t;
    } else {
      assert (s + t)[0] == s[0] && (s + t)[1..] == s[1..] + t;
      SumCostAppend(s[1..], t, locs);
    }
  }

  lemma {:induction false} SumCostLast(s: seq<Cell>, locs: Locations)
    requires s != []
    ensures SumCost(s, locs) == SumCost(s[..|s| - 1], locs) + Cost(s[|s| - 1], locs)
  {
    assert s == s[..|s| - 1] + [s[|s| - 1]];
    SumCostAppend(s[..|s| - 1], [s[|s| - 1]], locs);
  }

  lemma AppendAssoc(a: seq<Cell>, b: seq<Cell>, c: seq<Cell>)
    ensures (a + b) + c == a + (b + c)
  {
  }

  lemma MulSucc(m: nat, k: nat)
    ensures (m + 1) * k == m * k + k
  {
  }

  /** Cells of equal cost k cost |s| * k together. */
  lemma {:induction false} SumCostUniform(s: seq<Cell>, k: nat, locs: Locations)
    requires forall x :: x in s ==> Cost(x, locs) == k
    ensures SumCost(s, locs) == |s| * k
  {
    if s != [] {
      var m := |s| - 1;
      assert s[0] in s;
      assert forall x :: x in s[1..] ==> x in s;
      SumCostUniform(s[1..], k, locs);
      assert SumCost(s, locs) == k + m * k;
      MulSucc(m, k);
    }
  }

  lemma MulDistrib(n: nat, b: nat)
    ensures n * (1 + b) == n + n * b
  {
  }

  /** A zero-width placeholder spans no vertical location and the same
      horizontal ones as its cell. */
  lemma ZeroWidthCost(c: Cell, v: int, locs: Locations)
    ensures Cost(Cell(c.top, v, 0, c.height, false, true), locs) == 1 + |HSpanned(c, locs)|
  {
    var w := Cell(c.top, v, 0, c.height, false, true);
    assert VSpanned(w, locs) == [];
    assert HSpanned(w, locs) == HSpanned(c, locs);
  }

  lemma ZeroWidthsCost(c: Cell, vs: seq<int>, locs: Locations)
    ensures SumCost(ZeroWidths(c, vs), locs) == |vs| + |vs| * |HSpanned(c, locs)|
  {
    var b := |HSpanned(c, locs)|;
    forall x | x in ZeroWidths(c, vs) ensures Cost(x, locs) == 1 + b {
      var k :| 0 <= k < |vs| && ZeroWidths(c, vs)[k] == x;
      ZeroWidthCost(c, vs[k], locs);
    }
    SumCostUniform(ZeroWidths(c, vs), 1 + b, locs);
    MulDistrib(|vs|, b);
  }

  /** A zero-height placeholder spans no horizontal location and the same
      vertical ones as its cell. */
  lemma ZeroHeightCost(c: Cell, h: int, locs: Locations)
    ensures Cost(Cell(h, c.left, c.width, 0, false, true), locs) == 1 + |VSpanned(c, locs)|
  {
    var z := Cell(h, c.left, c.width, 0, false, true);
    assert HSpanned(z, locs) == [];
    assert VSpanned(z, locs) == VSpanned(c, locs);
  }

  lemma ZeroHeightsCost(c: Cell, hs: seq<int>, locs: Locations)
    ensures SumCost(ZeroHeights(c, hs), locs) == |hs| + |hs| * |VSpanned(c, locs)|
  {
    var a := |VSpanned(c, locs)|;
    forall x | x in ZeroHeights(c, hs) ensures Cost(x, locs) == 1 + a {
      var k :| 0 <= k < |hs| && ZeroHeights(c, hs)[k] == x;
      ZeroHeightCost(c, hs[k], locs);
    }
    SumCostUniform(ZeroHeights(c, hs), 1 + a, locs);
    MulDistrib(|hs|, a);
  }

  lemma {:induction false} DoubleRowCost(v: int, hs: seq<int>, locs: Locations)
    ensures SumCost(DoubleRow(v, hs), locs) == |hs|
  {
    if hs != [] {
      DoubleRowCost(v, hs[..|hs| - 1], locs);
      SumCostLast(DoubleRow(v, hs), locs);
      assert DoubleRow(v, hs)[..|hs| - 1] == DoubleRow(v, hs[..|hs| - 1]);
      var d := DoublePlaceholder(hs[|hs| - 1], v);
      assert VSpanned(d, locs) == [] && HSpanned(d, locs) == [];
    }
  }

  lemma {:induction false} DoublesCost(vs: seq<int>, hs: seq<int>, locs: Locations)
    ensures SumCost(Doubles(vs, hs), locs) == |vs| * |hs|
  {
    if vs != [] {
      var init, last := vs[..|vs| - 1], vs[|vs| - 1];
      DoublesCost(init, hs, locs);
      DoubleRowCost(last, hs, locs);
      SumCostAppend(Doubles(init, hs), DoubleRow(last, hs), locs);
      MulSucc(|init|, |hs|);
    }
  }

  /** Visiting c appends cells whose total cost is one less than c's own. */
  lemma ExpandCost(c: Cell, locs: Locations)
    ensures SumCost(Expand(c, locs), locs) + 1 == Cost(c, locs)
  {
    var vs, hs := VSpanned(c, locs), HSpanned(c, locs);
    ZeroWidthsCost(c, vs, locs);
    ZeroHeightsCost(c, hs, locs);
    DoublesCost(vs, hs, locs);
    SumCostAppend(ZeroWidths(c, vs), ZeroHeights(c, hs), locs);
    SumCostAppend(ZeroWidths(c, vs) + ZeroHeights(c, hs), Doubles(vs, hs), locs);
    assert |hs| * |vs| == |vs| * |hs|;
  }

  /** One visit lowers the cost of the unvisited suffix by exactly one. */
  lemma VisitCost(cs: seq<Cell>, i: nat, locs: Locations)
    requires i < |cs|
    ensures SumCost(Visit(cs, i, locs)[i + 1..], locs) + 1 == SumCost(cs[i..], locs)
  {
    assert Visit(cs, i, locs)[i + 1..] == cs[i + 1..] + Expand(cs[i], locs);
    assert cs[i..][1..] == cs[i + 1..];
    SumCostAppend(cs[i + 1..], Expand(cs[i], locs), locs);
    ExpandCost(cs[i], locs);
  }

  /** add_spanning_cells! as written: visit every position of the growing list,
      from i on, including the placeholders appended on the way. */
  function SpanningPass(cs: seq<Cell>, i: nat, locs: Locations): (r: seq<Cell>)
    requires i <= |cs|
    ensures |r| >= |cs|
    ensures forall k :: 0 <= k < i ==> r[k] == cs[k]
    decreases SumCost(cs[i..], locs)
  {
    if i == |cs| then cs
    else
      VisitCost(cs, i, locs);
      SpanningPass(Visit(cs, i, locs), i + 1, locs)
  }

  /** The walk ends with i + SumCost(cs[i..]) cells: a cell spanning a vertical
      and b horizontal locations brings 1 + a + b + 3ab cells in all. */
  lemma {:induction false} SpanningPassLength(cs: seq<Cell>, i: nat, locs: Locations)
    requires i <= |cs|
    ensures |SpanningPass(cs, i, locs)| == i + SumCost(cs[i..], locs)
    decreases SumCost(cs[i..], locs)
  {
    if i < |cs| {
      VisitCost(cs, i, locs);
      SpanningPassLength(Visit(cs, i, locs), i + 1, locs);
    }
  }

  /** Append-only: the existing cells keep their place, geometry and
      placeholder flag; the unvisited ones get flagged; every appended cell is
      a placeholder, and flagged exactly when it spans a location. */
  lemma {:induction false} SpanningPassShape(cs: seq<Cell>, i: nat, locs: Locations)
    requires i <= |cs|
    ensures var r := SpanningPass(cs, i, locs);
      && |r| >= |cs|
      && (forall k :: 0 <= k < i ==> r[k] == cs[k])
      && (forall k :: i <= k < |cs| ==> r[k] == Flag(cs[k], locs))
    decreases SumCost(cs[i..], locs)
  {
    if i < |cs| {
      var next := Visit(cs, i, locs);
      VisitCost(cs, i, locs);
      SpanningPassShape(next, i + 1, locs);
      var r := SpanningPass(cs, i, locs);
      assert r == SpanningPass(next, i + 1, locs);
      forall k | i <= k < |cs| ensures r[k] == Flag(cs[k], locs) {
        if k == i {
          assert r[k] == next[k];
        } else {
          assert r[k] == Flag(next[k], locs);
        }
      }
    }
  }

  /** Cells beyond the first n are placeholders; those already visited are
      flagged exactly when they span, the others not at all. */
  ghost predicate AppendedFlags(cs: seq<Cell>, n: nat, i: nat, locs: Locations) {
    forall k :: n <= k < |cs| ==> cs[k].placeholder && (cs[k].spanning <==> k < i && Spans(cs[k], locs))
  }

  /** The cells the walk appends are placeholders, flagged spanning exactly
      when they themselves straddle a location. */
  lemma VisitAppended(cs: seq<Cell>, n: nat, i: nat, locs: Locations)
    requires i < |cs| && n <= |cs|
    requires AppendedFlags(cs, n, i, locs)
    ensures AppendedFlags(Visit(cs, i, locs), n, i + 1, locs)
  {
    var next := Visit(cs, i, locs);
    forall k | n <= k < |next| ensures next[k].placeholder && (next[k].spanning <==> k < i + 1 && Spans(next[k], locs)) {
      if k >= |cs| {
        assert next[k] == Expand(cs[i], locs)[k - |cs|];
        assert next[k] in Expand(cs[i], locs);
      } else if k != i {
        assert next[k] == cs[k];
      }
    }
  }

  lemma {:induction false} SpanningPassAppended(cs: seq<Cell>, n: nat, i: nat, locs: Locations)
    requires i <= |cs| && n <= |cs|
    requires AppendedFlags(cs, n, i, locs)
    ensures AppendedFlags(SpanningPass(cs, i, locs), n, |SpanningPass(cs, i, locs)|, locs)
    decreases SumCost(cs[i..], locs)
  {
    if i < |cs| {
      VisitCost(cs, i, locs);
      VisitAppended(cs, n, i, locs);
      SpanningPassAppended(Visit(cs, i, locs), n, i + 1, locs);
    }
  }

  /** The placeholders appended for the cells of cs, in order. */
  function ExpandAll(cs: seq<Cell>, locs: Locations): seq<Cell> {
    if cs == [] then [] else ExpandAll(cs[..|cs| - 1], locs) + Expand(cs[|cs| - 1], locs)
  }

  /** Every cell of cs, flagged. */
  function FlagAll(cs: seq<Cell>, locs: Locations): (r: seq<Cell>)
    ensures |r| == |cs|
    ensures forall k :: 0 <= k < |cs| ==> r[k] == Flag(cs[k], locs)
  {
    seq(|cs|, k requires 0 <= k < |cs| => Flag(cs[k], locs))
  }

  /** The resolver over the original cells only: each flagged, and the
      placeholders of all of them appended after them. */
  function OncePass(cs: seq<Cell>, locs: Locations): (r: seq<Cell>)
    ensures |r| >= |cs|
    ensures forall k :: 0 <= k < |cs| ==> r[k] == Flag(cs[k], locs)
    ensures r[|cs|..] == ExpandAll(cs, locs)
  {
    FlagAll(cs, locs) + ExpandAll(cs, locs)
  }

  /** Every cell OncePass appends is an unflagged placeholder. */
  lemma {:induction false} OncePassAppended(cs: seq<Cell>, locs: Locations)
    ensures forall k :: |cs| <= k < |OncePass(cs, locs)| ==> OncePass(cs, locs)[k].placeholder && !OncePass(cs, locs)[k].spanning
  {
    var f: seq<Cell>, e: seq<Cell> := FlagAll(cs, locs), ExpandAll(cs, locs);
    ExpandAllFresh(cs, locs);
    forall k | |cs| <= k < |f + e| ensures (f + e)[k].placeholder && !(f + e)[k].spanning {
      assert (f + e)[k] == e[k - |f|];
      assert e[k - |f|] in e;
    }
  }

  lemma {:induction false} ExpandAllFresh(cs: seq<Cell>, locs: Locations)
    ensures forall x :: x in ExpandAll(cs, locs) ==> x.placeholder && !x.spanning
  {
    if cs != [] {
      ExpandAllFresh(cs[..|cs| - 1], locs);
    }
  }

  /** The state of the resolver over the original cells after i of them:
      the first i flagged, the rest as they were, their placeholders after. */
  function OnceState(cs: seq<Cell>, i: nat, locs: Locations): seq<Cell>
    requires i <= |cs|
  {
    (FlagAll(cs[..i], locs) + cs[i..]) + ExpandAll(cs[..i], locs)
  }

  /** Before any visit the state is the list itself; after all of them it is OncePass. */
  lemma OnceStateEnds(cs: seq<Cell>, locs: Locations)
    ensures OnceState(cs, 0, locs) == cs
    ensures OnceState(cs, |cs|, locs) == OncePass(cs, locs)
  {
    assert cs[..0] == [] && cs[0..] == cs;
    assert FlagAll([], locs) + cs == cs;
    var f := FlagAll(cs, locs);
    assert cs[..|cs|] == cs && cs[|cs|..] == [];
    assert f + [] == f;
  }

  lemma ExpandAllLast(cs: seq<Cell>, i: nat, locs: Locations)
    requires i < |cs|
    ensures ExpandAll(cs[..i + 1], locs) == ExpandAll(cs[..i], locs) + Expand(cs[i], locs)
  {
    assert cs[..i + 1][..i] == cs[..i];
  }

  lemma FlagPrefix(cs: seq<Cell>, i: nat, locs: Locations)
    requires i < |cs|
    ensures (FlagAll(cs[..i], locs) + cs[i..])[i := Flag(cs[i], locs)] == FlagAll(cs[..i + 1], locs) + cs[i + 1..]
  {
  }

  /** Visiting a position of the front part of a list. */
  lemma VisitFront(a: seq<Cell>, b: seq<Cell>, i: nat, c: Cell, locs: Locations)
    requires i < |a| && a[i] == c
    ensures Visit(a + b, i, locs) == a[i := Flag(c, locs)] + (b + Expand(c, locs))
  {
    assert (a + b)[i] == c;
    assert (a + b)[i := Flag(c, locs)] == a[i := Flag(c, locs)] + b;
  }

  /** Visiting position i of the state after i cells gives the state after i + 1. */
  lemma OnceStep(cs: seq<Cell>, i: nat, locs: Locations)
    requires i < |cs|
    ensures Visit(OnceState(cs, i, locs), i, locs) == OnceState(cs, i + 1, locs)
  {
    var front := FlagAll(cs[..i], locs) + cs[i..];
    VisitFront(front, ExpandAll(cs[..i], locs), i, cs[i], locs);
    FlagPrefix(cs, i, locs);
    ExpandAllLast(cs, i, locs);
  }

  lemma {:induction false} DoubleRowCount(v: int, hs: seq<int>, h: int)
    requires Distinct(hs)
    ensures multiset(DoubleRow(v, hs))[DoublePlaceholder(h, v)] == if h in hs then 1 else 0
  {
    if hs != [] {
      var init := hs[..|hs| - 1];
      DoubleRowCount(v, init, h);
      assert hs == init + [hs[|hs| - 1]];
      assert multiset(DoubleRow(v, hs)) == multiset(DoubleRow(v, init)) + multiset{DoublePlaceholder(hs[|hs| - 1], v)};
    }
  }

  lemma {:induction false} DoublesCount(vs: seq<int>, hs: seq<int>, h: int, v: int)
    requires Distinct(vs) && Distinct(hs)
    ensures multiset(Doubles(vs, hs))[DoublePlaceholder(h, v)] == if v in vs && h in hs then 1 else 0
  {
    if vs != [] {
      var init, last := vs[..|vs| - 1], vs[|vs| - 1];
      var d := DoublePlaceholder(h, v);
      DistinctInitLast(vs);
      InitLast(vs);
      DoublesCount(init, hs, h, v);
      RowCount(last, hs, h, v);
      assert multiset(Doubles(vs, hs))[d] == multiset(Doubles(init, hs))[d] + multiset(DoubleRow(last, hs))[d];
    }
  }

  /** The row of vertical location w holds the double placeholder at (h, v)
      once when w is v and h is a horizontal location, and not otherwise. */
  lemma RowCount(w: int, hs: seq<int>, h: int, v: int)
    requires Distinct(hs)
    ensures multiset(DoubleRow(w, hs))[DoublePlaceholder(h, v)] == if v == w && h in hs then 1 else 0
  {
    if v == w {
      DoubleRowCount(w, hs, h);
    } else {
      assert DoublePlaceholder(h, v) !in DoubleRow(w, hs);
    }
  }

  /** Visiting a cell that spans v and h appends exactly one double
      placeholder at (h, v), provided the locations are de-duplicated. */
  lemma OneDoublePerCrossing(c: Cell, locs: Locations, h: int, v: int)
    requires Distinct(locs.vertical) && Distinct(locs.horizontal)
    requires v in VSpanned(c, locs) && h in HSpanned(c, locs)
    ensures multiset(Expand(c, locs))[DoublePlaceholder(h, v)] == 1
  {
    var vs, hs := VSpanned(c, locs), HSpanned(c, locs);
    DoublesCount(vs, hs, h, v);
    assert DoublePlaceholder(h, v) !in ZeroWidths(c, vs);
    assert DoublePlaceholder(h, v) !in ZeroHeights(c, hs);
  }

  /** The resolver over the original cells, on one cell spanning v and h,
      yields exactly one double placeholder at (h, v). */
  lemma OnceSingleDouble(c: Cell, locs: Locations, h: int, v: int)
    requires Distinct(locs.vertical) && Distinct(locs.horizontal)
    requires v in VSpanned(c, locs) && h in HSpanned(c, locs)
    ensures multiset(OncePass([c], locs))[DoublePlaceholder(h, v)] == 1
  {
    OneDoublePerCrossing(c, locs, h, v);
    OncePassSingle(c, locs);
    assert Flag(c, locs) != DoublePlaceholder(h, v) by {
      assert c.Right() > v && c.left < v;
    }
    assert multiset(OncePass([c], locs)) == multiset{Flag(c, locs)} + multiset(Expand(c, locs));
  }

  lemma OncePassSingle(c: Cell, locs: Locations)
    ensures OncePass([c], locs) == [Flag(c, locs)] + Expand(c, locs)
  {
    assert [c][..0] == [];
    assert ExpandAll([c], locs) == Expand(c, locs);
  }

  /** The locations one 2x2 cell at the origin straddles: the vertical and
      the horizontal location 1. */
  lemma ExampleSpannedCell()
    ensures VSpanned(Cell(0, 0, 2, 2, false, false), Locations([1], [1])) == [1]
    ensures HSpanned(Cell(0, 0, 2, 2, false, false), Locations([1], [1])) == [1]
  {
  }

  /** The placeholders of that cell, and of those placeholders in turn. */
  lemma ExampleExpandCell()
    ensures Expand(Cell(0, 0, 2, 2, false, false), Locations([1], [1]))
         == [Cell(0, 1, 0, 2, false, true), Cell(1, 0, 2, 0, false, true), DoublePlaceholder(1, 1)]
  {
    var c, locs := Cell(0, 0, 2, 2, false, false), Locations([1], [1]);
    ExampleSpannedCell();
    assert ZeroWidths(c, [1]) == [Cell(0, 1, 0, 2, false, true)];
    assert ZeroHeights(c, [1]) == [Cell(1, 0, 2, 0, false, true)];
    assert DoubleRow(1, [1]) == [DoublePlaceholder(1, 1)];
    assert Doubles([1], [1]) == [DoublePlaceholder(1, 1)];
    assert Expand(c, locs) == ZeroWidths(c, [1]) + ZeroHeights(c, [1]) + Doubles([1], [1]);
  }

  lemma ExampleSpannedZeroWidth(spanning: bool)
    ensures VSpanned(Cell(0, 1, 0, 2, spanning, true), Locations([1], [1])) == []
    ensures HSpanned(Cell(0, 1, 0, 2, spanning, true), Locations([1], [1])) == [1]
  {
  }

  lemma ExampleSpannedZeroHeight(spanning: bool)
    ensures VSpanned(Cell(1, 0, 2, 0, spanning, true), Locations([1], [1])) == [1]
    ensures HSpanned(Cell(1, 0, 2, 0, spanning, true), Locations([1], [1])) == []
  {
  }

  /** A cell spanning no vertical location appends only zero-height
      placeholders, and one spanning no horizontal location only zero-width ones. */
  lemma ExpandNoVertical(c: Cell, locs: Locations)
    requires VSpanned(c, locs) == []
    ensures Expand(c, locs) == ZeroHeights(c, HSpanned(c, locs))
  {
    assert ZeroWidths(c, []) == [] && Doubles([], HSpanned(c, locs)) == [];
  }

  lemma ExpandNoHorizontal(c: Cell, locs: Locations)
    requires HSpanned(c, locs) == []
    ensures Expand(c, locs) == ZeroWidths(c, VSpanned(c, locs))
  {
    var vs := VSpanned(c, locs);
    assert ZeroHeights(c, []) == [];
    DoublesNoHorizontal(vs);
  }

  lemma {:induction false} DoublesNoHorizontal(vs: seq<int>)
    ensures Doubles(vs, []) == []
  {
    if vs != [] {
      DoublesNoHorizontal(vs[..|vs| - 1]);
    }
  }

  lemma ExampleExpandZeroWidth(spanning: bool)
    ensures Expand(Cell(0, 1, 0, 2, spanning, true), Locations([1], [1])) == [DoublePlaceholder(1, 1)]
  {
    var zw := Cell(0, 1, 0, 2, spanning, true);
    ExampleSpannedZeroWidth(spanning);
    ExpandNoVertical(zw, Locations([1], [1]));
    assert ZeroHeights(zw, [1])[0] == DoublePlaceholder(1, 1);
  }

  lemma ExampleExpandZeroHeight(spanning: bool)
    ensures Expand(Cell(1, 0, 2, 0, spanning, true), Locations([1], [1])) == [DoublePlaceholder(1, 1)]
  {
    var zh := Cell(1, 0, 2, 0, spanning, true);
    ExampleSpannedZeroHeight(spanning);
    ExpandNoHorizontal(zh, Locations([1], [1]));
    assert ZeroWidths(zh, [1])[0] == DoublePlaceholder(1, 1);
  }

  lemma ExampleExpandDouble()
    ensures Expand(DoublePlaceholder(1, 1), Locations([1], [1])) == []
    ensures !Spans(DoublePlaceholder(1, 1), Locations([1], [1]))
  {
    var d, locs := DoublePlaceholder(1, 1), Locations([1], [1]);
    assert VSpanned(d, locs) == [] && HSpanned(d, locs) == [];
    assert ZeroWidths(d, []) == [] && ZeroHeights(d, []) == [] && Doubles([], []) == [];
    assert Expand(d, locs) == ZeroWidths(d, []) + ZeroHeights(d, []) + Doubles([], []);
  }

  /** Three cells and three double placeholders hold the placeholder three times. */
  lemma ThreeCopies(s: seq<Cell>, x: Cell, y: Cell, z: Cell, d: Cell)
    requires s == [x, y, z, d, d, d]
    requires x != d && y != d && z != d
    ensures multiset(s)[d] == 3
  {
    assert s == [x, y, z] + [d, d, d];
  }

  /** The three visits of the walk as written that change something. */
  lemma ExampleVisit0()
    ensures var c, locs := Cell(0, 0, 2, 2, false, false), Locations([1], [1]);
      Visit([c], 0, locs) == [c.(spanning := true), Cell(0, 1, 0, 2, false, true), Cell(1, 0, 2, 0, false, true), DoublePlaceholder(1, 1)]
  {
    ExampleExpandCell();
    var c, locs := Cell(0, 0, 2, 2, false, false), Locations([1], [1]);
    assert Spans(c, locs) by {
      assert 1 in VSpanned(c, locs);
    }
  }

  lemma ExampleVisit1()
    ensures var c, d, locs := Cell(0, 0, 2, 2, true, false), DoublePlaceholder(1, 1), Locations([1], [1]);
      Visit([c, Cell(0, 1, 0, 2, false, true), Cell(1, 0, 2, 0, false, true), d], 1, locs)
      == [c, Cell(0, 1, 0, 2, true, true), Cell(1, 0, 2, 0, false, true), d, d]
  {
    var c, d, locs := Cell(0, 0, 2, 2, true, false), DoublePlaceholder(1, 1), Locations([1], [1]);
    var cs, zw := [c, Cell(0, 1, 0, 2, false, true), Cell(1, 0, 2, 0, false, true), d], Cell(0, 1, 0, 2, false, true);
    ExampleExpandZeroWidth(false);
    ExampleSpannedZeroWidth(false);
    assert Flag(zw, locs) == Cell(0, 1, 0, 2, true, true);
    assert Visit(cs, 1, locs) == cs[1 := Flag(zw, locs)] + [d];
  }

  lemma ExampleVisit2()
    ensures var c, d, locs := Cell(0, 0, 2, 2, true, false), DoublePlaceholder(1, 1), Locations([1], [1]);
      Visit([c, Cell(0, 1, 0, 2, true, true), Cell(1, 0, 2, 0, false, true), d, d], 2, locs)
      == [c, Cell(0, 1, 0, 2, true, true), Cell(1, 0, 2, 0, true, true), d, d, d]
  {
    var c, d, locs := Cell(0, 0, 2, 2, true, false), DoublePlaceholder(1, 1), Locations([1], [1]);
    var cs, zh := [c, Cell(0, 1, 0, 2, true, true), Cell(1, 0, 2, 0, false, true), d, d], Cell(1, 0, 2, 0, false, true);
    ExampleExpandZeroHeight(false);
    ExampleSpannedZeroHeight(false);
    assert Flag(zh, locs) == Cell(1, 0, 2, 0, true, true);
    assert Visit(cs, 2, locs) == cs[2 := Flag(zh, locs)] + [d];
  }

  /** Visiting a cell that straddles no location changes nothing. */
  lemma VisitNoop(cs: seq<Cell>, i: nat, locs: Locations)
    requires i < |cs| && !Spans(cs[i], locs)
    ensures Visit(cs, i, locs) == cs
  {
    assert Expand(cs[i], locs) == [];
  }

  /** The walk from position 3 on leaves the six-cell list alone: the
      remaining cells are double placeholders, which span nothing. */
  lemma ExampleTail()
    ensures var c, d, locs := Cell(0, 0, 2, 2, true, false), DoublePlaceholder(1, 1), Locations([1], [1]);
      var s3 := [c, Cell(0, 1, 0, 2, true, true), Cell(1, 0, 2, 0, true, true), d, d, d];
      SpanningPass(s3, 3, locs) == s3
  {
    var c, d, locs := Cell(0, 0, 2, 2, true, false), DoublePlaceholder(1, 1), Locations([1], [1]);
    var s3 := [c, Cell(0, 1, 0, 2, true, true), Cell(1, 0, 2, 0, true, true), d, d, d];
    ExampleExpandDouble();
    VisitNoop(s3, 3, locs);
    VisitNoop(s3, 4, locs);
    VisitNoop(s3, 5, locs);
    VisitCost(s3, 3, locs);
    VisitCost(s3, 4, locs);
    VisitCost(s3, 5, locs);
    assert SpanningPass(s3, 5, locs) == s3;
    assert SpanningPass(s3, 4, locs) == s3;
  }

  /** The walk as written, on one 2x2 cell straddling the vertical location 1
      and the horizontal location 1: the zero-width and zero-height
      placeholders are visited, flagged spanning, and each appends another
      zero-size cell at (1, 1), so the double placeholder occurs three times
      where the resolver over the original cells gives it once. */
  lemma TriplicatedDoublePlaceholder()
    ensures var c, locs := Cell(0, 0, 2, 2, false, false), Locations([1], [1]);
      && SpanningPass([c], 0, locs) == [c.(spanning := true), Cell(0, 1, 0, 2, true, true), Cell(1, 0, 2, 0, true, true),
                                        DoublePlaceholder(1, 1), DoublePlaceholder(1, 1), DoublePlaceholder(1, 1)]
      && multiset(SpanningPass([c], 0, locs))[DoublePlaceholder(1, 1)] == 3
      && multiset(OncePass([c], locs))[DoublePlaceholder(1, 1)] == 1
  {
    ExampleWalk();
    ThreeCopies(SpanningPass([Cell(0, 0, 2, 2, false, false)], 0, Locations([1], [1])),
                Cell(0, 0, 2, 2, true, false), Cell(0, 1, 0, 2, true, true), Cell(1, 0, 2, 0, true, true), DoublePlaceholder(1, 1));
    ExampleOnce();
  }

  /** The resolver over the original cells on the same 2x2 cell. */
  lemma ExampleOnce()
    ensures multiset(OncePass([Cell(0, 0, 2, 2, false, false)], Locations([1], [1])))[DoublePlaceholder(1, 1)] == 1
  {
    var c, locs := Cell(0, 0, 2, 2, false, false), Locations([1], [1]);
    ExampleSpannedCell();
    assert 1 in VSpanned(c, locs) && 1 in HSpanned(c, locs);
    OnceSingleDouble(c, locs, 1, 1);
  }

  /** The walk as written on the 2x2 cell, visit by visit. */
  lemma ExampleWalk()
    ensures var c, locs := Cell(0, 0, 2, 2, false, false), Locations([1], [1]);
      SpanningPass([c], 0, locs) == [c.(spanning := true), Cell(0, 1, 0, 2, true, true), Cell(1, 0, 2, 0, true, true),
                                     DoublePlaceholder(1, 1), DoublePlaceholder(1, 1), DoublePlaceholder(1, 1)]
  {
    var c, locs := Cell(0, 0, 2, 2, false, false), Locations([1], [1]);
    ExampleVisit0();
    VisitCost([c], 0, locs);
    ExampleWalkFrom1();
  }

  lemma ExampleWalkFrom1()
    ensures var c, d, locs := Cell(0, 0, 2, 2, true, false), DoublePlaceholder(1, 1), Locations([1], [1]);
      SpanningPass([c, Cell(0, 1, 0, 2, false, true), Cell(1, 0, 2, 0, false, true), d], 1, locs)
      == [c, Cell(0, 1, 0, 2, true, true), Cell(1, 0, 2, 0, true, true), d, d, d]
  {
    var c, d, locs := Cell(0, 0, 2, 2, true, false), DoublePlaceholder(1, 1), Locations([1], [1]);
    ExampleVisit1();
    VisitCost([c, Cell(0, 1, 0, 2, false, true), Cell(1, 0, 2, 0, false, true), d], 1, locs);
    ExampleWalkFrom2();
  }

  lemma ExampleWalkFrom2()
    ensures var c, d, locs := Cell(0, 0, 2, 2, true, false), DoublePlaceholder(1, 1), Locations([1], [1]);
      SpanningPass([c, Cell(0, 1, 0, 2, true, true), Cell(1, 0, 2, 0, false, true), d, d], 2, locs)
      == [c, Cell(0, 1, 0, 2, true, true), Cell(1, 0, 2, 0, true, true), d, d, d]
  {
    var c, d, locs := Cell(0, 0, 2, 2, true, false), DoublePlaceholder(1, 1), Locations([1], [1]);
    ExampleVisit2();
    VisitCost([c, Cell(0, 1, 0, 2, true, true), Cell(1, 0, 2, 0, false, true), d, d], 2, locs);
    ExampleTail();
  }
}
