/** The object that carries the cells of a ruled table (a page area that
    includes the HasCells behaviour): its cell list and its horizontal and
    vertical rulings. find_cells! replaces the cell list, add_spanning_cells!
    flags and appends to it in place, and find_spreadsheets_from_cells reads
    it to outline the regions the cells cover. */
module HasCells {
  import opened Geometry
  import CellFinder
  import Spanning
  import RegionMerger

  class Table {
    var cells: seq<Cell>
    var horizontalRulings: seq<Ruling>
    var verticalRulings: seq<Ruling>

    constructor(cells: seq<Cell>, horizontalRulings: seq<Ruling>, verticalRulings: seq<Ruling>)
      ensures this.cells == cells
      ensures this.horizontalRulings == horizontalRulings && this.verticalRulings == verticalRulings
    {
      this.cells := cells;
      this.horizontalRulings := horizontalRulings;
      this.verticalRulings := verticalRulings;
    }

    /** The de-duplicated ruling locations the spanning pass compares against. */
    function Locations(): Spanning.Locations
      reads this
    {
      Spanning.RulingLocations(horizontalRulings, verticalRulings)
    }

    /** find_cells!: the cells closed by the crossings of the rulings, one
        per closable top-left crossing, in row-major order of their top-left
        corners; the cell list is replaced by them. */
    method FindCells(inter: CellFinder.Crossings, colinear: CellFinder.Colinear) returns (found: seq<Cell>)
      modifies this
      ensures cells == found
      ensures horizontalRulings == old(horizontalRulings) && verticalRulings == old(verticalRulings)
      ensures |found| <= |inter|
      ensures forall k :: 0 <= k < |found| ==> CellFinder.Confirmed(inter, colinear, found[k]) && CellFinder.Nearest(inter, colinear, found[k])
      ensures forall k, l :: 0 <= k < l < |found| ==> Less(found[k].TopLeft(), found[l].TopLeft(), false)
      ensures forall p :: p in inter ==> (CellFinder.Closable(inter, colinear, p) <==> exists k :: 0 <= k < |found| && found[k].TopLeft() == p)
    {
      found := CellFinder.CollectCells(inter, colinear);
      cells := found;
    }

    /** Appends a zero-width placeholder at each of the vertical locations vs. */
    method AppendZeroWidths(c: Cell, vs: seq<int>)
      modifies this
      ensures cells == old(cells) + Spanning.ZeroWidths(c, vs)
      ensures horizontalRulings == old(horizontalRulings) && verticalRulings == old(verticalRulings)
    {
      ghost var before := cells;
      for k := 0 to |vs|
        invariant cells == before + Spanning.ZeroWidths(c, vs[..k])
        invariant horizontalRulings == old(horizontalRulings) && verticalRulings == old(verticalRulings)
      {
        assert vs[..k + 1][..k] == vs[..k];
        cells := cells + [Cell(c.top, vs[k], 0, c.height, false, true)];
      }
      assert vs[..|vs|] == vs;
    }

    /** Appends a zero-height placeholder at each of the horizontal locations hs. */
    method AppendZeroHeights(c: Cell, hs: seq<int>)
      modifies this
      ensures cells == old(cells) + Spanning.ZeroHeights(c, hs)
      ensures horizontalRulings == old(horizontalRulings) && verticalRulings == old(verticalRulings)
    {
      ghost var before := cells;
      for k := 0 to |hs|
        invariant cells == before + Spanning.ZeroHeights(c, hs[..k])
        invariant horizontalRulings == old(horizontalRulings) && verticalRulings == old(verticalRulings)
      {
        assert hs[..k + 1][..k] == hs[..k];
        cells := cells + [Cell(hs[k], c.left, c.width, 0, false, true)];
      }
      assert hs[..|hs|] == hs;
    }

    /** Appends a zero-size placeholder at (h, v) for each h of hs. */
    method AppendDoubleRow(v: int, hs: seq<int>)
      modifies this
      ensures cells == old(cells) + Spanning.DoubleRow(v, hs)
      ensures horizontalRulings == old(horizontalRulings) && verticalRulings == old(verticalRulings)
    {
      ghost var before := cells;
      for b := 0 to |hs|
        invariant cells == before + Spanning.DoubleRow(v, hs[..b])
        invariant horizontalRulings == old(horizontalRulings) && verticalRulings == old(verticalRulings)
      {
        assert hs[..b + 1][..b] == hs[..b];
        cells := cells + [Spanning.DoublePlaceholder(hs[b], v)];
      }
      assert hs[..|hs|] == hs;
    }

    /** Appends a zero-size placeholder at each pair of the product vs x hs,
        vertical location major. */
    method AppendDoubles(vs: seq<int>, hs: seq<int>)
      modifies this
      ensures cells == old(cells) + Spanning.Doubles(vs, hs)
      ensures horizontalRulings == old(horizontalRulings) && verticalRulings == old(verticalRulings)
    {
      ghost var before := cells;
      for a := 0 to |vs|
        invariant cells == before + Spanning.Doubles(vs[..a], hs)
        invariant horizontalRulings == old(horizontalRulings) && verticalRulings == old(verticalRulings)
      {
        DoublesNext(vs, a, hs);
        AppendDoubleRow(vs[a], hs);
        Spanning.AppendAssoc(before, Spanning.Doubles(vs[..a], hs), Spanning.DoubleRow(vs[a], hs));
      }
      assert vs[..|vs|] == vs;
    }

    /** The first part of a visit: the cell at i is flagged spanning when it
        straddles a location, and its zero-width and zero-height placeholders
        are appended, in that order. */
    method FlagAndSpread(i: nat, locs: Spanning.Locations)
      requires i < |cells|
      modifies this
      ensures var c := old(cells)[i];
        cells == old(cells)[i := Spanning.Flag(c, locs)]
                 + Spanning.ZeroWidths(c, Spanning.VSpanned(c, locs)) + Spanning.ZeroHeights(c, Spanning.HSpanned(c, locs))
      ensures horizontalRulings == old(horizontalRulings) && verticalRulings == old(verticalRulings)
    {
      ghost var cs := cells;
      var c := cells[i];
      var vs := Spanning.VSpanned(c, locs);
      var hs := Spanning.HSpanned(c, locs);
      ghost var flagged := if vs != [] then c.(spanning := true) else c;
      if vs != [] {
        cells := cells[i := cells[i].(spanning := true)];
        AppendZeroWidths(c, vs);
      }
      assert cells == cs[i := flagged] + Spanning.ZeroWidths(c, vs);
      if hs != [] {
        UpdateFront(cs[i := flagged], Spanning.ZeroWidths(c, vs), i, c.(spanning := true));
        cells := cells[i := cells[i].(spanning := true)];
        AppendZeroHeights(c, hs);
        flagged := c.(spanning := true);
      }
      assert flagged == Spanning.Flag(c, locs);
    }

    /** One visit of the spanning pass: the cell at i is flagged spanning
        when it straddles a location, and its zero-width, zero-height and
        double placeholders are appended, in that order. */
    method VisitCell(i: nat, locs: Spanning.Locations)
      requires i < |cells|
      modifies this
      ensures cells == Spanning.Visit(old(cells), i, locs)
      ensures horizontalRulings == old(horizontalRulings) && verticalRulings == old(verticalRulings)
    {
      ghost var cs := cells;
      var c := cells[i];
      var vs := Spanning.VSpanned(c, locs);
      var hs := Spanning.HSpanned(c, locs);
      FlagAndSpread(i, locs);
      if vs != [] && hs != [] {
        AppendDoubles(vs, hs);
      } else if hs == [] {
        Spanning.DoublesNoHorizontal(vs);
      }
      VisitUnfold(cs, i, locs, cells);
    }

    /** add_spanning_cells! as written: the walk runs until it reaches the
        end of the list it appends to, so the placeholders are visited as
        well. The cell list ends as SpanningPass from the start. */
    method AddSpanningCells()
      modifies this
      ensures cells == Spanning.SpanningPass(old(cells), 0, old(Locations()))
      ensures horizontalRulings == old(horizontalRulings) && verticalRulings == old(verticalRulings)
    {
      var locs := Locations();
      var i := 0;
      while i < |cells|
        invariant i <= |cells|
        invariant Spanning.SpanningPass(cells, i, locs) == Spanning.SpanningPass(old(cells), 0, locs)
        invariant horizontalRulings == old(horizontalRulings) && verticalRulings == old(verticalRulings)
        decreases Spanning.SumCost(cells[i..], locs)
      {
        Spanning.VisitCost(cells, i, locs);
        VisitCell(i, locs);
        i := i + 1;
      }
    }

    /** The spanning pass over the cells present when it starts, each visited
        once: the cell list ends as OncePass of the old one. */
    method AddSpanningCellsOnce()
      modifies this
      ensures cells == Spanning.OncePass(old(cells), old(Locations()))
      ensures horizontalRulings == old(horizontalRulings) && verticalRulings == old(verticalRulings)
    {
      var locs := Locations();
      ghost var original := cells;
      var n := |cells|;
      Spanning.OnceStateEnds(original, locs);
      for i := 0 to n
        invariant cells == Spanning.OnceState(original, i, locs)
        invariant horizontalRulings == old(horizontalRulings) && verticalRulings == old(verticalRulings)
      {
        Spanning.OnceStep(original, i, locs);
        VisitCell(i, locs);
      }
    }

    /** find_spreadsheets_from_cells up to the polygons: the outlines of the
        regions the cells cover. */
    method FindSpreadsheetsFromCells() returns (polygons: seq<seq<Point>>)
      ensures RegionMerger.Vertices(polygons) == RegionMerger.Toggled(RegionMerger.Corners(cells))
      ensures forall i :: 0 <= i < |polygons| ==>
        RegionMerger.Rectilinear(polygons[i]) && RegionMerger.Tight(polygons[i], RegionMerger.Toggled(RegionMerger.Corners(cells)))
      ensures forall i, j :: 0 <= i < j < |polygons| ==> Elements(polygons[i]) !! Elements(polygons[j])
    {
      polygons := RegionMerger.FindOutlines(cells);
    }
  }

  /** A visit, written as the three appends in order. */
  lemma VisitUnfold(cs: seq<Cell>, i: nat, locs: Spanning.Locations, r: seq<Cell>)
    requires i < |cs|
    requires var c := cs[i];
      var vs, hs := Spanning.VSpanned(c, locs), Spanning.HSpanned(c, locs);
      r == cs[i := Spanning.Flag(c, locs)] + Spanning.ZeroWidths(c, vs) + Spanning.ZeroHeights(c, hs) + Spanning.Doubles(vs, hs)
    ensures r == Spanning.Visit(cs, i, locs)
  {
    var c := cs[i];
    var vs, hs := Spanning.VSpanned(c, locs), Spanning.HSpanned(c, locs);
    Spanning.AppendAssoc(cs[i := Spanning.Flag(c, locs)] + Spanning.ZeroWidths(c, vs), Spanning.ZeroHeights(c, hs), Spanning.Doubles(vs, hs));
    Spanning.AppendAssoc(cs[i := Spanning.Flag(c, locs)], Spanning.ZeroWidths(c, vs), Spanning.ZeroHeights(c, hs) + Spanning.Doubles(vs, hs));
  }

  lemma DoublesNext(vs: seq<int>, a: nat, hs: seq<int>)
    requires a < |vs|
    ensures Spanning.Doubles(vs[..a + 1], hs) == Spanning.Doubles(vs[..a], hs) + Spanning.DoubleRow(vs[a], hs)
  {
    assert vs[..a + 1][..a] == vs[..a];
  }

  /** Updating a position of the front part of a concatenation. */
  lemma UpdateFront(a: seq<Cell>, b: seq<Cell>, i: nat, x: Cell)
    requires i < |a|
    ensures (a + b)[i := x] == a[i := x] + b
  {
  }
}
