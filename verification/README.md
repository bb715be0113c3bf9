# Ruled-table reconstruction (Tabula `HasCells`), modelled in Dafny

This project models the core of Tabula's ruled-table reconstruction in
`lib/tabula/entities/has_cells.rb`. It proves properties about four parts.

- **Cell finder** (`find_cells!`, `CellFinder.CollectCells`, `HasCells.Table.FindCells`).
  Every crossing of a horizontal and a vertical ruling is tried, in row-major order, as the top-left corner of a cell.
  The first pair in loop order of a crossing below it and a crossing to its right that closes a rectangle with four ruled sides gives one cell.
  The source leaves the inner loops with `throw`; here that is an early return.
- **Spanning resolver** (`add_spanning_cells!`, `Spanning`, `HasCells.Table.AddSpanningCells`).
  A cell that strictly straddles a ruling location is flagged `spanning`.
  Zero-width, zero-height and zero-size ("double") placeholder cells are appended to the list for the locations it straddles.
  The source iterates over the list it appends to, so the placeholders are visited as well.
  The model follows that walk over the growing list.
  Its termination measure drops by exactly one per visit, which also gives the final length.
- **Region merger** (`find_spreadsheets_from_cells`, `RegionMerger`, `HasCells.Table.FindSpreadsheetsFromCells`).
  Every cell corner toggles membership of a point set.
  The points left are paired along rows into horizontal edges and along columns into vertical edges.
  Vertical and horizontal edges are then followed in turn from any remaining point, which traces one closed outline per region.
  - The proofs show that every row and every column holds an even number of the toggled points, so the pairing never crosses lines.
  - The destructive walk never looks up a missing key. In Ruby, a missing key would give `nil` and a walk that never closes.
  - Every toggled point ends up on exactly one outline.
  - Each outline is a rectilinear polygon whose sides join neighbouring points.
- **Tabularity test** (`heuristic_ratio`, `is_tabular?`, `Tabularity`).
  The ratio is the mean of the ruled-over-estimated column and row ratios.
  It is modelled with the float values the source can produce from counts: a number, +Infinity or NaN.

Coordinates are integers: the source's float coordinates pre-scaled to the precision it rounds to, so `round(5)` is the identity.
The crossing map (`Ruling.find_intersections`) and the colinearity test (`Ruling#colinear?`) are parameters.
So are the spreadsheet and table counts used by the tabularity test.
`HasCells.Table` is the object that includes the mix-in. It holds `cells` and the two ruling lists.
Its methods update `cells` in place, as the source's `find_cells!` and `add_spanning_cells!` do.

## Model

| member | source | states |
|---|---|---|
| Geometry.CellFromPoints | lib/tabula/entities/has_cells.rb:72-79 | the cell built from a top-left and a bottom-right corner has exactly those corners and is neither spanning nor a placeholder |
| Geometry.SortPoints | lib/tabula/entities/has_cells.rb:177-178 | sorting a point set yields a strictly ascending sequence (row-major or column-major, as the x-first comparator asks) holding exactly the set's points, each once; the same sort serves `keys.sort` at line 44 |
| Geometry.Insert | lib/tabula/entities/has_cells.rb:177-178 | inserting a new point into a sorted sequence keeps it sorted, adds exactly that point and grows the length by one |
| CellFinder.Ray | lib/tabula/entities/has_cells.rb:56-58 | the crossings selected from the rest of the sorted array are exactly those on the top-left's vertical line below it (or horizontal line to its right), still in row-major order |
| CellFinder.SearchCell | lib/tabula/entities/has_cells.rb:61-88 | the search returns the first pair, in loop order, that passes all four colinearity checks and whose corner is a crossing; if it returns nothing, no pair passes |
| CellFinder.Closes | lib/tabula/entities/has_cells.rb:65-79 | a pair that passes the four checks has as its corner (Corner, the point built at line 71) a crossing with the x of the right-hand point and the y of the lower point |
| CellFinder.FirstIsNearest | lib/tabula/entities/has_cells.rb:61-84 | the cell from the first closing pair has the nearest bottom side, then the nearest right side, of every four-sided rectangle from that top-left |
| CellFinder.NoneNotClosable | lib/tabula/entities/has_cells.rb:53-89 | when the search finds nothing, no crossing below and no crossing to the right close a four-sided rectangle from that top-left |
| CellFinder.DoneCount | lib/tabula/entities/has_cells.rb:80-84 | at most one cell per crossing, so no more cells than crossings (none for an empty crossing map) |
| CellFinder.DoneOrder | lib/tabula/entities/has_cells.rb:44-46 | the cells come out in strictly ascending row-major order of their top-left corners |
| CellFinder.DoneExact | lib/tabula/entities/has_cells.rb:46-89 | a crossing is the top-left corner of an emitted cell exactly when some four-sided rectangle starts there |
| CellFinder.CollectCells | lib/tabula/entities/has_cells.rb:44-90 | every emitted cell has both corners in the crossing map, the bottom-right strictly below and right of the top-left, and all four sides ruled; it is the nearest such rectangle; at most one cell per crossing, in row-major order; emitted exactly for the closable crossings |
| HasCells.Table.FindCells | lib/tabula/entities/has_cells.rb:33-93 | the cell list is replaced by, and equal to, the returned cells, which have all the properties of CollectCells; the rulings are unchanged |
| Spanning.Uniq | lib/tabula/entities/has_cells.rb:108-109 | de-duplication keeps exactly the values of the input, each once, ordered by where each first occurs in the input, as `uniq` keeps first occurrences |
| Spanning.RulingLocations | lib/tabula/entities/has_cells.rb:108-109 | the vertical locations are exactly the lefts of the vertical rulings and the horizontal ones exactly the tops of the horizontal rulings, each once, ordered by the first ruling at each location; HasCells.Table.Locations applies it to the table's rulings |
| Spanning.Between | lib/tabula/entities/has_cells.rb:112-113 | the selected locations are exactly those strictly between the cell's two edges, each once, in the order of the location list, none for an empty or inverted extent; VSpanned and HSpanned apply it to a cell's horizontal and vertical extent, and Spans says that either is non-empty (the two `unless ... empty?` guards) |
| Spanning.BetweenAppend | lib/tabula/entities/has_cells.rb:112-113 | `select` over a concatenation is the concatenation of the selections: the kept locations stay in list order |
| Spanning.ZeroWidths | lib/tabula/entities/has_cells.rb:117-121 | one zero-width placeholder per spanned vertical location, at the cell's top and with its height, in order |
| Spanning.ZeroHeights | lib/tabula/entities/has_cells.rb:125-129 | one zero-height placeholder per spanned horizontal location, at the cell's left and with its width, in order |
| Spanning.Doubles | lib/tabula/entities/has_cells.rb:145-150 | the double placeholders of the product, one row per vertical location; its order and contents are stated by DoublesLayout, DoublesAt and DoublesMembers |
| Spanning.DoublesMembers | lib/tabula/entities/has_cells.rb:145-150 | every double placeholder is a zero-size unflagged placeholder at a spanned vertical location and a spanned horizontal location |
| Spanning.DoublesAppend | lib/tabula/entities/has_cells.rb:145-150 | the product over a concatenation of vertical locations is the concatenation of the products: rows come in the order of the vertical locations |
| Spanning.DoublesLayout | lib/tabula/entities/has_cells.rb:145-150 | the product holds one placeholder per pair of a vertical and a horizontal location, and the row of each vertical location (one placeholder per horizontal location, in order) sits between the rows of the locations before and after it |
| Spanning.DoublesAt | lib/tabula/entities/has_cells.rb:145-150 | the placeholder for the pair (vs[a], hs[b]) is at position a times the number of horizontal locations plus b, as `product` orders pairs |
| Spanning.DoublesCount | lib/tabula/entities/has_cells.rb:145-150 | the product appends the double placeholder at (h, v) exactly once when v and h are spanned, and not at all otherwise |
| Spanning.OneDoublePerCrossing | lib/tabula/entities/has_cells.rb:145-150 | one visit of a cell spanning v and h appends exactly one zero-size cell at (h, v) |
| Spanning.Expand | lib/tabula/entities/has_cells.rb:115-150 | a cell straddling a vertical and b horizontal locations gets a + b + ab placeholders appended, none of them flagged spanning |
| Spanning.Visit | lib/tabula/entities/has_cells.rb:112-150 | one turn of the loop: the visited cell is replaced by its flagged version, every other cell is unchanged, and the cell's placeholders follow the old list |
| Spanning.VisitNoop | lib/tabula/entities/has_cells.rb:112-150 | visiting a cell that straddles no location leaves the list unchanged |
| Spanning.Flag | lib/tabula/entities/has_cells.rb:115-124 | a visited cell keeps its geometry and placeholder flag, and is spanning afterwards exactly when it was already or it straddles some location |
| Spanning.ExpandCost | lib/tabula/entities/has_cells.rb:111-151 | the cells a visit appends carry one unit less of the termination measure than the visited cell, so the walk over the growing list ends |
| Spanning.VisitCost | lib/tabula/entities/has_cells.rb:111-151 | one visit lowers the measure of the unvisited part of the list by exactly one |
| Spanning.SpanningPass | lib/tabula/entities/has_cells.rb:111-151 | the walk as written, visiting every position of the growing list: the list only grows, and the cells before the starting position are left as they are |
| Spanning.SpanningPassLength | lib/tabula/entities/has_cells.rb:111-151 | the walk ends with exactly i + SumCost(unvisited) cells: a cell spanning a vertical and b horizontal locations brings 1 + a + b + 3ab cells in all |
| Spanning.SpanningPassShape | lib/tabula/entities/has_cells.rb:111-151 | append-only: the list only grows, cells already visited stay as they are, and every unvisited cell present at the start keeps its position, geometry and placeholder flag, and is spanning afterwards exactly when it was or it straddles a location |
| Spanning.SpanningPassAppended | lib/tabula/entities/has_cells.rb:111-151 | every appended cell is a placeholder, and at the end it is flagged spanning exactly when it straddles a location itself |
| Spanning.ExpandNoVertical | lib/tabula/entities/has_cells.rb:115-150 | a cell spanning no vertical location appends only its zero-height placeholders |
| Spanning.ExpandNoHorizontal | lib/tabula/entities/has_cells.rb:115-150 | a cell spanning no horizontal location appends only its zero-width placeholders |
| Spanning.TriplicatedDoublePlaceholder | lib/tabula/entities/has_cells.rb:111-151 | on one 2x2 cell straddling one vertical and one horizontal location, the walk as written ends with six cells, three of them the same double placeholder; the pass over the original cells gives it once |
| Spanning.OncePass | lib/tabula/entities/has_cells.rb:111-151 | the pass over the original cells keeps them in place, each flagged, and after them appends exactly each original cell's placeholders, cell by cell in list order |
| Spanning.OncePassAppended | lib/tabula/entities/has_cells.rb:117-150 | every cell the pass over the original cells appends is an unflagged placeholder |
| Spanning.OnceSingleDouble | lib/tabula/entities/has_cells.rb:132-150 | for a one-cell list, the pass over the original cells yields exactly one double placeholder per crossing the cell spans, as the design comment draws it |
| Spanning.OnceStep | lib/tabula/entities/has_cells.rb:111-151 | visiting the next original cell turns the state after i cells into the state after i + 1 |
| HasCells.Table.AppendZeroWidths | lib/tabula/entities/has_cells.rb:117-121 | the loop appends exactly the zero-width placeholders, in order, and changes nothing else |
| HasCells.Table.AppendZeroHeights | lib/tabula/entities/has_cells.rb:125-129 | the loop appends exactly the zero-height placeholders, in order, and changes nothing else |
| Spanning.DoubleRow | lib/tabula/entities/has_cells.rb:146-148 | the double placeholders of one vertical location: one DoublePlaceholder (zero-size, at the horizontal and vertical location) per horizontal location, in order |
| HasCells.Table.AppendDoubleRow | lib/tabula/entities/has_cells.rb:146-150 | the product loop for one vertical location appends its double placeholders, one per horizontal location, in order |
| HasCells.Table.AppendDoubles | lib/tabula/entities/has_cells.rb:145-150 | the product loop appends exactly the double placeholders, vertical location major |
| HasCells.Table.FlagAndSpread | lib/tabula/entities/has_cells.rb:115-130 | the two `unless` blocks flag the cell when it straddles a location and append its zero-width then zero-height placeholders, and change nothing else |
| HasCells.Table.VisitCell | lib/tabula/entities/has_cells.rb:112-150 | one turn of the loop flags the cell when it straddles a location and appends its zero-width, zero-height and double placeholders in that order |
| HasCells.Table.AddSpanningCells | lib/tabula/entities/has_cells.rb:103-153 | as written: the loop over the growing list terminates, and the cell list ends as the walk from the start over the old list, with every property proved of that walk |
| HasCells.Table.AddSpanningCellsOnce | lib/tabula/entities/has_cells.rb:111-151 | corrected: visiting only the cells present at the start leaves the list as OncePass of the old one (the original cells flagged, then their placeholders) |
| RegionMerger.Corners | lib/tabula/entities/has_cells.rb:164-166 | four corners per cell; CornersLayout states where each cell's points sit |
| RegionMerger.CornersLayout | lib/tabula/entities/has_cells.rb:164-166 | the corner list holds four points per cell, and cell k's four points sit at positions 4k to 4k + 3, in cell order |
| RegionMerger.Toggled | lib/tabula/entities/has_cells.rb:163-173 | the point set after the toggle loop; ToggledOdd states which points it holds |
| RegionMerger.Flip | lib/tabula/entities/has_cells.rb:167-171 | toggling removes a present point or adds an absent one, changing the size by one, and leaves every other point alone |
| RegionMerger.ToggledOdd | lib/tabula/entities/has_cells.rb:163-173 | the toggled set is exactly the set of points that occur an odd number of times |
| RegionMerger.ToggledParity | lib/tabula/entities/has_cells.rb:163-173 | the toggled set has the parity of the number of points toggled |
| RegionMerger.LineParity | lib/tabula/entities/has_cells.rb:163-173 | on or before any row (or column) there is an even number of toggled corners, so every row and every column holds an even number of them |
| RegionMerger.TotalParity | lib/tabula/entities/has_cells.rb:163-174 | the number of toggled corners is even |
| RegionMerger.CornersPermutation | lib/tabula/entities/has_cells.rb:159-166 | reordered cells have the same corners with the same multiplicities |
| RegionMerger.CellOrderIrrelevant | lib/tabula/entities/has_cells.rb:159-173 | reordering the cells, as `cells.sort!` does, does not change the toggled corners |
| RegionMerger.ToggleCorners | lib/tabula/entities/has_cells.rb:163-173 | the toggle loop leaves exactly the points that are corners of an odd number of cells, counted with multiplicity |
| RegionMerger.SortedPaired | lib/tabula/entities/has_cells.rb:183-201 | in a sorted sequence of the toggled corners, the points at positions 2k and 2k + 1 share their row (or column), so the inner loop never pairs across lines or with a missing point |
| RegionMerger.PairUp | lib/tabula/entities/has_cells.rb:183-201 | the edge map has exactly the sorted points as keys and maps s[2k] to s[2k + 1] and back |
| RegionMerger.PairingMatches | lib/tabula/entities/has_cells.rb:183-201 | the paired map is symmetric, pairs distinct points on the same line, and pairs neighbours: no point of the line lies between a pair |
| RegionMerger.EdgeMap | lib/tabula/entities/has_cells.rb:183-201 | for the toggled corners, both edge maps have exactly those points as keys and are symmetric neighbour matchings |
| RegionMerger.NoTwoPointOutline | lib/tabula/entities/has_cells.rb:209-222 | the walk cannot close after one vertical edge: the horizontal partner of the second point is never the start |
| RegionMerger.TraceStep | lib/tabula/entities/has_cells.rb:210-222 | each step finds its key in the map it deletes from; a horizontal step either returns to the start or reaches an unvisited point |
| RegionMerger.Advance | lib/tabula/entities/has_cells.rb:210-222 | one round of the walk deletes the last point's key from the map it leaves by (vertical after a horizontal edge, else horizontal) and from that map only; it closes exactly when the horizontal partner is the start, leaving the polygon as it was, and otherwise appends the partner and switches direction; when closed the points form a closed outline, otherwise the walk stays a path of distinct points alternating vertical and horizontal edges |
| RegionMerger.TraceOutline | lib/tabula/entities/has_cells.rb:208-223 | from any horizontal-edge key the walk terminates with a closed outline of at least four distinct points; the edge maps lost only keys of that outline |
| RegionMerger.OutlineClosed | lib/tabula/entities/has_cells.rb:209-223 | every point of an outline has both of its partners on the outline |
| RegionMerger.RemoveVertices | lib/tabula/entities/has_cells.rb:227-230 | the clean-up leaves exactly the keys not on the polygon, with their old partners |
| RegionMerger.PeelOutline | lib/tabula/entities/has_cells.rb:205-231 | one round of the polygon loop traces an outline of the remaining maps, removes its vertices from both and shrinks the horizontal map |
| RegionMerger.TraceOutlines | lib/tabula/entities/has_cells.rb:204-232 | the polygon loop terminates; the polygons are outlines along the edge maps, pairwise disjoint, and together hold every point |
| RegionMerger.OutlineRectilinear | lib/tabula/entities/has_cells.rb:209-223 | an outline is a closed rectilinear polygon: its sides alternate vertical and horizontal |
| RegionMerger.OutlineTight | lib/tabula/entities/has_cells.rb:183-223 | no toggled point lies strictly inside a side of an outline |
| RegionMerger.FindOutlines | lib/tabula/entities/has_cells.rb:158-232 | the polygons cover the toggled corners exactly and are pairwise disjoint; each is a rectilinear polygon with no toggled point inside a side |
| HasCells.Table.FindSpreadsheetsFromCells | lib/tabula/entities/has_cells.rb:158-232 | the table's cells give polygons with the properties of FindOutlines |
| Tabularity.Divide | lib/tabula/entities/has_cells.rb:26 | a count over a count is a number exactly when the divisor is not zero (then it times the divisor is the dividend), NaN for zero over zero, otherwise infinity |
| Tabularity.Add | lib/tabula/entities/has_cells.rb:26 | float addition is NaN exactly when an operand is NaN, finite exactly when both are, and then the sum of the two values |
| Tabularity.Half | lib/tabula/entities/has_cells.rb:26 | the final `/ 2` keeps NaN and infinity and halves a finite value |
| Tabularity.HeuristicRatio | lib/tabula/entities/has_cells.rb:16-27 | the ratio is NaN exactly without a spreadsheet or when a ruled count and its estimate are both zero; it is a number exactly when there is a spreadsheet and the table has rows and columns, and then it equals (ruled cols / estimated cols + ruled rows / estimated rows) / 2, which is non-negative |
| Tabularity.IsTabular | lib/tabula/entities/has_cells.rb:9-14 | tabular exactly when the ratio is a number strictly between 0.65 and 1/0.65; infinity and NaN never are |
| Tabularity.TabularReciprocal | lib/tabula/entities/has_cells.rb:9-14 | a positive ratio and its reciprocal are judged alike: the band is symmetric under inversion |
| Tabularity.NoSpreadsheetNotTabular | lib/tabula/entities/has_cells.rb:11-19 | a region without a spreadsheet is not tabular |
| Tabularity.EmptyTableNotTabular | lib/tabula/entities/has_cells.rb:11-26 | a table estimate without rows or columns is never tabular |
| Tabularity.AgreeingCountsTabular | lib/tabula/entities/has_cells.rb:11-26 | equal ruled and estimated counts give ratio 1, which is tabular |
| Tabularity.DoubledCountsNotTabular | lib/tabula/entities/has_cells.rb:11-26 | twice as many ruled rows and columns as estimated give ratio 2, which is not tabular |

## Left out

- The `java.awt.Polygon`/`Area` conversion of the polygons (has_cells.rb:237-245) is a foreign library call. The model ends at the list of point sequences.
- `cells.sort!` (has_cells.rb:159) is not modelled: the Cell comparator is not part of this model. `RegionMerger.CellOrderIrrelevant` shows that the cell order does not affect the toggled corners the polygons are built from. FindSpreadsheetsFromCells therefore leaves `cells` in place.
- `Ruling.find_intersections`, `Ruling#colinear?` and `Cell.new_from_points` are not part of this model. The crossing map and the colinearity test are parameters. A new cell is a plain rectangle.
- `spreadsheets`, `get_table` and their row and column counts are not part of this model. HeuristicRatio takes the counts, and `Option` stands for `spreadsheets.first` being `nil`.
- Float arithmetic is exact here. Coordinates are pre-scaled integers, `round(5)` is the identity, ratios are real numbers and 1/0.65 is the exact fraction 20/13. IEEE rounding and precision drift are not modelled.
- Hash iteration order is not modelled. `edges_h.shift` takes an arbitrary remaining key as the start. Any key yields an outline, which is what the proofs show.
- The `nil` partner at has_cells.rb:187-188 and 197-198 is never produced, and the `nil` from `Hash#delete` in the walk is never returned. Both are proved unreachable, not modelled as a value.
- RegionMerger.TraceOutline: the walk's `loop do … break` is a `while true` loop whose rounds are `Advance` and which stops by `break`. Each polygon-loop round is `PeelOutline`. The walk keeps the `:horiz`/`:vert` markers as the parity of the position instead of storing them.
- The Ruby cells are shared objects, so setting `spanning` on one is visible through every reference to it. Here a cell is a value, and flagging replaces the element of `cells`. Aliasing between cell objects is not modelled.
- Corners: its own contract gives only the length. The per-cell layout is the lemma CornersLayout, because as a postcondition of the function it makes the parity proofs that unfold Corners too costly to check.
- Doubles: its own contract is empty. Length, order and contents are the lemmas DoublesLayout, DoublesAt and DoublesMembers, for the same reason: as postconditions of the function they make every proof that unfolds Doubles too costly.
- Toggled: it has no contract of its own. ToggledOdd, ToggledParity and LineParity state what it holds.
- The constant `ARBITRARY_MAGIC_HEURISTIC_NUMBER` is `Tabularity.Threshold`. It is a constant as in the source, not a configurable parameter.

## Findings

| source | as written | input that shows it | evidently intended | confidence | as-written member | corrected member |
|---|---|---|---|---|---|---|
| lib/tabula/entities/has_cells.rb:111-151 | `cells.each` also visits the placeholders appended during the walk. A zero-width placeholder still straddles the cell's horizontal locations, so it is flagged spanning and appends a zero-height copy of itself, which is a zero-size cell at each crossing. A zero-height placeholder does the same for the vertical locations. | one cell (top 0, left 0, width 2, height 2), one vertical ruling at x = 1, one horizontal ruling at y = 1: the walk ends with six cells, three of them the double placeholder at (1, 1), and both single-axis placeholders are flagged spanning | one double placeholder per spanned crossing, as the design comment at lines 132-143 draws it; only the original cells are visited | not executed | Spanning.TriplicatedDoublePlaceholder, HasCells.Table.AddSpanningCells | Spanning.OnceSingleDouble, HasCells.Table.AddSpanningCellsOnce |
