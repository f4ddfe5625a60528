/**
 * The cross-shaped net of six S×S faces inside a 4S×3S grid (cubeMaze.py:27-33,
 * 247-251), the ids found at a cell (cubeMaze.py:78-106), and next_cell, which
 * moves one cell on the folded cube (cubeMaze.py:149-213).
 *
 * The global side_length of the source is the parameter S here.
 */
module CubeNet {
  import opened Wrappers
  import opened Directions
  import opened EdgeTables

  // ---------------------------------------------------------------------------
  // Arithmetic on blocks of S cells
  // ---------------------------------------------------------------------------

  lemma MulAtLeast(S: int, t: int)
    requires S >= 1 && t >= 1
    ensures S * t >= S
  {
  }

  /** Splitting S*q + r into its block q and its offset r inside the block. */
  lemma {:induction false} DivMod(S: int, q: int, r: int)
    requires S >= 1 && 0 <= r < S
    ensures (S * q + r) / S == q && (S * q + r) % S == r
  {
    var n := S * q + r;
    var q', r' := n / S, n % S;
    assert S * (q - q') == r' - r;
    if q - q' >= 1 {
      MulAtLeast(S, q - q');
    } else if q' - q >= 1 {
      MulAtLeast(S, q' - q);
    }
  }

  /** A coordinate in a block below n lies below n blocks. */
  lemma BlockWithin(S: int, v: int, n: int)
    requires S >= 1 && 0 <= v / S < n
    ensures 0 <= v < S * n
  {
    DivMod(S, v / S, v % S);
    if n - 1 - v / S >= 1 {
      MulAtLeast(S, n - 1 - v / S);
    }
    assert S * n == S * (n - 1 - v / S) + S * (v / S) + S;
  }

  /** A coordinate below n blocks lies in a block below n. */
  lemma BlockBelow(S: int, v: int, n: int)
    requires S >= 1 && 0 <= v < S * n
    ensures 0 <= v / S < n
  {
    DivMod(S, v / S, v % S);
    if v / S >= n {
      MulAtLeast(S, v / S - n + 1);
    }
  }

  // ---------------------------------------------------------------------------
  // The net: maze_exclusion_ranges and point_is_excluded
  // ---------------------------------------------------------------------------

  /** Python's range(lo, hi), used only for membership. */
  datatype Span = Span(lo: int, hi: int)

  predicate Contains(r: Span, v: int)
  {
    r.lo <= v < r.hi
  }

  /** The four corner blocks of the grid, as (x range, y range). */
  function MazeExclusionRanges(S: int): seq<(Span, Span)>
  {
    [ (Span(0, S), Span(0, S)),
      (Span(S * 2, S * 4), Span(0, S)),
      (Span(0, S), Span(S * 2, S * 3)),
      (Span(S * 2, S * 4), Span(S * 2, S * 3)) ]
  }

  function ExcludedFrom(S: int, i: nat, x: int, y: int): bool
    decreases |MazeExclusionRanges(S)| - i
  {
    if i >= |MazeExclusionRanges(S)| then false
    else
      (Contains(MazeExclusionRanges(S)[i].0, x) && Contains(MazeExclusionRanges(S)[i].1, y))
      || ExcludedFrom(S, i + 1, x, y)
  }

  predicate PointIsExcluded(S: int, x: int, y: int)
  {
    ExcludedFrom(S, 0, x, y)
  }

  predicate InRange(S: int, x: int, y: int)
  {
    0 <= x < 4 * S && 0 <= y < 3 * S
  }

  /** A cell of the maze that belongs to one of the six faces. */
  predicate OnNet(S: int, x: int, y: int)
  {
    InRange(S, x, y) && !PointIsExcluded(S, x, y)
  }

  /** The middle band [S, 2S) of an axis: the column or row of faces that make the cross. */
  predicate InMiddle(S: int, v: int)
  {
    S <= v < 2 * S
  }

  /** A cell is excluded exactly when it is in range and outside both middle bands. */
  lemma PointIsExcludedIff(S: int, x: int, y: int)
    requires S >= 1
    ensures PointIsExcluded(S, x, y) <==> InRange(S, x, y) && !InMiddle(S, x) && !InMiddle(S, y)
  {
    var R := MazeExclusionRanges(S);
    assert !ExcludedFrom(S, 4, x, y);
    assert ExcludedFrom(S, 3, x, y) <==> Contains(R[3].0, x) && Contains(R[3].1, y);
    assert ExcludedFrom(S, 2, x, y) <==> (Contains(R[2].0, x) && Contains(R[2].1, y)) || ExcludedFrom(S, 3, x, y);
    assert ExcludedFrom(S, 1, x, y) <==> (Contains(R[1].0, x) && Contains(R[1].1, y)) || ExcludedFrom(S, 2, x, y);
  }

  /** Being on the net, restated by blocks: the middle block column or the middle block row. */
  lemma OnNetByBlocks(S: int, x: int, y: int)
    requires S >= 1 && InRange(S, x, y)
    ensures 0 <= x / S < 4 && 0 <= y / S < 3
    ensures OnNet(S, x, y) <==> x / S == 1 || y / S == 1
  {
    PointIsExcludedIff(S, x, y);
    BlockBelow(S, x, 4);
    BlockBelow(S, y, 3);
    DivMod(S, x / S, x % S);
    DivMod(S, y / S, y % S);
    DivMod(S, 1, 0);
    DivMod(S, 2, 0);
    if x / S == 1 {
      assert S * (x / S) == S;
    }
    if y / S == 1 {
      assert S * (y / S) == S;
    }
    if x / S >= 2 {
      MulAtLeast(S, x / S - 1);
      assert S * (x / S) == S * (x / S - 1) + S;
    }
    if y / S >= 2 {
      MulAtLeast(S, y / S - 1);
      assert S * (y / S) == S * (y / S - 1) + S;
    }
  }

  // ---------------------------------------------------------------------------
  // The ids at a cell: edge_from_edge_set and edges_from_point
  // ---------------------------------------------------------------------------

  /** A set of one id serves the whole line; a longer set is indexed by the block of the other coordinate. */
  function EdgeFromEdgeSet(S: int, edgeSet: seq<int>, otherValue: int): int
    requires S >= 1 && 1 <= |edgeSet|
    requires |edgeSet| == 1 || 0 <= otherValue / S < |edgeSet|
  {
    if |edgeSet| == 1 then edgeSet[0] else edgeSet[otherValue / S]
  }

  /** The table set for column x: leading when x is a multiple of S, else trailing when x + 1 is. */
  function ColumnSet(S: int, x: int): (r: Option<nat>)
    requires S >= 1 && 0 <= x < 4 * S
    ensures r.Some? ==> r.value < NumSets(X)
  {
    BlockBelow(S, x, 4);
    if x % S == 0 then Some(x / S)
    else if (x + 1) % S == 0 then Some(|XLeadingEdge| + x / S)
    else None
  }

  function RowSet(S: int, y: int): (r: Option<nat>)
    requires S >= 1 && 0 <= y < 3 * S
    ensures r.Some? ==> r.value < NumSets(Y)
  {
    BlockBelow(S, y, 3);
    if y % S == 0 then Some(y / S)
    else if (y + 1) % S == 0 then Some(|YLeadingEdge| + y / S)
    else None
  }

  /** The id the column test of edges_from_point finds at (x, y), if any. */
  function ColumnEdge(S: int, x: int, y: int): Option<int>
    requires S >= 1 && InRange(S, x, y)
  {
    match ColumnSet(S, x)
    case None => None
    case Some(i) =>
      BlockBelow(S, y, 3);
      Some(EdgeFromEdgeSet(S, SetAt(X, i), y))
  }

  /** The id the row test of edges_from_point finds at (x, y), if any. */
  function RowEdge(S: int, x: int, y: int): Option<int>
    requires S >= 1 && InRange(S, x, y)
  {
    match RowSet(S, y)
    case None => None
    case Some(i) =>
      BlockBelow(S, x, 4);
      Some(EdgeFromEdgeSet(S, SetAt(Y, i), x))
  }

  function Listed(o: Option<int>): seq<int>
  {
    match o
    case None => []
    case Some(e) => [e]
  }

  /** edges_from_point: the column id (if any) followed by the row id (if any). */
  function EdgesFromPoint(S: int, x: int, y: int): seq<int>
    requires S >= 1 && InRange(S, x, y)
  {
    Listed(ColumnEdge(S, x, y)) + Listed(RowEdge(S, x, y))
  }

  /** x mod S is S - 1 exactly when x + 1 is a multiple of S. */
  lemma TrailingTest(S: int, v: int)
    requires S >= 1
    ensures (v + 1) % S == 0 <==> v % S == S - 1
  {
    var q, r := v / S, v % S;
    if r == S - 1 {
      assert v + 1 == S * (q + 1) + 0;
      DivMod(S, q + 1, 0);
    } else {
      assert v + 1 == S * q + (r + 1);
      DivMod(S, q, r + 1);
    }
  }

  /** A column id lies on column x: on the leading table when x mod S is 0, else on the trailing one. */
  lemma ColumnEdgeGeometry(S: int, x: int, y: int)
    requires S >= 1 && InRange(S, x, y) && ColumnEdge(S, x, y).Some?
    ensures var e := ColumnEdge(S, x, y).value;
      && IsEdge(e) && Geometry(e).loc.lock == X && Geometry(e).loc.index == ColumnSet(S, x).value
      && (x % S == 0 <==> !Trailing(Geometry(e).loc))
      && Geometry(e).loc.freeBlock == if |SetAt(X, ColumnSet(S, x).value)| == 1 then 1 else y / S
  {
    var i := ColumnSet(S, x).value;
    BlockBelow(S, y, 3);
    var j := if |SetAt(X, i)| == 1 then 0 else y / S;
    TableMember(X, i, j);
  }

  lemma RowEdgeGeometry(S: int, x: int, y: int)
    requires S >= 1 && InRange(S, x, y) && RowEdge(S, x, y).Some?
    ensures var e := RowEdge(S, x, y).value;
      && IsEdge(e) && Geometry(e).loc.lock == Y && Geometry(e).loc.index == RowSet(S, y).value
      && (y % S == 0 <==> !Trailing(Geometry(e).loc))
      && Geometry(e).loc.freeBlock == if |SetAt(Y, RowSet(S, y).value)| == 1 then 1 else x / S
  {
    var i := RowSet(S, y).value;
    BlockBelow(S, x, 4);
    var j := if |SetAt(Y, i)| == 1 then 0 else x / S;
    TableMember(Y, i, j);
  }

  /**
   * edges_from_point finds at most one id by the column test and one by the row
   * test, all of them ids of the net, and none exactly when neither coordinate
   * sits on the first or last line of its face.
   */
  lemma EdgesFromPointShape(S: int, x: int, y: int)
    requires S >= 1 && InRange(S, x, y)
    ensures |EdgesFromPoint(S, x, y)| <= 2
    ensures forall e <- EdgesFromPoint(S, x, y) :: IsEdge(e)
    ensures ColumnEdge(S, x, y).Some? <==> x % S == 0 || x % S == S - 1
    ensures RowEdge(S, x, y).Some? <==> y % S == 0 || y % S == S - 1
    ensures EdgesFromPoint(S, x, y) == [] <==>
      x % S != 0 && x % S != S - 1 && y % S != 0 && y % S != S - 1
  {
    TrailingTest(S, x);
    TrailingTest(S, y);
    if ColumnEdge(S, x, y).Some? {
      ColumnEdgeGeometry(S, x, y);
    }
    if RowEdge(S, x, y).Some? {
      RowEdgeGeometry(S, x, y);
    }
  }

  // ---------------------------------------------------------------------------
  // affected_directions, offset_from_edge runs, process_affected_direction
  // ---------------------------------------------------------------------------

  /** affected_directions: the effects of the ids that have one, in order. */
  function AffectedDirections(edges: seq<int>): (r: seq<Effect>)
    ensures |r| <= |edges|
    ensures forall eff <- r :: eff.edge in edges && ParseEdgeEffect(eff.edge) == Some(eff)
    ensures forall k :: 0 <= k < |edges| && ParseEdgeEffect(edges[k]).Some? ==> ParseEdgeEffect(edges[k]).value in r
    ensures (forall e <- edges :: IsEdge(e)) ==>
      |r| == |edges| && forall k :: 0 <= k < |r| ==> Some(r[k]) == ParseEdgeEffect(edges[k])
  {
    if edges == [] then []
    else
      var head := ParseEdgeEffect(edges[0]);
      var rest := AffectedDirections(edges[1..]);
      ParseEdgeEffectOfEdge(edges[0]);
      if head.Some? then [head.value] + rest else rest
  }

  /** The locked coordinate of a line: the first or the last line of its block. */
  function LinePosition(S: int, l: Location): int
  {
    S * Block(l) + (if Trailing(l) then S - 1 else 0)
  }

  /** offset_from_edge of an id: its line on the locked axis and the start of its block on the free axis. */
  lemma OffsetShape(S: int, e: int)
    requires S >= 1 && IsEdge(e)
    ensures var l := Geometry(e).loc;
      OffsetFromEdge(S, e) ==
        if l.lock == X then Some((LinePosition(S, l), S * l.freeBlock, X))
        else Some((S * l.freeBlock, LinePosition(S, l), Y))
  {
    GeometryAgrees(e);
    var l := Geometry(e).loc;
    assert S * (Block(l) + 1) - 1 == S * Block(l) + (S - 1);
  }

  lemma OffsetFound(S: int, e: int)
    requires S >= 1 && IsEdge(e)
    ensures OffsetFromEdge(S, e).Some?
  {
    OffsetShape(S, e);
  }

  /** Cell k of the run of cells an id names, counted from the origin offset_from_edge gives. */
  function RunCell(S: int, e: int, k: int): (int, int)
    requires S >= 1 && IsEdge(e)
  {
    OffsetFound(S, e);
    CellOfRun(OffsetFromEdge(S, e).value, k)
  }

  /** Cell k of a run from origin o: k is added on the axis that is not locked. */
  function CellOfRun(o: (int, int, Axis), k: int): (int, int)
  {
    if o.2 == X then (o.0, o.1 + k) else (o.0 + k, o.1)
  }

  /** The arithmetic of process_affected_direction once the partner's offset res is known. */
  function Landing(S: int, x: int, y: int, switch: bool, invert: bool, res: (int, int, Axis)): (int, int)
    requires S >= 1
  {
    var relativeX, relativeY := x % S, y % S;
    var (sx, sy) := if switch then (relativeY, relativeX) else (relativeX, relativeY);
    var (ix, iy) := if invert then (S - 1 - sx, S - 1 - sy) else (sx, sy);
    (res.0 + ix * (if res.2 == Y then 1 else 0), res.1 + iy * (if res.2 == X then 1 else 0))
  }

  lemma LandingOnRun(S: int, x: int, y: int, switch: bool, invert: bool, res: (int, int, Axis))
    requires S >= 1
    ensures Landing(S, x, y, switch, invert, res) == CellOfRun(res, PositionAfter(S, x, y, switch, invert, res.2))
  {
  }

  /** The position on a run after crossing: reversed when the row inverts. */
  function Flip(S: int, invert: bool, k: int): int
  {
    if invert then S - 1 - k else k
  }

  /**
   * process_affected_direction: the face-relative coordinates (x mod S, y mod S),
   * exchanged when switching and reflected when inverting, are added to the origin
   * of the partner's run on its free axis only.
   */
  function ProcessAffectedDirection(S: int, x: int, y: int, switch: bool, invert: bool, currentEdge: int): (int, int)
    requires S >= 1 && IsEdge(currentEdge)
  {
    FindNextEdgeInvolution(currentEdge);
    var targetEdge := FindNextEdge(currentEdge).value;
    OffsetFound(S, targetEdge);
    Landing(S, x, y, switch, invert, OffsetFromEdge(S, targetEdge).value)
  }

  /** The first effect of the list that acts on the given direction. */
  function FirstAffecting(affected: seq<Effect>, direction: Direction): (r: Option<Effect>)
    ensures r.Some? ==> exists k :: (0 <= k < |affected| && affected[k] == r.value && r.value.direction == direction
      && forall j :: 0 <= j < k ==> affected[j].direction != direction)
    ensures r.None? <==> forall eff <- affected :: eff.direction != direction
  {
    if affected == [] then None
    else if affected[0].direction == direction then Some(affected[0])
    else
      var rest := FirstAffecting(affected[1..], direction);
      assert rest.Some? ==> exists k :: (0 <= k < |affected| && affected[k] == rest.value
        && forall j :: 0 <= j < k ==> affected[j].direction != direction) by {
        if rest.Some? {
          var k :| 0 <= k < |affected| - 1 && affected[1..][k] == rest.value
            && forall j :: 0 <= j < k ==> affected[1..][j].direction != direction;
          assert forall j :: 1 <= j < k + 1 ==> affected[j] == affected[1..][j - 1];
        }
      }
      rest
  }

  /** The cell one unit away in a direction, with no crossing. */
  function UnitStep(x: int, y: int, direction: Direction): (int, int)
  {
    (x + Unit(direction).0, y + Unit(direction).1)
  }

  /** next_cell: cross onto the partner run when an id at the cell acts on the direction, else step. */
  function NextCell(S: int, x: int, y: int, direction: Direction): (int, int)
    requires S >= 1 && InRange(S, x, y)
  {
    var affected := AffectedDirections(EdgesFromPoint(S, x, y));
    match FirstAffecting(affected, direction)
    case Some(eff) =>
      ParseEdgeEffectOfEdge(eff.edge);
      ProcessAffectedDirection(S, x, y, eff.swap, eff.invert, eff.edge)
    case None => UnitStep(x, y, direction)
  }

  // ---------------------------------------------------------------------------
  // Runs of cells and crossings
  // ---------------------------------------------------------------------------

  /** The cells of a run, written out from the reference reading of its id. */
  lemma RunCellShape(S: int, e: int, k: int)
    requires S >= 1 && IsEdge(e)
    ensures RunCell(S, e, k) == LocationCell(S, Geometry(e).loc, k)
  {
    OffsetShape(S, e);
  }

  /** The cell at position k of a run placed at l, by blocks. */
  function LocationCell(S: int, l: Location, k: int): (int, int)
  {
    if l.lock == X then (LinePosition(S, l), S * l.freeBlock + k)
    else (S * l.freeBlock + k, LinePosition(S, l))
  }

  lemma LocationCellOnNet(S: int, l: Location, k: int)
    requires S >= 1 && WellPlaced(l) && 0 <= k < S
    ensures var p := LocationCell(S, l, k);
      && OnNet(S, p.0, p.1)
      && (l.lock == X ==> p.0 / S == Block(l) && p.1 / S == l.freeBlock && p.1 % S == k)
      && (l.lock == Y ==> p.1 / S == Block(l) && p.0 / S == l.freeBlock && p.0 % S == k)
      && (l.lock == X ==> p.0 % S == if Trailing(l) then S - 1 else 0)
      && (l.lock == Y ==> p.1 % S == if Trailing(l) then S - 1 else 0)
  {
    var p := LocationCell(S, l, k);
    var t := if Trailing(l) then S - 1 else 0;
    DivMod(S, Block(l), t);
    DivMod(S, l.freeBlock, k);
    if l.lock == X {
      BlockWithin(S, p.0, 4);
      BlockWithin(S, p.1, 3);
    } else {
      BlockWithin(S, p.0, 4);
      BlockWithin(S, p.1, 3);
    }
    OnNetByBlocks(S, p.0, p.1);
  }

  /** The runs of all 24 ids lie on the net. */
  lemma RunCellOnNet(S: int, e: int, k: int)
    requires S >= 1 && IsEdge(e) && 0 <= k < S
    ensures OnNet(S, RunCell(S, e, k).0, RunCell(S, e, k).1)
  {
    RunCellShape(S, e, k);
    GeometryWellPlaced(e);
    LocationCellOnNet(S, Geometry(e).loc, k);
  }

  /**
   * The movement, from a cell of its run, that crosses an id's line: that id is
   * then the one edges_from_point reports for it. The free coordinate's offset
   * inside the face is the position on the run.
   */
  function CrossingEdge(S: int, x: int, y: int, direction: Direction): Option<int>
    requires S >= 1 && InRange(S, x, y)
  {
    match direction
    case Left => if x % S == 0 then ColumnEdge(S, x, y) else None
    case Right => if x % S == S - 1 then ColumnEdge(S, x, y) else None
    case Up => if y % S == 0 then RowEdge(S, x, y) else None
    case Down => if y % S == S - 1 then RowEdge(S, x, y) else None
  }

  /** Where on the run of e the cell (x, y) sits: its offset inside the face along the free axis. */
  function RunPosition(S: int, x: int, y: int, e: int): int
    requires S >= 1
  {
    if Geometry(e).loc.lock == X then y % S else x % S
  }

  /** The column test at a cell of an X run placed at l finds the id held there; the row test likewise for a Y run. */
  lemma LocationCellEdge(S: int, l: Location, k: int, e: int)
    requires S >= 2 && WellPlaced(l) && HoldsAt(l, e) && 0 <= k < S
    ensures var p := LocationCell(S, l, k);
      && InRange(S, p.0, p.1)
      && (l.lock == X ==> ColumnEdge(S, p.0, p.1) == Some(e))
      && (l.lock == Y ==> RowEdge(S, p.0, p.1) == Some(e))
  {
    LocationCellOnNet(S, l, k);
    var p := LocationCell(S, l, k);
    TrailingTest(S, p.0);
    TrailingTest(S, p.1);
    if l.lock == X {
      assert ColumnSet(S, p.0) == Some(l.index);
    } else {
      assert RowSet(S, p.1) == Some(l.index);
    }
  }

  /** Every cell of a run reports its id, in the direction that crosses it, at the position it has on the run. */
  lemma RunCellCrossing(S: int, e: int, k: int)
    requires S >= 2 && IsEdge(e) && 0 <= k < S
    ensures var p := RunCell(S, e, k);
      && InRange(S, p.0, p.1)
      && CrossingEdge(S, p.0, p.1, CrossingDirection(Geometry(e).loc)) == Some(e)
      && e in EdgesFromPoint(S, p.0, p.1)
      && RunPosition(S, p.0, p.1, e) == k
  {
    RunCellShape(S, e, k);
    GeometryPlacesEdge(e);
    GeometryWellPlaced(e);
    var l := Geometry(e).loc;
    LocationCellOnNet(S, l, k);
    LocationCellEdge(S, l, k, e);
  }

  /** A net cell whose column test finds a set lies at its offset on the run placed at that set. */
  lemma ColumnCellAt(S: int, x: int, y: int, l: Location)
    requires S >= 2 && OnNet(S, x, y) && ColumnSet(S, x).Some?
    requires l.lock == X && l.index == ColumnSet(S, x).value && (x % S == 0 <==> !Trailing(l))
    requires (|SetAt(X, l.index)| == 1 <==> Block(l) != 1)
    requires l.freeBlock == if |SetAt(X, l.index)| == 1 then 1 else y / S
    ensures (x, y) == LocationCell(S, l, y % S)
  {
    OnNetByBlocks(S, x, y);
    TrailingTest(S, x);
    assert Block(l) == x / S;
  }

  lemma RowCellAt(S: int, x: int, y: int, l: Location)
    requires S >= 2 && OnNet(S, x, y) && RowSet(S, y).Some?
    requires l.lock == Y && l.index == RowSet(S, y).value && (y % S == 0 <==> !Trailing(l))
    requires (|SetAt(Y, l.index)| == 1 <==> Block(l) != 1)
    requires l.freeBlock == if |SetAt(Y, l.index)| == 1 then 1 else x / S
    ensures (x, y) == LocationCell(S, l, x % S)
  {
    OnNetByBlocks(S, x, y);
    TrailingTest(S, y);
    assert Block(l) == y / S;
  }

  /** A crossing found at a net cell is over an id whose crossing direction it is, and the cell lies on that id's run. */
  lemma CrossingOnRun(S: int, x: int, y: int, direction: Direction)
    requires S >= 2 && OnNet(S, x, y) && CrossingEdge(S, x, y, direction).Some?
    ensures var e := CrossingEdge(S, x, y, direction).value;
      && IsEdge(e)
      && CrossingDirection(Geometry(e).loc) == direction
      && 0 <= RunPosition(S, x, y, e) < S
      && (x, y) == RunCell(S, e, RunPosition(S, x, y, e))
  {
    var e := CrossingEdge(S, x, y, direction).value;
    if direction == Left || direction == Right {
      ColumnEdgeGeometry(S, x, y);
      GeometryPlacesEdge(e);
      ColumnCellAt(S, x, y, Geometry(e).loc);
    } else {
      RowEdgeGeometry(S, x, y);
      GeometryPlacesEdge(e);
      RowCellAt(S, x, y, Geometry(e).loc);
    }
    RunCellShape(S, e, RunPosition(S, x, y, e));
  }

  /** The position on the target run that process_affected_direction picks: the offset left on the target's free axis. */
  function PositionAfter(S: int, x: int, y: int, switch: bool, invert: bool, targetLock: Axis): int
    requires S >= 1
  {
    var (sx, sy) := if switch then (y % S, x % S) else (x % S, y % S);
    var (ix, iy) := if invert then (S - 1 - sx, S - 1 - sy) else (sx, sy);
    if targetLock == X then iy else ix
  }

  lemma ProcessShape(S: int, x: int, y: int, switch: bool, invert: bool, e: int)
    requires S >= 1 && IsEdge(e)
    ensures FindNextEdge(e).Some? && IsEdge(FindNextEdge(e).value)
    ensures var t := FindNextEdge(e).value;
      OffsetFromEdge(S, t).Some? &&
      ProcessAffectedDirection(S, x, y, switch, invert, e)
        == RunCell(S, t, PositionAfter(S, x, y, switch, invert, OffsetFromEdge(S, t).value.2))
  {
    FindNextEdgeInvolution(e);
    var t := FindNextEdge(e).value;
    OffsetFound(S, t);
    LandingOnRun(S, x, y, switch, invert, OffsetFromEdge(S, t).value);
  }

  /** The target's locked axis, as offset_from_edge reports it, is the one the reference records. */
  lemma OffsetLock(S: int, e: int)
    requires S >= 1 && IsEdge(e)
    ensures OffsetFromEdge(S, e).Some? && OffsetFromEdge(S, e).value.2 == Geometry(e).loc.lock
  {
    OffsetShape(S, e);
  }

  /**
   * The relative coordinates stay inside a face through the swap and the
   * reflection, so process_affected_direction lands on a cell of the partner's
   * run: on the net, and reporting the partner id in edges_from_point.
   */
  lemma ProcessLandsOnRun(S: int, x: int, y: int, switch: bool, invert: bool, e: int)
    requires S >= 2 && IsEdge(e)
    ensures FindNextEdge(e).Some? && IsEdge(FindNextEdge(e).value)
    ensures var t := FindNextEdge(e).value;
      var k := PositionAfter(S, x, y, switch, invert, Geometry(t).loc.lock);
      var p := ProcessAffectedDirection(S, x, y, switch, invert, e);
      && 0 <= k < S
      && p == RunCell(S, t, k)
      && OnNet(S, p.0, p.1)
      && t in EdgesFromPoint(S, p.0, p.1)
  {
    FindNextEdgeOfEdge(e);
    ProcessShape(S, x, y, switch, invert, e);
    var t := Geometry(e).partner;
    OffsetLock(S, t);
    var k := PositionAfter(S, x, y, switch, invert, Geometry(t).loc.lock);
    RunCellShape(S, t, k);
    RunCellOnNet(S, t, k);
    RunCellCrossing(S, t, k);
  }

  /** Crossing with a row's flags from position k of a run on one axis to a run on the other axis (when swapping) or the same. */
  lemma PositionAfterOnRun(S: int, l: Location, targetLock: Axis, invert: bool, k: int)
    requires S >= 1 && WellPlaced(l) && 0 <= k < S
    ensures var p := LocationCell(S, l, k);
      PositionAfter(S, p.0, p.1, l.lock != targetLock, invert, targetLock) == Flip(S, invert, k)
  {
    LocationCellOnNet(S, l, k);
  }

  /**
   * Crossing from position k of a run lands on position k of the partner's run,
   * or on position S - 1 - k when the row inverts.
   */
  lemma ProcessOnRun(S: int, e: int, k: int)
    requires S >= 1 && IsEdge(e) && 0 <= k < S
    ensures var p := RunCell(S, e, k);
      && IsEdge(Geometry(e).partner)
      && ProcessAffectedDirection(S, p.0, p.1, Geometry(e).swap, Geometry(e).invert, e)
         == RunCell(S, Geometry(e).partner, Flip(S, Geometry(e).invert, k))
  {
    var p := RunCell(S, e, k);
    var g := Geometry(e);
    PartnerInvolution(e);
    RunCellShape(S, e, k);
    GeometryWellPlaced(e);
    FindNextEdgeOfEdge(e);
    ProcessShape(S, p.0, p.1, g.swap, g.invert, e);
    OffsetLock(S, g.partner);
    PositionAfterOnRun(S, g.loc, Geometry(g.partner).loc.lock, g.invert, k);
  }

  /** The effect of a column id acts on LEFT over a leading column and RIGHT over a trailing one. */
  lemma ColumnEffect(S: int, x: int, y: int)
    requires S >= 1 && InRange(S, x, y) && ColumnEdge(S, x, y).Some?
    ensures var c := ColumnEdge(S, x, y).value;
      && ParseEdgeEffect(c).Some?
      && ParseEdgeEffect(c).value.direction == (if x % S == 0 then Left else Right)
      && ParseEdgeEffect(c).value.edge == c && IsEdge(c)
  {
    ColumnEdgeGeometry(S, x, y);
    GeometryAgrees(ColumnEdge(S, x, y).value);
  }

  /** The effect of a row id acts on UP over a leading row and DOWN over a trailing one. */
  lemma RowEffect(S: int, x: int, y: int)
    requires S >= 1 && InRange(S, x, y) && RowEdge(S, x, y).Some?
    ensures var c := RowEdge(S, x, y).value;
      && ParseEdgeEffect(c).Some?
      && ParseEdgeEffect(c).value.direction == (if y % S == 0 then Up else Down)
      && ParseEdgeEffect(c).value.edge == c && IsEdge(c)
  {
    RowEdgeGeometry(S, x, y);
    GeometryAgrees(RowEdge(S, x, y).value);
  }

  /** The effects of an optional id: none, or the one parse_edge_effect gives. */
  function EffectOf(o: Option<int>): seq<Effect>
  {
    match o
    case Some(c) => if ParseEdgeEffect(c).Some? then [ParseEdgeEffect(c).value] else []
    case None => []
  }

  lemma AffectedOfTwo(a: Option<int>, b: Option<int>)
    ensures AffectedDirections(Listed(a) + Listed(b)) == EffectOf(a) + EffectOf(b)
  {
    var l := Listed(a) + Listed(b);
    if a.Some? {
      assert l[1..] == Listed(b);
      if b.Some? {
        assert l[1..][1..] == [];
      }
    } else if b.Some? {
      assert l[1..] == [];
    }
  }

  lemma FirstOfTwo(p: seq<Effect>, q: seq<Effect>, direction: Direction)
    requires |p| <= 1 && |q| <= 1
    ensures FirstAffecting(p + q, direction) ==
      if p != [] && p[0].direction == direction then Some(p[0])
      else if q != [] && q[0].direction == direction then Some(q[0])
      else None
  {
    if p != [] {
      assert (p + q)[1..] == q;
      if q != [] {
        assert q[1..] == [];
      }
    } else if q != [] {
      assert (p + q) == q && q[1..] == [];
    }
  }

  /**
   * next_cell crosses exactly when the cell lies on the first or last line of its
   * face in the direction of movement, over the id found there; otherwise it
   * takes a unit step.
   */
  lemma NextCellCases(S: int, x: int, y: int, direction: Direction)
    requires S >= 2 && InRange(S, x, y)
    ensures CrossingEdge(S, x, y, direction).Some? ==>
      var e := CrossingEdge(S, x, y, direction).value;
      && IsEdge(e) && ParseEdgeEffect(e).Some?
      && NextCell(S, x, y, direction) ==
         ProcessAffectedDirection(S, x, y, ParseEdgeEffect(e).value.swap, ParseEdgeEffect(e).value.invert, e)
    ensures CrossingEdge(S, x, y, direction).None? ==> NextCell(S, x, y, direction) == UnitStep(x, y, direction)
  {
    var col, row := ColumnEdge(S, x, y), RowEdge(S, x, y);
    EdgesFromPointShape(S, x, y);
    AffectedOfTwo(col, row);
    FirstOfTwo(EffectOf(col), EffectOf(row), direction);
    if col.Some? {
      ColumnEffect(S, x, y);
    }
    if row.Some? {
      RowEffect(S, x, y);
    }
  }

  /** A unit move that does not leave the block keeps the block and shifts the offset inside it. */
  lemma MoveInsideBlock(S: int, v: int, delta: int)
    requires S >= 1 && (delta == -1 || delta == 1)
    requires delta == -1 ==> v % S != 0
    requires delta == 1 ==> v % S != S - 1
    ensures (v + delta) / S == v / S && (v + delta) % S == v % S + delta
  {
    DivMod(S, v / S, v % S + delta);
  }

  /** A unit step that crosses nothing stays on the net, and the opposite step from there crosses nothing either. */
  lemma StepWithinFace(S: int, x: int, y: int, direction: Direction)
    requires S >= 2 && OnNet(S, x, y) && CrossingEdge(S, x, y, direction).None?
    ensures var q := UnitStep(x, y, direction);
      && OnNet(S, q.0, q.1)
      && CrossingEdge(S, q.0, q.1, Opposite(direction)).None?
  {
    EdgesFromPointShape(S, x, y);
    OnNetByBlocks(S, x, y);
    var q := UnitStep(x, y, direction);
    match direction {
      case Left =>
        MoveInsideBlock(S, x, -1);
        BlockWithin(S, q.0, 4);
      case Right =>
        MoveInsideBlock(S, x, 1);
        BlockWithin(S, q.0, 4);
      case Up =>
        MoveInsideBlock(S, y, -1);
        BlockWithin(S, q.1, 3);
      case Down =>
        MoveInsideBlock(S, y, 1);
        BlockWithin(S, q.1, 3);
    }
    OnNetByBlocks(S, q.0, q.1);
  }

  // ---------------------------------------------------------------------------
  // next_cell on the folded cube
  // ---------------------------------------------------------------------------

  /** A crossing from a net cell, written out on runs: from position k of e to the partner's position Flip(k). */
  lemma CrossingLands(S: int, x: int, y: int, direction: Direction)
    requires S >= 2 && OnNet(S, x, y) && CrossingEdge(S, x, y, direction).Some?
    ensures var e := CrossingEdge(S, x, y, direction).value;
      && IsEdge(e) && IsEdge(Geometry(e).partner)
      && 0 <= RunPosition(S, x, y, e) < S
      && NextCell(S, x, y, direction) ==
         RunCell(S, Geometry(e).partner, Flip(S, Geometry(e).invert, RunPosition(S, x, y, e)))
  {
    var e := CrossingEdge(S, x, y, direction).value;
    NextCellCases(S, x, y, direction);
    CrossingOnRun(S, x, y, direction);
    GeometryAgrees(e);
    ProcessOnRun(S, e, RunPosition(S, x, y, e));
  }

  /** For S >= 2, next_cell never leaves the net: the property the debugging dump of cubeMaze.py looks for. */
  lemma NextCellLands(S: int, x: int, y: int, direction: Direction)
    requires S >= 2 && OnNet(S, x, y)
    ensures OnNet(S, NextCell(S, x, y, direction).0, NextCell(S, x, y, direction).1)
  {
    NextCellCases(S, x, y, direction);
    if CrossingEdge(S, x, y, direction).Some? {
      var e := CrossingEdge(S, x, y, direction).value;
      CrossingLands(S, x, y, direction);
      RunCellOnNet(S, Geometry(e).partner, Flip(S, Geometry(e).invert, RunPosition(S, x, y, e)));
    } else {
      StepWithinFace(S, x, y, direction);
    }
  }

  /** From the landing cell on the partner's run, the partner's crossing direction leads back to position k of e. */
  lemma RunReturn(S: int, e: int, k: int)
    requires S >= 2 && IsEdge(e) && 0 <= k < S
    ensures IsEdge(Geometry(e).partner)
    ensures var e' := Geometry(e).partner;
      var q := RunCell(S, e', Flip(S, Geometry(e).invert, k));
      && InRange(S, q.0, q.1) && e' in EdgesFromPoint(S, q.0, q.1)
      && ParseEdgeEffect(e').Some?
      && NextCell(S, q.0, q.1, ParseEdgeEffect(e').value.direction) == RunCell(S, e, k)
  {
    PartnerInvolution(e);
    var e' := Geometry(e).partner;
    var k' := Flip(S, Geometry(e).invert, k);
    GeometryAgrees(e');
    RunCellCrossing(S, e', k');
    var q := RunCell(S, e', k');
    NextCellCases(S, q.0, q.1, CrossingDirection(Geometry(e').loc));
    ProcessOnRun(S, e', k');
  }

  lemma ReturnAfterCrossing(S: int, x: int, y: int, direction: Direction)
    requires S >= 2 && OnNet(S, x, y) && CrossingEdge(S, x, y, direction).Some?
    ensures IsEdge(CrossingEdge(S, x, y, direction).value)
    ensures var e := CrossingEdge(S, x, y, direction).value;
      var e' := Geometry(e).partner;
      var q := NextCell(S, x, y, direction);
      && FindNextEdge(e) == Some(e')
      && InRange(S, q.0, q.1) && e' in EdgesFromPoint(S, q.0, q.1)
      && ParseEdgeEffect(e').Some?
      && NextCell(S, q.0, q.1, ParseEdgeEffect(e').value.direction) == (x, y)
  {
    var e := CrossingEdge(S, x, y, direction).value;
    CrossingLands(S, x, y, direction);
    CrossingOnRun(S, x, y, direction);
    FindNextEdgeOfEdge(e);
    RunReturn(S, e, RunPosition(S, x, y, e));
  }

  lemma ReturnAfterStep(S: int, x: int, y: int, direction: Direction)
    requires S >= 2 && OnNet(S, x, y) && CrossingEdge(S, x, y, direction).None?
    ensures var q := NextCell(S, x, y, direction);
      && q == UnitStep(x, y, direction) && InRange(S, q.0, q.1)
      && NextCell(S, q.0, q.1, Opposite(direction)) == (x, y)
  {
    NextCellCases(S, x, y, direction);
    var q := NextCell(S, x, y, direction);
    StepWithinFace(S, x, y, direction);
    NextCellCases(S, q.0, q.1, Opposite(direction));
    OppositeInvolution(direction);
  }

  /**
   * The reverse traversal. After a crossing over e, the cell reached reports e's
   * partner, and moving from it in the direction parse_edge_effect gives for the
   * partner comes back. After a plain step, the opposite direction comes back.
   */
  lemma NextCellReturnTrip(S: int, x: int, y: int, direction: Direction)
    requires S >= 2 && OnNet(S, x, y)
    ensures OnNet(S, NextCell(S, x, y, direction).0, NextCell(S, x, y, direction).1)
    ensures var q := NextCell(S, x, y, direction);
      CrossingEdge(S, x, y, direction).Some? ==>
        var e' := Geometry(CrossingEdge(S, x, y, direction).value).partner;
        && FindNextEdge(CrossingEdge(S, x, y, direction).value) == Some(e')
        && e' in EdgesFromPoint(S, q.0, q.1)
        && ParseEdgeEffect(e').Some?
        && NextCell(S, q.0, q.1, ParseEdgeEffect(e').value.direction) == (x, y)
    ensures var q := NextCell(S, x, y, direction);
      CrossingEdge(S, x, y, direction).None? ==>
        q == UnitStep(x, y, direction) && NextCell(S, q.0, q.1, Opposite(direction)) == (x, y)
  {
    NextCellLands(S, x, y, direction);
    if CrossingEdge(S, x, y, direction).Some? {
      ReturnAfterCrossing(S, x, y, direction);
    } else {
      ReturnAfterStep(S, x, y, direction);
    }
  }

  /** Adjacency on the cube is symmetric: every cell reached from a net cell has a direction leading back. */
  lemma NextCellSymmetric(S: int, x: int, y: int, direction: Direction)
    requires S >= 2 && OnNet(S, x, y)
    ensures var q := NextCell(S, x, y, direction);
      InRange(S, q.0, q.1) && exists back: Direction :: NextCell(S, q.0, q.1, back) == (x, y)
  {
    NextCellReturnTrip(S, x, y, direction);
  }

  // ---------------------------------------------------------------------------
  // The side-length sanity check (cubeMaze.py:23-24)
  // ---------------------------------------------------------------------------

  /** The source's check: only a side length of 0 is refused. */
  predicate SanityCheckAccepts(S: int)
  {
    S != 0
  }

  /** With S = 1 the check passes, yet a step to the right from the net cell (1, 0) leaves the net. */
  lemma SanityCheckAdmitsSideOne()
    ensures SanityCheckAccepts(1) && OnNet(1, 1, 0)
    ensures NextCell(1, 1, 0, Right) == (2, 0) && !OnNet(1, 2, 0)
  {
    assert ColumnSet(1, 1) == Some(1) && RowSet(1, 0) == Some(0);
    assert ColumnEdge(1, 1, 0) == Some(24) && RowEdge(1, 1, 0) == Some(1);
    assert EdgesFromPoint(1, 1, 0) == [24, 1];
    AgreesOn24();
    AgreesOn1();
    var affected := AffectedDirections([24, 1]);
    assert affected == [affected[0], affected[1]];
    assert affected[0].direction == Left && affected[1].direction == Up;
    assert FirstAffecting(affected, Right) == None;
  }

  /** The mapper's lemma needing fewest assumptions: every step from a net cell stays on the net. */
  lemma AllStepsLand(S: int)
    requires S >= 2
    ensures forall x, y, d: Direction :: OnNet(S, x, y) ==> OnNet(S, NextCell(S, x, y, d).0, NextCell(S, x, y, d).1)
  {
    forall x, y, d: Direction | OnNet(S, x, y)
      ensures OnNet(S, NextCell(S, x, y, d).0, NextCell(S, x, y, d).1)
    {
      NextCellLands(S, x, y, d);
    }
  }

  /** The corrected check: side lengths of at least 2, for which no step leaves the net. */
  predicate SideLengthSupported(S: int): (r: bool)
    ensures r ==> forall x, y, d: Direction :: OnNet(S, x, y) ==> OnNet(S, NextCell(S, x, y, d).0, NextCell(S, x, y, d).1)
  {
    if S >= 2 then AllStepsLand(S); true else false
  }

  /** A step up from the first cell of edge 1 crosses onto the last cell of edge 4, inverted. */
  lemma UpFromEdgeOne(S: int)
    requires S >= 2
    ensures NextCell(S, S, 0, Up) == (4 * S - 1, S)
  {
    AgreesOn1();
    assert Geometry(1) == EdgeGeometry(4, false, true, Location(Y, 0, 1));
    assert Geometry(4).loc == Location(Y, 1, 3);
    RunCellShape(S, 1, 0);
    RunCellShape(S, 4, S - 1);
    assert LocationCell(S, Location(Y, 1, 3), S - 1) == (4 * S - 1, S);
    assert RunCell(S, 1, 0) == (S, 0);
    ProcessOnRun(S, 1, 0);
    assert ProcessAffectedDirection(S, S, 0, false, true, 1) == (4 * S - 1, S);
    DivMod(S, 1, 0);
    DivMod(S, 0, 0);
    assert RowEdge(S, S, 0) == Some(1);
    assert CrossingEdge(S, S, 0, Up) == Some(1);
    NextCellCases(S, S, 0, Up);
  }

  /** A step down from the last cell of edge 4 stays on its face. */
  lemma DownFromEdgeFour(S: int)
    requires S >= 2
    ensures NextCell(S, 4 * S - 1, S, Down) == (4 * S - 1, S + 1)
  {
    DivMod(S, 1, 0);
    assert CrossingEdge(S, 4 * S - 1, S, Down) == None;
    NextCellCases(S, 4 * S - 1, S, Down);
  }

  /**
   * Why the return trip needs the partner's direction: a step up from (S, 0)
   * lands on (4S - 1, S), from where the opposite direction does not lead
   * back but the direction of edge 4 does.
   */
  lemma NaiveReturnFails(S: int)
    requires S >= 2
    ensures NextCell(S, S, 0, Up) == (4 * S - 1, S)
    ensures NextCell(S, 4 * S - 1, S, Opposite(Up)) != (S, 0)
    ensures NextCell(S, 4 * S - 1, S, ParseEdgeEffect(4).value.direction) == (S, 0)
  {
    UpFromEdgeOne(S);
    DownFromEdgeFour(S);
    AgreesOn1();
    DivMod(S, 1, 0);
    DivMod(S, 0, 0);
    assert RowEdge(S, S, 0) == Some(1);
    assert CrossingEdge(S, S, 0, Up) == Some(1);
    PointIsExcludedIff(S, S, 0);
    NextCellReturnTrip(S, S, 0, Up);
  }
}
