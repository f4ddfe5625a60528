/**
 * The fixed edge tables of the cube net (cubeMaze.py:35-65) and the three table
 * scans built on them: find_next_edge, parse_edge_effect and offset_from_edge.
 *
 * An edge id (1..24) names the first or last column or row of one face of the
 * net. The four edge-set tables say which ids sit on which line; the pairing
 * table says which two ids meet once the net is folded into a cube.
 */
module EdgeTables {
  import opened Wrappers
  import opened Directions

  /** The axis a run of edge cells is locked on ("x" or "y" in the source). */
  datatype Axis = X | Y

  /*
   * x_leading_edge[c] lists the ids on the first column of block column c, and
   * x_trailing_edge[c] those on its last column; a list of several ids is indexed
   * by the block row (y / side). The y tables are the same for rows.
   */
  const XLeadingEdge: seq<seq<int>> := [[18], [24, 21, 16], [10], [7]]
  const XTrailingEdge: seq<seq<int>> := [[20], [2, 11, 14], [8], [5]]
  const YLeadingEdge: seq<seq<int>> := [[1], [19, 22, 3, 4], [13]]
  const YTrailingEdge: seq<seq<int>> := [[23], [17, 12, 9, 6], [15]]

  /** One row of maze_edge_maps: two ids that meet, and the orientation string. */
  datatype EdgeMap = EdgeMap(first: int, second: int, orientation: string)

  const MazeEdgeMaps: seq<EdgeMap> := [
    EdgeMap(1, 4, "y+i"),
    EdgeMap(2, 3, "x+si"),
    EdgeMap(5, 18, "x+"),
    EdgeMap(6, 15, "y-i"),
    EdgeMap(7, 8, "x-"),
    EdgeMap(9, 14, "y-s"),
    EdgeMap(16, 17, "x-si"),
    EdgeMap(12, 13, "y-"),
    EdgeMap(19, 24, "y+s"),
    EdgeMap(20, 21, "x+"),
    EdgeMap(22, 23, "y+"),
    EdgeMap(11, 10, "x+")
  ]

  predicate IsEdge(e: int)
  {
    1 <= e <= 24
  }

  predicate Mentions(m: EdgeMap, e: int)
  {
    m.first == e || m.second == e
  }

  // ---------------------------------------------------------------------------
  // find_next_edge (cubeMaze.py:68-74)
  // ---------------------------------------------------------------------------

  /** The loop of find_next_edge from row i on: the partner in the first row naming the edge. */
  function FindNextEdgeFrom(i: nat, edge: int): (r: Option<int>)
    decreases |MazeEdgeMaps| - i
  {
    if i >= |MazeEdgeMaps| then None
    else if MazeEdgeMaps[i].first == edge then Some(MazeEdgeMaps[i].second)
    else if MazeEdgeMaps[i].second == edge then Some(MazeEdgeMaps[i].first)
    else FindNextEdgeFrom(i + 1, edge)
  }

  function FindNextEdge(edge: int): Option<int>
  {
    FindNextEdgeFrom(0, edge)
  }

  // ---------------------------------------------------------------------------
  // parse_edge_effect (cubeMaze.py:123-145)
  // ---------------------------------------------------------------------------

  /** The list [direction, swap, invert, edge] that parse_edge_effect returns. */
  datatype Effect = Effect(direction: Direction, swap: bool, invert: bool, edge: int)

  /**
   * The loop of parse_edge_effect from row i on. The first id of a row reads the
   * orientation forwards; the second reads it backwards, with the sign negated
   * when the row inverts and the axis exchanged when it swaps.
   */
  function ParseEdgeEffectFrom(i: nat, edge: int): (r: Option<Effect>)
    decreases |MazeEdgeMaps| - i
  {
    if i >= |MazeEdgeMaps| then None
    else
      var o := MazeEdgeMaps[i].orientation;
      var swap := 's' in o;
      var invert := 'i' in o;
      if edge == MazeEdgeMaps[i].first then
        var direction :=
          if 'x' in o then (if '+' in o then Right else Left)
          else (if '+' in o then Up else Down);
        Some(Effect(direction, swap, invert, edge))
      else if edge == MazeEdgeMaps[i].second then
        var sign := if 'i' in o then '-' else '+';
        var direction :=
          if ('x' in o && !swap) || ('y' in o && swap) then (if sign in o then Left else Right)
          else (if sign in o then Down else Up);
        Some(Effect(direction, swap, invert, edge))
      else ParseEdgeEffectFrom(i + 1, edge)
  }

  function ParseEdgeEffect(edge: int): Option<Effect>
  {
    ParseEdgeEffectFrom(0, edge)
  }

  // ---------------------------------------------------------------------------
  // offset_from_edge (cubeMaze.py:159-179)
  // ---------------------------------------------------------------------------

  /** How many sets `enumerate(x_leading_edge + x_trailing_edge)` (or the y pair) visits. */
  function NumSets(lock: Axis): nat
  {
    if lock == X then 8 else 6
  }

  /** Set number i of the concatenated leading and trailing tables of an axis. */
  function SetAt(lock: Axis, i: nat): seq<int>
    requires i < NumSets(lock)
  {
    if lock == X then (if i < 4 then XLeadingEdge[i] else XTrailingEdge[i - 4])
    else (if i < 3 then YLeadingEdge[i] else YTrailingEdge[i - 3])
  }

  /**
   * Where a scan of offset_from_edge stops: the table axis, the index i into the
   * concatenated tables, and the multiple of the side length it reports on the
   * free axis (1 for a one-id set, the member index j otherwise).
   */
  datatype Location = Location(lock: Axis, index: nat, freeBlock: nat)

  /** The inner loop `for j, edge_member in enumerate(edge_set)`. */
  function MemberFrom(lock: Axis, i: nat, j: nat, edge: int): Option<nat>
    requires i < NumSets(lock)
    decreases |SetAt(lock, i)| - j
  {
    if j >= |SetAt(lock, i)| then None
    else if SetAt(lock, i)[j] == edge then Some(j)
    else MemberFrom(lock, i, j + 1, edge)
  }

  /** The outer loop over the sets of one axis, from set i on. */
  function LocateFrom(lock: Axis, i: nat, edge: int): Option<Location>
    decreases NumSets(lock) - i
  {
    if i >= NumSets(lock) then None
    else if |SetAt(lock, i)| == 1 && SetAt(lock, i)[0] == edge then Some(Location(lock, i, 1))
    else match MemberFrom(lock, i, 0, edge)
      case Some(j) => Some(Location(lock, i, j))
      case None => LocateFrom(lock, i + 1, edge)
  }

  /** The x tables are scanned first, then the y tables. */
  function Locate(edge: int): Option<Location>
  {
    match LocateFrom(X, 0, edge)
    case Some(l) => Some(l)
    case None => LocateFrom(Y, 0, edge)
  }

  /** A location on the second (trailing) table of its axis. */
  predicate Trailing(l: Location)
  {
    if l.lock == X then l.index >= 4 else l.index >= 3
  }

  /** The block index along the locked axis: `i % 4` or `i % 3` in the source. */
  function Block(l: Location): nat
  {
    if l.lock == X then l.index % 4 else l.index % 3
  }

  /**
   * offset_from_edge: the origin (x, y) of the run of cells an id names, and its
   * locked axis. A trailing line sits at `side * (block + 1) - 1`.
   */
  function OffsetFromEdge(S: int, edge: int): Option<(int, int, Axis)>
  {
    match Locate(edge)
    case None => None
    case Some(l) =>
      if l.lock == X then
        var offset := if l.index >= 4 then 1 else 0;
        Some((S * (l.index % 4 + offset) - offset, S * l.freeBlock, X))
      else
        var offset := if l.index >= 3 then 1 else 0;
        Some((S * l.freeBlock, S * (l.index % 3 + offset) - offset, Y))
  }

  // ---------------------------------------------------------------------------
  // A reference reading of the net
  // ---------------------------------------------------------------------------

  /** What one id is: its partner, the flags of its row, and where it lies. */
  datatype EdgeGeometry = EdgeGeometry(partner: int, swap: bool, invert: bool, loc: Location)

  /**
   * Each id of the net drawn at cubeMaze.py:4-15, read off by hand: the id it
   * meets, the swap and invert flags of their row, and its place in the tables.
   * GeometryAgrees proves that the three scans compute exactly this.
   */
  function Geometry(e: int): EdgeGeometry
  {
    match e
    case 1 => EdgeGeometry(4, false, true, Location(Y, 0, 1))
    case 2 => EdgeGeometry(3, true, true, Location(X, 5, 0))
    case 3 => EdgeGeometry(2, true, true, Location(Y, 1, 2))
    case 4 => EdgeGeometry(1, false, true, Location(Y, 1, 3))
    case 5 => EdgeGeometry(18, false, false, Location(X, 7, 1))
    case 6 => EdgeGeometry(15, false, true, Location(Y, 4, 3))
    case 7 => EdgeGeometry(8, false, false, Location(X, 3, 1))
    case 8 => EdgeGeometry(7, false, false, Location(X, 6, 1))
    case 9 => EdgeGeometry(14, true, false, Location(Y, 4, 2))
    case 10 => EdgeGeometry(11, false, false, Location(X, 2, 1))
    case 11 => EdgeGeometry(10, false, false, Location(X, 5, 1))
    case 12 => EdgeGeometry(13, false, false, Location(Y, 4, 1))
    case 13 => EdgeGeometry(12, false, false, Location(Y, 2, 1))
    case 14 => EdgeGeometry(9, true, false, Location(X, 5, 2))
    case 15 => EdgeGeometry(6, false, true, Location(Y, 5, 1))
    case 16 => EdgeGeometry(17, true, true, Location(X, 1, 2))
    case 17 => EdgeGeometry(16, true, true, Location(Y, 4, 0))
    case 18 => EdgeGeometry(5, false, false, Location(X, 0, 1))
    case 19 => EdgeGeometry(24, true, false, Location(Y, 1, 0))
    case 20 => EdgeGeometry(21, false, false, Location(X, 4, 1))
    case 21 => EdgeGeometry(20, false, false, Location(X, 1, 1))
    case 22 => EdgeGeometry(23, false, false, Location(Y, 1, 1))
    case 23 => EdgeGeometry(22, false, false, Location(Y, 3, 1))
    case 24 => EdgeGeometry(19, true, false, Location(X, 1, 0))
    case _ => EdgeGeometry(0, false, false, Location(X, 0, 0))
  }

  /** The movement that crosses a line: left over a leading column, right over a trailing one, up and down for rows. */
  function CrossingDirection(l: Location): Direction
  {
    match l.lock
    case X => if Trailing(l) then Right else Left
    case Y => if Trailing(l) then Down else Up
  }

  /** The three scans, run on one id, give the reference answers. */
  predicate Agrees(e: int)
  {
    var g := Geometry(e);
    && FindNextEdge(e) == Some(g.partner)
    && ParseEdgeEffect(e) == Some(Effect(CrossingDirection(g.loc), g.swap, g.invert, e))
    && Locate(e) == Some(g.loc)
  }

  /* The scans are evaluated on each literal id in a lemma of its own, so that each evaluation stays small. */
  lemma AgreesOn1() ensures Agrees(1) {}
  lemma AgreesOn2() ensures Agrees(2) {}
  lemma AgreesOn3() ensures Agrees(3) {}
  lemma AgreesOn4() ensures Agrees(4) {}
  lemma AgreesOn5() ensures Agrees(5) {}
  lemma AgreesOn6() ensures Agrees(6) {}
  lemma AgreesOn7() ensures Agrees(7) {}
  lemma AgreesOn8() ensures Agrees(8) {}
  lemma AgreesOn9() ensures Agrees(9) {}
  lemma AgreesOn10() ensures Agrees(10) {}
  lemma AgreesOn11() ensures Agrees(11) {}
  lemma AgreesOn12() ensures Agrees(12) {}
  lemma AgreesOn13() ensures Agrees(13) {}
  lemma AgreesOn14() ensures Agrees(14) {}
  lemma AgreesOn15() ensures Agrees(15) {}
  lemma AgreesOn16() ensures Agrees(16) {}
  lemma AgreesOn17() ensures Agrees(17) {}
  lemma AgreesOn18() ensures Agrees(18) {}
  lemma AgreesOn19() ensures Agrees(19) {}
  lemma AgreesOn20() ensures Agrees(20) {}
  lemma AgreesOn21() ensures Agrees(21) {}
  lemma AgreesOn22() ensures Agrees(22) {}
  lemma AgreesOn23() ensures Agrees(23) {}
  lemma AgreesOn24() ensures Agrees(24) {}

  /** For every id 1..24 the scans of the source compute the reference reading. */
  lemma GeometryAgrees(e: int)
    requires IsEdge(e)
    ensures FindNextEdge(e) == Some(Geometry(e).partner)
    ensures ParseEdgeEffect(e) == Some(Effect(CrossingDirection(Geometry(e).loc), Geometry(e).swap, Geometry(e).invert, e))
    ensures Locate(e) == Some(Geometry(e).loc)
  {
    if e == 1 { AgreesOn1(); }
    else if e == 2 { AgreesOn2(); }
    else if e == 3 { AgreesOn3(); }
    else if e == 4 { AgreesOn4(); }
    else if e == 5 { AgreesOn5(); }
    else if e == 6 { AgreesOn6(); }
    else if e == 7 { AgreesOn7(); }
    else if e == 8 { AgreesOn8(); }
    else if e == 9 { AgreesOn9(); }
    else if e == 10 { AgreesOn10(); }
    else if e == 11 { AgreesOn11(); }
    else if e == 12 { AgreesOn12(); }
    else if e == 13 { AgreesOn13(); }
    else if e == 14 { AgreesOn14(); }
    else if e == 15 { AgreesOn15(); }
    else if e == 16 { AgreesOn16(); }
    else if e == 17 { AgreesOn17(); }
    else if e == 18 { AgreesOn18(); }
    else if e == 19 { AgreesOn19(); }
    else if e == 20 { AgreesOn20(); }
    else if e == 21 { AgreesOn21(); }
    else if e == 22 { AgreesOn22(); }
    else if e == 23 { AgreesOn23(); }
    else { AgreesOn24(); }
  }

  // ---------------------------------------------------------------------------
  // Facts about the reference reading
  // ---------------------------------------------------------------------------

  /** Pairing is a fixed-point-free involution on 1..24 that keeps the row's flags; swapping rows join lines of different axes. */
  lemma PartnerInvolution(e: int)
    requires IsEdge(e)
    ensures IsEdge(Geometry(e).partner) && Geometry(e).partner != e
    ensures Geometry(Geometry(e).partner).partner == e
    ensures Geometry(Geometry(e).partner).swap == Geometry(e).swap
    ensures Geometry(Geometry(e).partner).invert == Geometry(e).invert
    ensures Geometry(e).swap <==> Geometry(Geometry(e).partner).loc.lock != Geometry(e).loc.lock
  {
  }

  /**
   * The id a place holds: a set of the axis, and in it the single id of the set,
   * or the one at the free block for a set of several. A set holds several ids
   * exactly on the middle block of its axis; a single id then lies on the middle
   * block of the free axis.
   */
  predicate HoldsAt(l: Location, e: int)
  {
    && l.index < NumSets(l.lock)
    && (|SetAt(l.lock, l.index)| == 1 <==> Block(l) != 1)
    && (|SetAt(l.lock, l.index)| == 1 ==> SetAt(l.lock, l.index)[0] == e && l.freeBlock == 1)
    && (|SetAt(l.lock, l.index)| != 1 ==> l.freeBlock < |SetAt(l.lock, l.index)| && SetAt(l.lock, l.index)[l.freeBlock] == e)
  }

  lemma GeometryPlacesEdge(e: int)
    requires IsEdge(e)
    ensures HoldsAt(Geometry(e).loc, e)
    ensures |SetAt(Geometry(e).loc.lock, Geometry(e).loc.index)| in {1, if Geometry(e).loc.lock == X then 3 else 4}
  {
    if e <= 12 {
      PlacesLow(e);
    } else {
      PlacesHigh(e);
    }
  }

  lemma PlacesLow(e: int)
    requires 1 <= e <= 12
    ensures HoldsAt(Geometry(e).loc, e)
    ensures |SetAt(Geometry(e).loc.lock, Geometry(e).loc.index)| in {1, if Geometry(e).loc.lock == X then 3 else 4}
  {
  }

  lemma PlacesHigh(e: int)
    requires 13 <= e <= 24
    ensures HoldsAt(Geometry(e).loc, e)
    ensures |SetAt(Geometry(e).loc.lock, Geometry(e).loc.index)| in {1, if Geometry(e).loc.lock == X then 3 else 4}
  {
  }

  /**
   * A place a run can have: a set of its axis, and a block on the free axis
   * inside the grid, with the run on the middle block column or row.
   */
  predicate WellPlaced(l: Location)
  {
    && l.index < NumSets(l.lock)
    && l.freeBlock < (if l.lock == X then 3 else 4)
    && (Block(l) == 1 || l.freeBlock == 1)
  }

  lemma GeometryWellPlaced(e: int)
    requires IsEdge(e)
    ensures WellPlaced(Geometry(e).loc)
  {
  }

  /** Every member of the four edge-set tables is an id, and its place is the one the reference records. */
  lemma TableMember(lock: Axis, i: nat, j: nat)
    requires i < NumSets(lock) && j < |SetAt(lock, i)|
    ensures IsEdge(SetAt(lock, i)[j])
    ensures Geometry(SetAt(lock, i)[j]).loc == Location(lock, i, if |SetAt(lock, i)| == 1 then 1 else j)
  {
  }

  /** The four edge-set tables hold every id 1..24, and each at exactly one place. */
  lemma TableIdsExactlyOnce(e: int)
    ensures IsEdge(e) <==> exists lock: Axis, i: nat, j: nat :: i < NumSets(lock) && j < |SetAt(lock, i)| && SetAt(lock, i)[j] == e
    ensures forall lock: Axis, i: nat, j: nat, lock': Axis, i': nat, j': nat ::
      i < NumSets(lock) && j < |SetAt(lock, i)| && SetAt(lock, i)[j] == e &&
      i' < NumSets(lock') && j' < |SetAt(lock', i')| && SetAt(lock', i')[j'] == e ==>
      lock == lock' && i == i' && j == j'
  {
    forall lock: Axis, i: nat, j: nat | i < NumSets(lock) && j < |SetAt(lock, i)| && SetAt(lock, i)[j] == e
      ensures IsEdge(e)
    {
      TableMember(lock, i, j);
    }
    if IsEdge(e) {
      GeometryPlacesEdge(e);
      var l := Geometry(e).loc;
      var j := if |SetAt(l.lock, l.index)| == 1 then 0 else l.freeBlock;
      assert SetAt(l.lock, l.index)[j] == e;
    }
    forall lock: Axis, i: nat, j: nat, lock': Axis, i': nat, j': nat |
      i < NumSets(lock) && j < |SetAt(lock, i)| && SetAt(lock, i)[j] == e &&
      i' < NumSets(lock') && j' < |SetAt(lock', i')| && SetAt(lock', i')[j'] == e
      ensures lock == lock' && i == i' && j == j'
    {
      TableMember(lock, i, j);
      TableMember(lock', i', j');
    }
  }

  /** Row k of the pairing table, read against the reference: ids, partners and flags at both ends. */
  lemma PairingRow(k: nat)
    requires k < |MazeEdgeMaps|
    ensures var m := MazeEdgeMaps[k];
      && IsEdge(m.first) && IsEdge(m.second)
      && Geometry(m.first).partner == m.second && Geometry(m.second).partner == m.first
      && Geometry(m.first).swap == Geometry(m.second).swap == ('s' in m.orientation)
      && Geometry(m.first).invert == Geometry(m.second).invert == ('i' in m.orientation)
  {
  }

  /** No id is named by two rows of the pairing table. */
  lemma PairingRowsDisjoint(k: nat, k': nat)
    requires k < |MazeEdgeMaps| && k' < |MazeEdgeMaps| && k != k'
    ensures MazeEdgeMaps[k].first != MazeEdgeMaps[k'].first && MazeEdgeMaps[k].first != MazeEdgeMaps[k'].second
    ensures MazeEdgeMaps[k].second != MazeEdgeMaps[k'].first && MazeEdgeMaps[k].second != MazeEdgeMaps[k'].second
  {
  }

  // ---------------------------------------------------------------------------
  // Properties of the scans
  // ---------------------------------------------------------------------------

  /** A scan from row i answers only when some row from i on names the id. */
  lemma {:induction false} ScansNeedAMention(i: nat, edge: int)
    requires FindNextEdgeFrom(i, edge).Some? || ParseEdgeEffectFrom(i, edge).Some?
    ensures exists k :: i <= k < |MazeEdgeMaps| && Mentions(MazeEdgeMaps[k], edge)
    decreases |MazeEdgeMaps| - i
  {
    if !Mentions(MazeEdgeMaps[i], edge) {
      ScansNeedAMention(i + 1, edge);
    }
  }

  /** The pairing table names exactly the ids 1..24, each in exactly one row. */
  lemma PairingIdsExactlyOnce(e: int)
    ensures IsEdge(e) <==> exists k :: 0 <= k < |MazeEdgeMaps| && Mentions(MazeEdgeMaps[k], e)
    ensures forall k, k' ::
      (0 <= k < |MazeEdgeMaps| && 0 <= k' < |MazeEdgeMaps| &&
       Mentions(MazeEdgeMaps[k], e) && Mentions(MazeEdgeMaps[k'], e)) ==> k == k'
  {
    forall k | 0 <= k < |MazeEdgeMaps| && Mentions(MazeEdgeMaps[k], e)
      ensures IsEdge(e)
    {
      PairingRow(k);
    }
    if IsEdge(e) {
      GeometryAgrees(e);
      ScansNeedAMention(0, e);
    }
    forall k, k' | 0 <= k < |MazeEdgeMaps| && 0 <= k' < |MazeEdgeMaps| &&
      Mentions(MazeEdgeMaps[k], e) && Mentions(MazeEdgeMaps[k'], e)
      ensures k == k'
    {
      if k != k' {
        PairingRowsDisjoint(k, k');
      }
    }
  }

  /** find_next_edge is a fixed-point-free involution on 1..24 and finds nothing for any other value. */
  lemma FindNextEdgeInvolution(e: int)
    ensures IsEdge(e) ==>
      (FindNextEdge(e).Some? && IsEdge(FindNextEdge(e).value) &&
       FindNextEdge(e).value != e && FindNextEdge(FindNextEdge(e).value) == Some(e))
    ensures !IsEdge(e) ==> FindNextEdge(e) == None
  {
    if IsEdge(e) {
      GeometryAgrees(e);
      PartnerInvolution(e);
      GeometryAgrees(Geometry(e).partner);
    } else if FindNextEdge(e).Some? {
      ScansNeedAMention(0, e);
      PairingIdsExactlyOnce(e);
    }
  }

  /**
   * parse_edge_effect names the movement that leaves the net over an id: LEFT
   * for the x leading table, RIGHT for x trailing, UP for y leading and DOWN for
   * y trailing. Every other value has no effect.
   */
  lemma ParseEdgeEffectByTable(lock: Axis, i: nat, j: nat)
    requires i < NumSets(lock) && j < |SetAt(lock, i)|
    ensures ParseEdgeEffect(SetAt(lock, i)[j]).Some?
    ensures ParseEdgeEffect(SetAt(lock, i)[j]).value.edge == SetAt(lock, i)[j]
    ensures ParseEdgeEffect(SetAt(lock, i)[j]).value.direction ==
      match lock
      case X => if i < |XLeadingEdge| then Left else Right
      case Y => if i < |YLeadingEdge| then Up else Down
  {
    TableMember(lock, i, j);
    GeometryAgrees(SetAt(lock, i)[j]);
  }

  /** Both ends of a row read the same swap and invert flags: 's' and 'i' in its orientation. */
  lemma ParseEdgeEffectFlags(k: nat)
    requires k < |MazeEdgeMaps|
    ensures var m := MazeEdgeMaps[k];
      && ParseEdgeEffect(m.first).Some? && ParseEdgeEffect(m.second).Some?
      && ParseEdgeEffect(m.first).value.swap == ParseEdgeEffect(m.second).value.swap == ('s' in m.orientation)
      && ParseEdgeEffect(m.first).value.invert == ParseEdgeEffect(m.second).value.invert == ('i' in m.orientation)
  {
    PairingRow(k);
    GeometryAgrees(MazeEdgeMaps[k].first);
    GeometryAgrees(MazeEdgeMaps[k].second);
  }

  lemma ParseEdgeEffectNone(e: int)
    requires !IsEdge(e)
    ensures ParseEdgeEffect(e) == None
  {
    if ParseEdgeEffect(e).Some? {
      ScansNeedAMention(0, e);
      PairingIdsExactlyOnce(e);
    }
  }

  /** An effect exists only for an id of the net, and it is about that id. */
  lemma ParseEdgeEffectOfEdge(e: int)
    ensures ParseEdgeEffect(e).Some? <==> IsEdge(e)
    ensures ParseEdgeEffect(e).Some? ==> ParseEdgeEffect(e).value.edge == e
  {
    if IsEdge(e) {
      GeometryAgrees(e);
    } else {
      ParseEdgeEffectNone(e);
    }
  }

  /** find_next_edge of an id is the partner the reference records. */
  lemma FindNextEdgeOfEdge(e: int)
    requires IsEdge(e)
    ensures FindNextEdge(e) == Some(Geometry(e).partner) && IsEdge(Geometry(e).partner)
  {
    GeometryAgrees(e);
    PartnerInvolution(e);
  }
}
