/**
 * The randomized Prim's generator of cubeMaze.py:216-284: the initial grid, the
 * acceptance rule for carving a wall, and the step of the generator over the
 * grid, the wall list and the cell generated last.
 */
module Generator {
  import opened Wrappers
  import opened Directions
  import opened CubeNet

  /** A grid cell: None (not on the net), "W" (wall) or "P" (passage). */
  datatype Cell = Excluded | Wall | Passage

  // ---------------------------------------------------------------------------
  // fill_initial_maze and get_first_point (cubeMaze.py:17-20, 255-259)
  // ---------------------------------------------------------------------------

  function InitialCell(S: int, x: int, y: int): Cell
  {
    if !PointIsExcluded(S, x, y) then Wall else Excluded
  }

  /** fill_initial_maze: 4S columns of 3S cells, walls on the net and None elsewhere. */
  function FillInitialMaze(S: int): seq<seq<Cell>>
  {
    var width, height := if S > 0 then 4 * S else 0, if S > 0 then 3 * S else 0;
    seq(width, x => seq(height, y => InitialCell(S, x, y)))
  }

  /** The number of walls in a sequence of cells. */
  function CountWalls(s: seq<Cell>): nat
  {
    if s == [] then 0 else CountWalls(s[..|s| - 1]) + (if s[|s| - 1] == Wall then 1 else 0)
  }

  /** The number of walls in a grid, column by column. */
  function CountGridWalls(m: seq<seq<Cell>>): nat
  {
    if m == [] then 0 else CountGridWalls(m[..|m| - 1]) + CountWalls(m[|m| - 1])
  }

  /** The grid has the net's shape: cell [x][y] is a wall exactly off the excluded corners. */
  lemma FillInitialMazeShape(S: int)
    requires S >= 1
    ensures var m := FillInitialMaze(S);
      && |m| == 4 * S
      && (forall x :: 0 <= x < 4 * S ==> |m[x]| == 3 * S)
      && (forall x, y :: 0 <= x < 4 * S && 0 <= y < 3 * S ==>
            (m[x][y] == Wall <==> !PointIsExcluded(S, x, y)) && (m[x][y] == Wall || m[x][y] == Excluded))
  {
  }

  /** The walls of the first n cells of column x: all of them on the middle column, else those in the middle band. */
  lemma {:induction false} ColumnWalls(S: int, x: int, n: nat)
    requires S >= 1 && 0 <= x < 4 * S && n <= 3 * S
    ensures CountWalls(seq(n, y => InitialCell(S, x, y))) ==
      if InMiddle(S, x) then n else (if n <= S then 0 else if n <= 2 * S then n - S else S)
  {
    if n > 0 {
      var c := seq(n, y => InitialCell(S, x, y));
      assert c[..n - 1] == seq(n - 1, y => InitialCell(S, x, y));
      ColumnWalls(S, x, n - 1);
      PointIsExcludedIff(S, x, n - 1);
    }
  }

  /** The walls of the first n columns: S for each outer column and 3S for each middle one. */
  lemma {:induction false} GridWalls(S: int, n: nat)
    requires S >= 1 && n <= 4 * S
    ensures CountGridWalls(FillInitialMaze(S)[..n]) ==
      S * n + 2 * S * (if n <= S then 0 else if n <= 2 * S then n - S else S)
  {
    var m := FillInitialMaze(S);
    if n > 0 {
      assert m[..n][..n - 1] == m[..n - 1];
      GridWalls(S, n - 1);
      FullColumnWalls(S, n - 1);
      GridWallsStep(S, n);
    }
  }

  /** A whole column of the initial grid: 3S walls in the middle, S elsewhere. */
  lemma FullColumnWalls(S: int, x: int)
    requires S >= 1 && 0 <= x < 4 * S
    ensures CountWalls(FillInitialMaze(S)[x]) == if InMiddle(S, x) then 3 * S else S
  {
    assert FillInitialMaze(S)[x] == seq(3 * S, y => InitialCell(S, x, y));
    ColumnWalls(S, x, 3 * S);
  }

  /** The closed form of GridWalls grows by the count of column n - 1. */
  lemma GridWallsStep(S: int, n: int)
    requires S >= 1 && 1 <= n <= 4 * S
    ensures S * n + 2 * S * (if n <= S then 0 else if n <= 2 * S then n - S else S) ==
      S * (n - 1) + 2 * S * (if n - 1 <= S then 0 else if n - 1 <= 2 * S then n - 1 - S else S)
        + (if InMiddle(S, n - 1) then 3 * S else S)
  {
    assert S * n == S * (n - 1) + S;
    if S < n <= 2 * S {
      assert 2 * S * (n - S) == 2 * S * (n - 1 - S) + 2 * S;
    }
  }

  /** The initial grid holds exactly the 6S² cells of the six faces as walls. */
  lemma FillInitialMazeWalls(S: int)
    requires S >= 1
    ensures CountGridWalls(FillInitialMaze(S)) == 6 * S * S
  {
    GridWalls(S, 4 * S);
    assert FillInitialMaze(S)[..4 * S] == FillInitialMaze(S);
  }

  /** get_first_point: int(S * 1.5) twice, which is (3S)/2 while the floating-point product is exact (S up to 2^51). */
  function GetFirstPoint(S: int): (r: (int, int))
    ensures S >= 1 ==> OnNet(S, r.0, r.1) && InMiddle(S, r.0) && InMiddle(S, r.1)
  {
    FirstPointOnNet(S);
    ((3 * S) / 2, (3 * S) / 2)
  }

  /** The first point is the centre of the middle face, so on the net. */
  lemma FirstPointOnNet(S: int)
    ensures S >= 1 ==> OnNet(S, (3 * S) / 2, (3 * S) / 2) && InMiddle(S, (3 * S) / 2)
  {
    if S >= 1 {
      PointIsExcludedIff(S, (3 * S) / 2, (3 * S) / 2);
    }
  }

  // ---------------------------------------------------------------------------
  // wall_neighbors, has_front_diagonal_neighbors, wall_can_become_passage
  // (cubeMaze.py:216-243)
  // ---------------------------------------------------------------------------

  predicate InGrid(g: array2<Cell>, c: (int, int))
  {
    0 <= c.0 < g.Length0 && 0 <= c.1 < g.Length1
  }

  /** A grid laid out as fill_initial_maze lays it out, where only walls and passages may have changed. */
  ghost predicate Shaped(g: array2<Cell>, S: int)
    reads g
  {
    && g.Length0 == 4 * S && g.Length1 == 3 * S
    && forall x, y :: 0 <= x < 4 * S && 0 <= y < 3 * S ==> (g[x, y] == Excluded <==> PointIsExcluded(S, x, y))
  }

  /** The four cells next_cell gives, in the order Direction enumerates: UP, RIGHT, DOWN, LEFT. */
  function Neighbors(S: int, x: int, y: int): (r: seq<(int, int)>)
    requires S >= 2 && OnNet(S, x, y)
    ensures |r| == 4
    ensures forall i :: 0 <= i < 4 ==> r[i] == NextCell(S, x, y, AllDirections[i]) && OnNet(S, r[i].0, r[i].1)
  {
    NeighborsLand(S, x, y);
    seq(4, i requires 0 <= i < 4 => NextCell(S, x, y, AllDirections[i]))
  }

  /** Every neighbour of a net cell is a net cell. */
  lemma NeighborsLand(S: int, x: int, y: int)
    requires S >= 2 && OnNet(S, x, y)
    ensures forall d: Direction :: OnNet(S, NextCell(S, x, y, d).0, NextCell(S, x, y, d).1)
  {
    forall d: Direction {
      NextCellLands(S, x, y, d);
    }
  }

  /** The cells of the list that are walls, in order. */
  function WallsAmong(g: array2<Cell>, cells: seq<(int, int)>): (r: seq<(int, int)>)
    reads g
    requires forall c <- cells :: 0 <= c.0 < g.Length0 && 0 <= c.1 < g.Length1
    ensures |r| == |set i | 0 <= i < |cells| && g[cells[i].0, cells[i].1] == Wall|
    ensures |r| <= |cells|
    ensures forall c <- r :: c in cells && g[c.0, c.1] == Wall
    ensures forall c <- cells :: g[c.0, c.1] == Wall ==> c in r
    ensures |r| == |cells| <==> forall c <- cells :: g[c.0, c.1] == Wall
  {
    if cells == [] then []
    else
      var n := |cells| - 1;
      assert cells == cells[..n] + [cells[n]];
      var rest := WallsAmong(g, cells[..n]);
      WallIndicesGrow(g, cells);
      if g[cells[n].0, cells[n].1] == Wall then rest + [cells[n]] else rest
  }

  /** The wall indices of a list are those of its front part, and its last index when that cell is a wall. */
  lemma WallIndicesGrow(g: array2<Cell>, cells: seq<(int, int)>)
    requires cells != []
    requires forall c <- cells :: 0 <= c.0 < g.Length0 && 0 <= c.1 < g.Length1
    ensures var n := |cells| - 1;
      |set i | 0 <= i < |cells| && g[cells[i].0, cells[i].1] == Wall| ==
      |set i | 0 <= i < |cells[..n]| && g[cells[..n][i].0, cells[..n][i].1] == Wall|
        + (if g[cells[n].0, cells[n].1] == Wall then 1 else 0)
  {
    var n := |cells| - 1;
    var all := set i | 0 <= i < |cells| && g[cells[i].0, cells[i].1] == Wall;
    var front := set i | 0 <= i < |cells[..n]| && g[cells[..n][i].0, cells[..n][i].1] == Wall;
    if g[cells[n].0, cells[n].1] == Wall {
      assert all == front + {n};
    } else {
      assert all == front;
    }
  }

  /** wall_neighbors: the neighbours of a net cell that are walls. */
  function WallNeighbors(g: array2<Cell>, S: int, x: int, y: int): (r: seq<(int, int)>)
    reads g
    requires S >= 2 && g.Length0 == 4 * S && g.Length1 == 3 * S && OnNet(S, x, y)
    ensures |r| == |set i | 0 <= i < 4 && g[Neighbors(S, x, y)[i].0, Neighbors(S, x, y)[i].1] == Wall|
    ensures forall c <- r :: OnNet(S, c.0, c.1) && g[c.0, c.1] == Wall
    ensures forall c <- Neighbors(S, x, y) :: g[c.0, c.1] == Wall ==> c in r
    ensures |r| == 4 <==> forall c <- Neighbors(S, x, y) :: g[c.0, c.1] == Wall
  {
    WallsAmong(g, Neighbors(S, x, y))
  }

  /** A passage lies in direction d of a net cell. */
  predicate PassageAt(g: array2<Cell>, S: int, x: int, y: int, d: Direction)
    reads g
    requires S >= 1 && InRange(S, x, y)
  {
    InGrid(g, NextCell(S, x, y, d)) && g[NextCell(S, x, y, d).0, NextCell(S, x, y, d).1] == Passage
  }

  /** The first direction, from AllDirections[i] on, with a passage next to the cell. */
  function FirstPassageFrom(g: array2<Cell>, S: int, x: int, y: int, i: nat): (r: Option<Direction>)
    reads g
    requires S >= 1 && InRange(S, x, y) && i <= 4
    decreases 4 - i
    ensures r.Some? ==> PassageAt(g, S, x, y, r.value) && Value(r.value) >= i
    ensures r.Some? ==> forall j :: i <= j < Value(r.value) ==> !PassageAt(g, S, x, y, AllDirections[j])
    ensures r.None? <==> forall j :: i <= j < 4 ==> !PassageAt(g, S, x, y, AllDirections[j])
  {
    if i == 4 then None
    else if PassageAt(g, S, x, y, AllDirections[i]) then Some(AllDirections[i])
    else FirstPassageFrom(g, S, x, y, i + 1)
  }

  /** The direction back to the first passage next to a cell (the loop at the head of has_front_diagonal_neighbors). */
  function BackDirection(g: array2<Cell>, S: int, x: int, y: int): (r: Direction)
    reads g
    requires S >= 1 && InRange(S, x, y)
    requires exists d: Direction :: PassageAt(g, S, x, y, d)
    ensures PassageAt(g, S, x, y, r)
    ensures forall j :: 0 <= j < Value(r) ==> !PassageAt(g, S, x, y, AllDirections[j])
  {
    assert FirstPassageFrom(g, S, x, y, 0).Some? by {
      var d: Direction :| PassageAt(g, S, x, y, d);
      assert AllDirections[Value(d)] == d;
    }
    FirstPassageFrom(g, S, x, y, 0).value
  }

  /**
   * The two cells has_front_diagonal_neighbors inspects around the cell ahead:
   * its neighbours on either side across the direction of travel.
   */
  function AcrossCells(S: int, x: int, y: int, travel: Direction): (r: ((int, int), (int, int)))
    requires S >= 2 && OnNet(S, x, y)
    ensures OnNet(S, r.0.0, r.0.1) && OnNet(S, r.1.0, r.1.1)
    ensures exists across: Direction ::
      && IsVertical(across) != IsVertical(travel)
      && r.0 == NextCell(S, x, y, across)
      && r.1 == NextCell(S, x, y, Opposite(across))
  {
    NeighborsLand(S, x, y);
    if Value(travel) % 2 == 0 then
      assert Opposite(Left) == Right;
      (NextCell(S, x, y, Left), NextCell(S, x, y, Right))
    else
      assert Opposite(Up) == Down;
      (NextCell(S, x, y, Up), NextCell(S, x, y, Down))
  }

  /**
   * has_front_diagonal_neighbors: a passage lies diagonally ahead, where ahead
   * is opposite to the way back. The source needs a passage next to the cell.
   */
  function HasFrontDiagonalNeighbors(g: array2<Cell>, S: int, x: int, y: int): bool
    reads g
    requires S >= 2 && g.Length0 == 4 * S && g.Length1 == 3 * S && OnNet(S, x, y)
    requires exists d: Direction :: PassageAt(g, S, x, y, d)
  {
    var direction := Opposite(BackDirection(g, S, x, y));
    NextCellLands(S, x, y, direction);
    var forward := NextCell(S, x, y, direction);
    var (first, second) := AcrossCells(S, forward.0, forward.1, direction);
    g[first.0, first.1] == Passage || g[second.0, second.1] == Passage
  }

  /**
   * has_front_diagonal_neighbors holds exactly when, from the cell ahead (opposite
   * to the way back), a step across the direction of travel reaches a passage.
   */
  lemma HasFrontDiagonalNeighborsIff(g: array2<Cell>, S: int, x: int, y: int)
    requires S >= 2 && g.Length0 == 4 * S && g.Length1 == 3 * S && OnNet(S, x, y)
    requires exists d: Direction :: PassageAt(g, S, x, y, d)
    ensures var back := BackDirection(g, S, x, y);
      var f := NextCell(S, x, y, Opposite(back));
      && OnNet(S, f.0, f.1)
      && (HasFrontDiagonalNeighbors(g, S, x, y) <==>
            exists across: Direction :: IsVertical(across) != IsVertical(back) && PassageAt(g, S, f.0, f.1, across))
  {
    var back := BackDirection(g, S, x, y);
    var direction := Opposite(back);
    OppositeInvolution(back);
    NextCellLands(S, x, y, direction);
    var f := NextCell(S, x, y, direction);
    AcrossPassage(g, S, f.0, f.1, direction);
  }

  /** One of the two cells AcrossCells gives is a passage exactly when a step across the travel reaches one. */
  lemma AcrossPassage(g: array2<Cell>, S: int, x: int, y: int, travel: Direction)
    requires S >= 2 && g.Length0 == 4 * S && g.Length1 == 3 * S && OnNet(S, x, y)
    ensures var c := AcrossCells(S, x, y, travel);
      (g[c.0.0, c.0.1] == Passage || g[c.1.0, c.1.1] == Passage) <==>
      exists across: Direction :: IsVertical(across) != IsVertical(travel) && PassageAt(g, S, x, y, across)
  {
    if Value(travel) % 2 == 0 {
      assert forall across: Direction :: IsVertical(across) != IsVertical(travel) ==> across == Left || across == Right;
      assert !IsVertical(Left) && !IsVertical(Right);
    } else {
      assert forall across: Direction :: IsVertical(across) != IsVertical(travel) ==> across == Up || across == Down;
      assert IsVertical(Up) && IsVertical(Down);
    }
  }

  /** Three wall neighbours in a shaped grid leave a passage as the fourth. */
  lemma ThreeWallsLeaveAPassage(g: array2<Cell>, S: int, x: int, y: int)
    requires S >= 2 && Shaped(g, S) && OnNet(S, x, y)
    requires |WallNeighbors(g, S, x, y)| == 3
    ensures exists d: Direction :: PassageAt(g, S, x, y, d)
  {
    var n := Neighbors(S, x, y);
    assert !forall c <- n :: g[c.0, c.1] == Wall;
    var c :| c in n && g[c.0, c.1] != Wall;
    var i :| 0 <= i < 4 && n[i] == c;
    PointIsExcludedIff(S, c.0, c.1);
    assert PassageAt(g, S, x, y, AllDirections[i]);
  }

  /** wall_can_become_passage: exactly three wall neighbours and no passage diagonally ahead. */
  function WallCanBecomePassage(g: array2<Cell>, S: int, x: int, y: int): (r: bool)
    reads g
    requires S >= 2 && Shaped(g, S) && OnNet(S, x, y)
    ensures r ==> |WallNeighbors(g, S, x, y)| == 3 && exists d: Direction :: PassageAt(g, S, x, y, d)
  {
    if |WallNeighbors(g, S, x, y)| == 3 then
      ThreeWallsLeaveAPassage(g, S, x, y);
      !HasFrontDiagonalNeighbors(g, S, x, y)
    else false
  }

  // ---------------------------------------------------------------------------
  // list.remove
  // ---------------------------------------------------------------------------

  /** The index of the first entry equal to v. */
  function FirstIndex<T(==)>(s: seq<T>, v: T): (k: nat)
    requires v in s
    ensures k < |s| && s[k] == v && v !in s[..k]
  {
    if s[0] == v then 0
    else
      var k := FirstIndex(s[1..], v);
      assert s[..k + 1] == [s[0]] + s[1..][..k];
      k + 1
  }

  /** Python's list.remove: drop the first entry equal to v (the source removes only values it holds). */
  function RemoveFirst<T(==)>(s: seq<T>, v: T): (r: seq<T>)
    requires v in s
    ensures |r| == |s| - 1
    ensures multiset(r) == multiset(s) - multiset{v}
    ensures forall c <- r :: c in s
  {
    assert s == [s[0]] + s[1..];
    if s[0] == v then s[1..] else [s[0]] + RemoveFirst(s[1..], v)
  }

  /** list.remove cuts out the first occurrence of v and keeps the other entries in order. */
  lemma {:induction false} RemoveFirstCutsFirst<T>(s: seq<T>, v: T)
    requires v in s
    ensures var k := FirstIndex(s, v); RemoveFirst(s, v) == s[..k] + s[k + 1..]
  {
    if s[0] != v {
      assert s == [s[0]] + s[1..];
      RemoveFirstCutsFirst(s[1..], v);
      var k := FirstIndex(s[1..], v);
      assert s[..k + 1] == [s[0]] + s[1..][..k];
      assert s[k + 2..] == s[1..][k + 1..];
    }
  }

  /** Removing a value held in the front part of a list leaves the back part in place. */
  lemma {:induction false} RemoveFirstAppend<T>(s: seq<T>, t: seq<T>, v: T)
    requires v in s
    ensures RemoveFirst(s + t, v) == RemoveFirst(s, v) + t
  {
    if s[0] != v {
      assert (s + t)[1..] == s[1..] + t;
      RemoveFirstAppend(s[1..], t, v);
    } else {
      assert (s + t)[1..] == s[1..] + t;
    }
  }

  // ---------------------------------------------------------------------------
  // step_generator (cubeMaze.py:262-284) and its caller's state
  // ---------------------------------------------------------------------------

  /**
   * The generator's state: the grid (empty until filled), the list of walls
   * waiting to be examined, and the cell carved last.
   */
  class MazeGenerator {
    const S: int
    var maze: array2<Cell>
    var walls: seq<(int, int)>
    var last: Option<(int, int)>

    /** The grid is empty or shaped like the net, and every wall entry is a net cell. */
    ghost predicate Valid()
      reads this, maze
    {
      && SideLengthSupported(S)
      && (maze.Length0 == 0 || Shaped(maze, S))
      && forall c <- walls :: OnNet(S, c.0, c.1)
    }

    /** An empty grid, no walls and no cell generated yet. */
    constructor (side: int)
      requires SideLengthSupported(side)
      ensures Valid() && S == side
      ensures maze.Length0 == 0 && walls == [] && last == None
    {
      S := side;
      maze := new Cell[0, 0];
      walls := [];
      last := None;
    }

    /** maze = fill_initial_maze(side_length): a fresh grid holding the initial cells. */
    method Fill()
      requires Valid()
      modifies this
      ensures Valid() && fresh(maze)
      ensures walls == old(walls) && last == old(last)
      ensures maze.Length0 == 4 * S && maze.Length1 == 3 * S
      ensures forall x, y :: 0 <= x < 4 * S && 0 <= y < 3 * S ==> maze[x, y] == FillInitialMaze(S)[x][y]
    {
      maze := new Cell[4 * S, 3 * S]((x, y) => InitialCell(S, x, y));
      FillInitialMazeShape(S);
    }

    /** maze[x][y] = "P" on a net cell of a filled grid. */
    method Carve(x: int, y: int)
      requires Valid() && maze.Length0 != 0 && OnNet(S, x, y)
      modifies maze
      ensures Valid()
      ensures maze[x, y] == Passage
      ensures forall i, j :: 0 <= i < 4 * S && 0 <= j < 3 * S && (i, j) != (x, y) ==> maze[i, j] == old(maze[i, j])
    {
      PointIsExcludedIff(S, x, y);
      maze[x, y] := Passage;
    }

    /** The first call: carve get_first_point() and queue its wall neighbours. */
    method Begin()
      requires Valid() && maze.Length0 != 0 && walls == []
      modifies this, maze
      ensures Valid() && maze == old(maze) && last == old(last)
      ensures var f := GetFirstPoint(S);
        && maze[f.0, f.1] == Passage
        && (forall x, y :: 0 <= x < 4 * S && 0 <= y < 3 * S && (x, y) != f ==> maze[x, y] == old(maze[x, y]))
        && walls == WallNeighbors(maze, S, f.0, f.1)
    {
      var f := GetFirstPoint(S);
      Carve(f.0, f.1);
      walls := walls + WallNeighbors(maze, S, f.0, f.1);
    }

    /**
     * A later call: examine walls[pick], carve it when wall_can_become_passage
     * allows, queue its wall neighbours, and remove one occurrence of it.
     */
    method Examine(pick: nat) returns (carved: bool)
      requires Valid() && maze.Length0 != 0 && pick < |walls|
      modifies this, maze
      ensures Valid() && maze == old(maze) && last == old(last)
      ensures var sel := old(walls)[pick];
        && carved == old(WallCanBecomePassage(maze, S, sel.0, sel.1))
        && (carved ==>
              && maze[sel.0, sel.1] == Passage
              && (forall x, y :: 0 <= x < 4 * S && 0 <= y < 3 * S && (x, y) != sel ==> maze[x, y] == old(maze[x, y]))
              && walls == RemoveFirst(old(walls), sel) + WallNeighbors(maze, S, sel.0, sel.1))
        && (!carved ==>
              && (forall x, y :: 0 <= x < 4 * S && 0 <= y < 3 * S ==> maze[x, y] == old(maze[x, y]))
              && walls == RemoveFirst(old(walls), sel))
    {
      var sel := walls[pick];
      assert OnNet(S, sel.0, sel.1);
      carved := WallCanBecomePassage(maze, S, sel.0, sel.1);
      if carved {
        Accept(sel);
      } else {
        walls := RemoveFirst(walls, sel);
      }
    }

    /** The accepting branch: carve sel, queue its wall neighbours, and remove one occurrence of sel. */
    method Accept(sel: (int, int))
      requires Valid() && maze.Length0 != 0 && sel in walls
      modifies this, maze
      ensures Valid() && maze == old(maze) && last == old(last)
      ensures maze[sel.0, sel.1] == Passage
      ensures forall x, y :: 0 <= x < 4 * S && 0 <= y < 3 * S && (x, y) != sel ==> maze[x, y] == old(maze[x, y])
      ensures walls == RemoveFirst(old(walls), sel) + WallNeighbors(maze, S, sel.0, sel.1)
    {
      Carve(sel.0, sel.1);
      var added := WallNeighbors(maze, S, sel.0, sel.1);
      RemoveFirstAppend(walls, added, sel);
      walls := RemoveFirst(walls + added, sel);
    }

    /**
     * One call of step_generator, with its result stored as the caller stores
     * it. pick stands for random.choice's choice among the walls.
     */
    method Step(pick: nat) returns (more: bool, cursor: Option<(int, int)>)
      requires Valid()
      requires walls != [] ==> pick < |walls|
      modifies this, maze
      ensures Valid() && maze == old(maze) && last == cursor
      // only passages are written, so excluded cells and passages stay
      ensures forall x, y :: 0 <= x < maze.Length0 && 0 <= y < maze.Length1 ==>
        (maze[x, y] != old(maze[x, y]) ==> maze[x, y] == Passage) && (old(maze[x, y]) == Passage ==> maze[x, y] == Passage)
      // an empty grid: nothing happens
      ensures old(maze.Length0) == 0 ==>
        !more && cursor == None && walls == old(walls) && maze.Length0 == 0
      // the first call: the first point is carved and its walls queued
      ensures old(maze.Length0) != 0 && old(walls) == [] && old(last) == None ==>
        var f := GetFirstPoint(S);
        && more && cursor == Some(f)
        && maze[f.0, f.1] == Passage
        && (forall x, y :: 0 <= x < 4 * S && 0 <= y < 3 * S && (x, y) != f ==> maze[x, y] == old(maze[x, y]))
        && walls == WallNeighbors(maze, S, f.0, f.1)
      // no walls left after the first call: finished, nothing changes
      ensures old(maze.Length0) != 0 && old(walls) == [] && old(last) != None ==>
        !more && cursor == old(last) && walls == old(walls)
        && forall x, y :: 0 <= x < 4 * S && 0 <= y < 3 * S ==> maze[x, y] == old(maze[x, y])
      // a picked wall: carved when acceptable, then one occurrence of it removed
      ensures old(maze.Length0) != 0 && old(walls) != [] ==>
        var sel := old(walls)[pick];
        && more == (|walls| > 0)
        && (old(WallCanBecomePassage(maze, S, sel.0, sel.1)) ==>
              && cursor == Some(sel)
              && maze[sel.0, sel.1] == Passage
              && (forall x, y :: 0 <= x < 4 * S && 0 <= y < 3 * S && (x, y) != sel ==> maze[x, y] == old(maze[x, y]))
              && walls == RemoveFirst(old(walls), sel) + WallNeighbors(maze, S, sel.0, sel.1))
        && (!old(WallCanBecomePassage(maze, S, sel.0, sel.1)) ==>
              && cursor == old(last)
              && (forall x, y :: 0 <= x < 4 * S && 0 <= y < 3 * S ==> maze[x, y] == old(maze[x, y]))
              && walls == RemoveFirst(old(walls), sel))
    {
      if maze.Length0 == 0 {
        more, cursor := false, None;
      } else if walls == [] {
        if last == None {
          Begin();
          more, cursor := true, Some(GetFirstPoint(S));
        } else {
          more, cursor := false, last;
        }
      } else {
        var sel := walls[pick];
        var carved := Examine(pick);
        cursor := if carved then Some(sel) else last;
        more := |walls| > 0;
      }
      last := cursor;
    }
  }
}
