/**
 * `random_maze` of MazeGenerator/maze.py: the size check, the walled empty
 * grid, the scan for start candidates, committing a grown wall into the
 * array, and the main loop that repeats these until no candidate is left.
 */
module MazeBuilder {
  import opened Wrappers
  import opened Coordinates
  import opened Grid
  import opened WallExtension

  /** A cell from which a new wall may start: even row, even column, still a path cell. */
  predicate IsCandidate(maze: array2<Cell>, c: Coordinate)
    reads maze
  {
    InBounds(maze, c) && c.h % 2 == 0 && c.w % 2 == 0 && maze[c.h, c.w] == 0
  }

  /** `a` comes strictly before `b` when the array is read row by row. */
  predicate RowMajorBefore(a: Coordinate, b: Coordinate) {
    a.h < b.h || (a.h == b.h && a.w < b.w)
  }

  /** Every entry comes strictly before every later one in row-major order. */
  predicate RowMajorSorted(cs: seq<Coordinate>) {
    forall i, j :: 0 <= i < j < |cs| ==> RowMajorBefore(cs[i], cs[j])
  }

  /**
   * The `candidates` list of the main loop: the two nested `range(0, n, 2)`
   * loops collect the even/even path cells in row-major order.
   */
  method Candidates(maze: array2<Cell>) returns (cs: seq<Coordinate>)
    ensures forall c :: c in cs <==> IsCandidate(maze, c)
    ensures cs == [] <==> forall c :: !IsCandidate(maze, c)
    ensures RowMajorSorted(cs)
  {
    cs := [];
    var h := 0;
    while h < maze.Length0
      invariant 0 <= h && h % 2 == 0
      invariant forall c :: c in cs <==> IsCandidate(maze, c) && c.h < h
      invariant RowMajorSorted(cs)
      decreases maze.Length0 - h
    {
      var w := 0;
      while w < maze.Length1
        invariant 0 <= w && w % 2 == 0
        invariant forall c :: c in cs <==> IsCandidate(maze, c) && RowMajorBefore(c, Coordinate(h, w))
        invariant RowMajorSorted(cs)
        decreases maze.Length1 - w
      {
        if maze[h, w] == 0 {
          cs := cs + [Coordinate(h, w)];
        }
        w := w + 2;
      }
      h := h + 2;
    }
    assert cs != [] ==> cs[0] in cs;
  }

  /** The loop `for cood in extend_wall(...): maze[cood] = 1`. */
  method Commit(maze: array2<Cell>, path: seq<Coordinate>)
    requires forall c :: c in path ==> InBounds(maze, c)
    modifies maze
    ensures forall h, w :: 0 <= h < maze.Length0 && 0 <= w < maze.Length1 ==>
      maze[h, w] == if Coordinate(h, w) in path then 1 else old(maze[h, w])
  {
    var i := 0;
    while i < |path|
      invariant 0 <= i <= |path|
      invariant forall h, w :: 0 <= h < maze.Length0 && 0 <= w < maze.Length1 ==>
        maze[h, w] == if Coordinate(h, w) in path[..i] then 1 else old(maze[h, w])
      decreases |path| - i
    {
      var c := path[i];
      assert c in path;
      maze[c.h, c.w] := 1;
      assert path[..i + 1] == path[..i] + [c];
      i := i + 1;
    }
    assert path[..i] == path;
  }

  /**
   * `np.zeros((height, width))` followed by setting the first and last row
   * and the first and last column to 1 (indexing row or column 0 needs both
   * sizes to be at least 1).
   */
  method WalledGrid(height: nat, width: nat) returns (maze: array2<Cell>)
    requires height >= 1 && width >= 1
    ensures fresh(maze) && maze.Length0 == height && maze.Length1 == width
    ensures forall h, w :: 0 <= h < height && 0 <= w < width ==>
      maze[h, w] == if OnBorder(height, width, h, w) then 1 else 0
  {
    maze := new Cell[height, width]((h, w) => 0);
    var w := 0;
    while w < width
      invariant 0 <= w <= width
      invariant forall a, b :: 0 <= a < height && 0 <= b < width ==>
        maze[a, b] == if (a == 0 || a == height - 1) && b < w then 1 else 0
      decreases width - w
    {
      maze[0, w] := 1;
      maze[height - 1, w] := 1;
      w := w + 1;
    }
    var h := 0;
    while h < height
      invariant 0 <= h <= height
      invariant forall a, b :: 0 <= a < height && 0 <= b < width ==>
        maze[a, b] == if a == 0 || a == height - 1 || ((b == 0 || b == width - 1) && a < h) then 1 else 0
      decreases height - h
    {
      maze[h, 0] := 1;
      maze[h, width - 1] := 1;
      h := h + 1;
    }
  }

  /**
   * Committing a non-empty wall of path cells removes at least its first
   * cell from the path cells and adds none, so the main loop terminates.
   */
  lemma ShrinksOpenCells(maze: array2<Cell>, before: set<Coordinate>, path: seq<Coordinate>)
    requires |path| > 0 && path[0] in before && IsWall(maze, path[0])
    requires forall h, w :: 0 <= h < maze.Length0 && 0 <= w < maze.Length1 && maze[h, w] == 0 ==>
      Coordinate(h, w) in before
    ensures |OpenCells(maze)| < |before|
  {
    var now := OpenCells(maze);
    assert now <= before - {path[0]};
    SubsetCard(now, before - {path[0]});
  }

  lemma {:induction false} SubsetCard(a: set<Coordinate>, b: set<Coordinate>)
    requires a <= b
    ensures |a| <= |b|
    decreases |b|
  {
    if a != {} {
      var x :| x in a;
      SubsetCard(a - {x}, b - {x});
    }
  }

  /**
   * One pass of the main loop after the candidates are listed: draw a start
   * cell among `cs`, grow a wall from it and set the wall's cells to 1. An
   * exception of `extend_wall` leaves the array as it was.
   */
  method GrowFromCandidate(maze: array2<Cell>, cs: seq<Coordinate>, pick: IndexOracle, k: nat, fuel: nat,
                           ghost laid: seq<Coordinate>)
    returns (r: Result<Extension, MazeError>)
    requires BorderWalled(maze) && ValidOracle(pick)
    requires cs != [] && forall c :: c in cs ==> IsCandidate(maze, c)
    requires LaidOut(maze, laid)
    modifies maze
    ensures pick(k, |cs|) < |cs| && cs[pick(k, |cs|)] in cs
    ensures old(IsOpen(maze, cs[pick(k, |cs|)]) && AllOpen(maze, [cs[pick(k, |cs|)]]))
    ensures r == old(Run(maze, Initial(cs[pick(k, |cs|)], k + 1), pick, fuel))
    ensures r.Success? ==> old(Completed(maze, r.value.path))
    ensures r.Success? ==> WallGrown(maze.Length0, maze.Length1, laid, r.value.path)
    ensures r.Failure? ==> (r.error == PopFromEmptyList || r.error == OutOfFuel) && unchanged(maze)
    ensures r.Success? ==>
      && |r.value.path| > 0 && Distinct(r.value.path) && k < r.value.draws
      && |OpenCells(maze)| < old(|OpenCells(maze)|)
      && forall h, w :: 0 <= h < maze.Length0 && 0 <= w < maze.Length1 ==>
           maze[h, w] == if Coordinate(h, w) in r.value.path then 1 else old(maze[h, w])
  {
    var start := cs[pick(k, |cs|)];
    assert start in cs;
    r := ExtendWall(maze, start, pick, k + 1, fuel);
    ExtensionOutcomes(maze, start, pick, k + 1, fuel);
    if r.Success? {
      var path := r.value.path;
      ghost var before := OpenCells(maze);
      assert path[0] in path;
      OpenCellsMembership(maze, path[0]);
      CompletedIsGrown(maze, laid, path);
      Commit(maze, path);
      ShrinksOpenCells(maze, before, path);
    }
  }

  /** The committed walls concatenated in the order they were committed. */
  ghost function Flatten(walls: seq<seq<Coordinate>>): (cells: seq<Coordinate>)
    decreases |walls|
  {
    if walls == [] then [] else Flatten(walls[..|walls| - 1]) + walls[|walls| - 1]
  }

  /** A cell is in the walls committed so far plus `p` when it is in one or the other. */
  lemma FlattenAppend(walls: seq<seq<Coordinate>>, p: seq<Coordinate>, c: Coordinate)
    ensures c in Flatten(walls + [p]) <==> c in Flatten(walls) || c in p
  {
    assert (walls + [p])[..|walls|] == walls;
  }

  /** `c` is a wall cell of a `height × width` grid whose laid walls are `laid`: on the border or in `laid`. */
  ghost predicate WallOf(height: int, width: int, laid: seq<Coordinate>, c: Coordinate) {
    0 <= c.h < height && 0 <= c.w < width && (OnBorder(height, width, c.h, c.w) || c in laid)
  }

  /** The last cell of `p` has a wall cell of the grid with walls `laid` as a neighbour. */
  ghost predicate EndsOnWall(height: int, width: int, laid: seq<Coordinate>, p: seq<Coordinate>)
    requires |p| > 0
  {
    var e := Last(p);
    || WallOf(height, width, laid, e.Add(Right.Value()))
    || WallOf(height, width, laid, e.Add(Left.Value()))
    || WallOf(height, width, laid, e.Add(Up.Value()))
    || WallOf(height, width, laid, e.Add(Down.Value()))
  }

  /**
   * `p` is a wall grown on the grid whose walls so far are the border and
   * `laid`: a non-empty, repeat-free run of cells that were all path cells
   * (inside, off the border, not yet laid), ending next to existing wall.
   */
  ghost predicate WallGrown(height: int, width: int, laid: seq<Coordinate>, p: seq<Coordinate>) {
    && |p| > 0
    && Distinct(p)
    && (forall c :: c in p ==>
          0 <= c.h < height && 0 <= c.w < width && !OnBorder(height, width, c.h, c.w) && c !in laid)
    && EndsOnWall(height, width, laid, p)
  }

  /** Each committed wall was grown on the grid holding the border and the walls committed before it. */
  ghost predicate GrownWalls(height: int, width: int, walls: seq<seq<Coordinate>>) {
    forall i :: 0 <= i < |walls| ==> WallGrown(height, width, Flatten(walls[..i]), walls[i])
  }

  /** The walls of `maze` are exactly its border and the cells of `laid`. */
  ghost predicate LaidOut(maze: array2<Cell>, laid: seq<Coordinate>)
    reads maze
  {
    forall h, w :: 0 <= h < maze.Length0 && 0 <= w < maze.Length1 ==>
      (maze[h, w] == 1 <==> OnBorder(maze.Length0, maze.Length1, h, w) || Coordinate(h, w) in laid)
  }

  /**
   * A wall `extend_wall` completes on a grid whose walls are the border and
   * `laid` is a wall grown on that grid: its cells are path cells, so neither
   * on the border nor laid, and its last cell touches the border or `laid`.
   */
  lemma CompletedIsGrown(maze: array2<Cell>, laid: seq<Coordinate>, p: seq<Coordinate>)
    requires LaidOut(maze, laid) && Completed(maze, p) && Distinct(p)
    ensures WallGrown(maze.Length0, maze.Length1, laid, p)
  {
    forall c | c in p
      ensures 0 <= c.h < maze.Length0 && 0 <= c.w < maze.Length1
        && !OnBorder(maze.Length0, maze.Length1, c.h, c.w) && c !in laid
    {
      assert IsOpen(maze, c);
    }
  }

  /** Committing a wall grown on the current grid keeps the history of walls well formed. */
  lemma GrownWallsAppend(height: int, width: int, walls: seq<seq<Coordinate>>, p: seq<Coordinate>)
    requires GrownWalls(height, width, walls) && WallGrown(height, width, Flatten(walls), p)
    ensures GrownWalls(height, width, walls + [p])
  {
    forall i | 0 <= i < |walls| + 1
      ensures WallGrown(height, width, Flatten((walls + [p])[..i]), (walls + [p])[i])
    {
      if i < |walls| {
        assert (walls + [p])[..i] == walls[..i];
      } else {
        assert (walls + [p])[..i] == walls;
      }
    }
  }

  /** No cell is committed twice: the walls of the main loop are pairwise disjoint and each repeat-free. */
  lemma {:induction false} GrownWallsDisjoint(height: int, width: int, walls: seq<seq<Coordinate>>)
    requires GrownWalls(height, width, walls)
    ensures Distinct(Flatten(walls))
    decreases |walls|
  {
    if walls != [] {
      var n := |walls| - 1;
      var earlier := walls[..n];
      forall i | 0 <= i < |earlier|
        ensures WallGrown(height, width, Flatten(earlier[..i]), earlier[i])
      {
        assert earlier[..i] == walls[..i];
      }
      GrownWallsDisjoint(height, width, earlier);
      assert WallGrown(height, width, Flatten(walls[..n]), walls[n]);
      DistinctConcat(Flatten(earlier), walls[n]);
    }
  }

  /** With 3 rows or columns or fewer, every even/even cell lies on the border. */
  lemma ThinGridHasNoCandidate(maze: array2<Cell>)
    requires BorderWalled(maze) && (maze.Length0 <= 3 || maze.Length1 <= 3)
    ensures forall c :: !IsCandidate(maze, c)
  {
    forall c | IsCandidate(maze, c)
      ensures false
    {
      assert OnBorder(maze.Length0, maze.Length1, c.h, c.w);
    }
  }

  /**
   * `extend_wall` raises (or runs out of steps) with error `e` when started
   * at the candidate `start` of `maze` as the draw after draw number `draws`.
   */
  ghost predicate FailsFrom(maze: array2<Cell>, start: Coordinate, draws: nat, pick: IndexOracle, fuel: nat,
                            e: MazeError)
    reads maze
  {
    && BorderWalled(maze) && ValidOracle(pick)
    && IsCandidate(maze, start) && AllOpen(maze, [start])
    && Run(maze, Initial(start, draws + 1), pick, fuel) == Failure(e)
  }

  /**
   * The `while True` loop of `random_maze` on a walled grid: while an
   * even/even path cell remains, grow a wall from one of them (chosen by the
   * next draw) and set its cells to 1. `walls` lists the committed walls in
   * order; `fuel` bounds each `extend_wall` loop. An exception of
   * `extend_wall` stops the loop and is returned.
   */
  method FillMaze(maze: array2<Cell>, pick: IndexOracle, fuel: nat)
    returns (stop: Option<MazeError>, ghost walls: seq<seq<Coordinate>>, ghost start: Coordinate, ghost draws: nat)
    requires BorderWalled(maze) && LaidOut(maze, []) && ValidOracle(pick)
    modifies maze
    ensures stop.Some? ==> stop.value == PopFromEmptyList || stop.value == OutOfFuel
    ensures stop.Some? ==>
      && FailsFrom(maze, start, draws, pick, fuel, stop.value)
      && LaidOut(maze, Flatten(walls))
      && GrownWalls(maze.Length0, maze.Length1, walls)
    ensures stop.None? ==>
      && BorderWalled(maze)
      && (forall c :: !IsCandidate(maze, c))
      && LaidOut(maze, Flatten(walls))
      && GrownWalls(maze.Length0, maze.Length1, walls)
      && Distinct(Flatten(walls))
    ensures maze.Length0 <= 3 || maze.Length1 <= 3 ==> stop.None? && walls == []
  {
    walls, start := [], Coordinate(0, 0);
    var k: nat := 0;
    var cs := Candidates(maze);
    if maze.Length0 <= 3 || maze.Length1 <= 3 {
      ThinGridHasNoCandidate(maze);
    }
    while cs != []
      invariant BorderWalled(maze)
      invariant forall c :: c in cs <==> IsCandidate(maze, c)
      invariant LaidOut(maze, Flatten(walls))
      invariant GrownWalls(maze.Length0, maze.Length1, walls)
      invariant (maze.Length0 <= 3 || maze.Length1 <= 3) ==> cs == [] && walls == []
      decreases |OpenCells(maze)|
    {
      ghost var s := cs[pick(k, |cs|)];
      var ext := GrowFromCandidate(maze, cs, pick, k, fuel, Flatten(walls));
      if ext.Failure? {
        return Some(ext.error), walls, s, k;
      }
      GrownWallsAppend(maze.Length0, maze.Length1, walls, ext.value.path);
      forall h, w | 0 <= h < maze.Length0 && 0 <= w < maze.Length1 {
        FlattenAppend(walls, ext.value.path, Coordinate(h, w));
      }
      walls := walls + [ext.value.path];
      k := ext.value.draws;
      cs := Candidates(maze);
    }
    GrownWallsDisjoint(maze.Length0, maze.Length1, walls);
    return None, walls, start, k;
  }

  /**
   * `random_maze`: checks the sizes, walls the border of an empty grid, and
   * fills it with walls grown until no even/even path cell remains. `walls`
   * lists the committed walls in order; `fuel` bounds each `extend_wall` loop.
   */
  method RandomMaze(height: int, width: int, pick: IndexOracle, fuel: nat)
    returns (r: Result<array2<Cell>, MazeError>, ghost walls: seq<seq<Coordinate>>,
             ghost grid: array2?<Cell>, ghost start: Coordinate, ghost draws: nat)
    requires ValidOracle(pick)
    ensures !(height % 2 == 1 && width % 2 == 1) ==> r == Failure(SizeNotOdd(height, width))
    ensures height % 2 == 1 && width % 2 == 1 && (height < 0 || width < 0) ==> r == Failure(NegativeDimensions)
    ensures r.Failure? && IsValueError(r.error) <==>
      !(height % 2 == 1 && width % 2 == 1) || height < 0 || width < 0
    ensures r.Failure? ==> IsValueError(r.error) || r.error == PopFromEmptyList || r.error == OutOfFuel
    ensures r.Failure? && !IsValueError(r.error) ==>
      && grid != null && grid.Length0 == height && grid.Length1 == width
      && FailsFrom(grid, start, draws, pick, fuel, r.error)
      && LaidOut(grid, Flatten(walls))
      && GrownWalls(height, width, walls)
    ensures r.Success? ==> grid == r.value
    ensures r.Success? ==>
      && fresh(r.value)
      && r.value.Length0 == height && r.value.Length1 == width
      && BorderWalled(r.value)
      && (forall h, w :: 0 <= h < height && 0 <= w < width && h % 2 == 0 && w % 2 == 0 ==> r.value[h, w] == 1)
      && (forall h, w :: 0 <= h < height && 0 <= w < width ==>
            (r.value[h, w] == 1 <==> OnBorder(height, width, h, w) || Coordinate(h, w) in Flatten(walls)))
    ensures r.Success? ==> forall i :: 0 <= i < |walls| ==> |walls[i]| > 0 && Distinct(walls[i])
    ensures r.Success? ==> GrownWalls(height, width, walls) && Distinct(Flatten(walls))
    ensures height % 2 == 1 && width % 2 == 1 && 0 < height && 0 < width && (height <= 3 || width <= 3) ==>
      r.Success? && walls == []
  {
    walls, start, draws := [], Coordinate(0, 0), 0;
    if !(height % 2 == 1 && width % 2 == 1) {
      return Failure(SizeNotOdd(height, width)), walls, null, start, draws;
    }
    if height < 0 || width < 0 {
      return Failure(NegativeDimensions), walls, null, start, draws;
    }
    var maze := WalledGrid(height, width);
    var stop;
    stop, walls, start, draws := FillMaze(maze, pick, fuel);
    grid := maze;
    if stop.Some? {
      return Failure(stop.value), walls, grid, start, draws;
    }
    forall h, w | 0 <= h < height && 0 <= w < width && h % 2 == 0 && w % 2 == 0
      ensures maze[h, w] == 1
    {
      assert !IsCandidate(maze, Coordinate(h, w));
    }
    return Success(maze), walls, grid, start, draws;
  }
}
