/**
 * The 0/1 maze array of MazeGenerator/maze.py (`np.ndarray` of ints,
 * wall = 1, path = 0), the errors the generator raises, and the random
 * index source it draws from.
 */
module Grid {
  import opened Coordinates

  /** A cell of the maze: 1 is a wall, 0 is a path. No other value is ever stored. */
  type Cell = x: int | 0 <= x <= 1

  /** Why generation stops without a maze. */
  datatype MazeError =
    | SizeNotOdd(height: int, width: int)  // the ValueError raised by random_maze itself
    | NegativeDimensions                   // the ValueError raised by np.zeros for a negative odd size
    | PopFromEmptyList                     // the IndexError of `building.pop()` on an empty list
    | OutOfFuel                            // the step bound of the model ran out (see README)

  /** The errors Python reports as `ValueError`. */
  predicate IsValueError(e: MazeError) {
    e.SizeNotOdd? || e.NegativeDimensions?
  }

  /**
   * The random source: `pick(k, n)` is what `np.random.randint(n)` returns
   * as the k-th draw of the run.
   */
  type IndexOracle = (nat, nat) -> nat

  /** Every draw from `randint(n)` lies in [0, n). */
  ghost predicate ValidOracle(pick: IndexOracle) {
    forall k: nat, n: nat :: 0 < n ==> pick(k, n) < n
  }

  predicate InBounds(maze: array2<Cell>, c: Coordinate) {
    0 <= c.h < maze.Length0 && 0 <= c.w < maze.Length1
  }

  /** All four neighbours of `c` are inside the array. */
  predicate Interior(maze: array2<Cell>, c: Coordinate) {
    1 <= c.h < maze.Length0 - 1 && 1 <= c.w < maze.Length1 - 1
  }

  predicate IsOpen(maze: array2<Cell>, c: Coordinate)
    reads maze
  {
    InBounds(maze, c) && maze[c.h, c.w] == 0
  }

  predicate IsWall(maze: array2<Cell>, c: Coordinate)
    reads maze
  {
    InBounds(maze, c) && maze[c.h, c.w] == 1
  }

  /** Row 0, the last row, column 0 or the last column. */
  predicate OnBorder(height: int, width: int, h: int, w: int) {
    h == 0 || h == height - 1 || w == 0 || w == width - 1
  }

  /** The outer ring of the array is wall. */
  ghost predicate BorderWalled(maze: array2<Cell>)
    reads maze
  {
    forall h, w :: 0 <= h < maze.Length0 && 0 <= w < maze.Length1 && OnBorder(maze.Length0, maze.Length1, h, w)
      ==> maze[h, w] == 1
  }

  /** The coordinates of the path cells. */
  ghost function OpenCells(maze: array2<Cell>): (open: set<Coordinate>)
    reads maze
  {
    set h, w | 0 <= h < maze.Length0 && 0 <= w < maze.Length1 && maze[h, w] == 0 :: Coordinate(h, w)
  }

  /** Every listed coordinate is a path cell. */
  ghost predicate AllOpen(maze: array2<Cell>, s: seq<Coordinate>)
    reads maze
  {
    forall c :: c in s ==> IsOpen(maze, c)
  }

  /** No coordinate is listed twice, stated as each entry not repeating an earlier one. */
  ghost predicate Distinct(s: seq<Coordinate>)
    decreases |s|
  {
    s == [] || (s[|s| - 1] !in s[..|s| - 1] && Distinct(s[..|s| - 1]))
  }

  ghost predicate NoDuplicates(s: seq<Coordinate>) {
    forall i, j :: 0 <= i < j < |s| ==> s[i] != s[j]
  }

  /** Appending a coordinate not yet listed keeps the list free of repeats. */
  lemma DistinctAppend(s: seq<Coordinate>, x: Coordinate)
    requires Distinct(s) && x !in s
    ensures Distinct(s + [x])
  {
    assert (s + [x])[..|s|] == s;
  }

  /** Two repeat-free lists with no cell in common concatenate to a repeat-free list. */
  lemma {:induction false} DistinctConcat(a: seq<Coordinate>, b: seq<Coordinate>)
    requires Distinct(a) && Distinct(b) && forall c :: c in b ==> c !in a
    ensures Distinct(a + b)
    decreases |b|
  {
    if b == [] {
      assert a + b == a;
    } else {
      var b' := b[..|b| - 1];
      var x := b[|b| - 1];
      assert b' + [x] == b;
      DistinctConcat(a, b');
      assert x in b;
      assert (a + b)[..|a + b| - 1] == a + b';
    }
  }

  /** `Distinct` says exactly that no two positions hold the same coordinate. */
  lemma {:induction false} DistinctIsNoDuplicates(s: seq<Coordinate>)
    ensures Distinct(s) <==> NoDuplicates(s)
    decreases |s|
  {
    if s != [] {
      var p := s[..|s| - 1];
      DistinctIsNoDuplicates(p);
      if NoDuplicates(s) {
        assert NoDuplicates(p);
        forall i | 0 <= i < |p| ensures p[i] != s[|s| - 1] {
          assert s[i] != s[|s| - 1];
        }
      }
      if Distinct(s) {
        forall i, j | 0 <= i < j < |s| ensures s[i] != s[j] {
          if j < |s| - 1 {
            assert p[i] == s[i] && p[j] == s[j];
          } else {
            assert p[i] == s[i];
          }
        }
      }
    }
  }

  /** Behind a walled border a path cell is strictly interior, so every step from it stays in the array. */
  lemma OpenIsInterior(maze: array2<Cell>, c: Coordinate)
    requires BorderWalled(maze) && IsOpen(maze, c)
    ensures Interior(maze, c)
    ensures forall d: Direction :: InBounds(maze, c.Add(d.Value()))
  {
    assert !OnBorder(maze.Length0, maze.Length1, c.h, c.w);
  }

  lemma OpenCellsMembership(maze: array2<Cell>, c: Coordinate)
    ensures c in OpenCells(maze) <==> IsOpen(maze, c)
  {
  }
}
