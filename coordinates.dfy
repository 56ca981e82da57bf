/**
 * Lattice coordinates of the maze and the four unit displacements
 * (`Coordinate` and `Directions` in MazeGenerator/maze.py).
 */
module Coordinates {

  /** A cell index: `h` is the row (height) index, `w` the column (width) index. */
  datatype Coordinate = Coordinate(h: int, w: int) {

    /** Operator `+`: component-wise sum. */
    function Add(other: Coordinate): (r: Coordinate) {
      Coordinate(h + other.h, w + other.w)
    }

    /** Operator `*`: by an int it scales both components, by a coordinate it multiplies component-wise. */
    function Mul(other: Multiplier): (r: Coordinate) {
      match other
      case Scalar(k) => Coordinate(h * k, w * k)
      case Pointwise(c) => Coordinate(h * c.h, w * c.w)
    }

    /** `add_mul`: the right term multiplied by `mul` (default 1) and added, in one step. */
    function AddMul(other: Coordinate, mul: int := 1): (r: Coordinate)
      ensures r == Add(other.Mul(Scalar(mul)))
    {
      Coordinate(h + other.h * mul, w + other.w * mul)
    }
  }

  /** The right operand of `*`, which Python tells apart with `isinstance(other, int)`. */
  datatype Multiplier = Scalar(k: int) | Pointwise(c: Coordinate)

  function Abs(x: int): (r: nat) {
    if x < 0 then -x else x
  }

  /** A displacement of length one along exactly one axis. */
  predicate IsUnitStep(c: Coordinate) {
    Abs(c.h) + Abs(c.w) == 1
  }

  /** The members of the `Directions` enumeration. */
  datatype Direction = Right | Left | Up | Down {

    /** The enumeration member's `.value`. */
    function Value(): (v: Coordinate) {
      match this
      case Right => Coordinate(0, 1)
      case Left => Coordinate(0, -1)
      case Up => Coordinate(1, 0)
      case Down => Coordinate(-1, 0)
    }

    /** Position of the member in the enumeration's iteration order. */
    function Rank(): (r: nat) {
      match this
      case Right => 0
      case Left => 1
      case Up => 2
      case Down => 3
    }
  }

  /** Iterating `Directions` visits the members in declaration order. */
  const Directions: seq<Direction> := [Right, Left, Up, Down]

  /** Each member sits in `Directions` at the index given by its rank. */
  lemma RankIndexesDirections()
    ensures forall d: Direction :: d.Rank() < |Directions| && Directions[d.Rank()] == d
  {
    forall d: Direction
      ensures d.Rank() < |Directions| && Directions[d.Rank()] == d
    {
      match d
      case Right =>
      case Left =>
      case Up =>
      case Down =>
    }
  }

  /** With the default multiplier `add_mul` is plain `+`. */
  lemma AddMulDefaultIsAdd(c: Coordinate, o: Coordinate)
    ensures c.AddMul(o) == c.Add(o)
  {
  }

  /** Multiplying by an int is the component-wise product with the diagonal coordinate. */
  lemma ScalarIsDiagonalPointwise(c: Coordinate, k: int)
    ensures c.Mul(Scalar(k)) == c.Mul(Pointwise(Coordinate(k, k)))
  {
  }

  /** `+` is commutative and associative, and `add_mul` with `-m` undoes `add_mul` with `m`. */
  lemma AddLaws(a: Coordinate, b: Coordinate, c: Coordinate, m: int)
    ensures a.Add(b) == b.Add(a)
    ensures a.Add(b).Add(c) == a.Add(b.Add(c))
    ensures a.AddMul(b, m).AddMul(b, -m) == a
  {
  }

  /** Two steps along a direction are one step taken twice. */
  lemma TwoStepsAreTwoUnitSteps(c: Coordinate, d: Direction)
    ensures c.AddMul(d.Value(), 2) == c.Add(d.Value()).Add(d.Value())
    ensures c.Add(d.Value()) != c && c.AddMul(d.Value(), 2) != c
    ensures c.AddMul(d.Value(), 2) != c.Add(d.Value())
    ensures c.Add(d.Value()).AddMul(d.Value(), -1) == c
  {
  }

  /** Every member of the enumeration is visited when iterating `Directions`. */
  lemma DirectionsEnumerateAll()
    ensures forall d: Direction :: d in Directions
  {
    forall d: Direction
      ensures d in Directions
    {
      match d
      case Right => assert Directions[0] == d;
      case Left => assert Directions[1] == d;
      case Up => assert Directions[2] == d;
      case Down => assert Directions[3] == d;
    }
  }

  /**
   * Iteration yields the values (0,1), (0,-1), (1,0) and (-1,0) in that order,
   * each once, with increasing rank.
   */
  lemma DirectionsInOrder()
    ensures forall i :: 0 <= i < |Directions| ==>
      Directions[i].Value() == [Coordinate(0, 1), Coordinate(0, -1), Coordinate(1, 0), Coordinate(-1, 0)][i]
    ensures forall i, j :: 0 <= i < j < |Directions| ==> Directions[i].Value() != Directions[j].Value()
    ensures forall i, j :: 0 <= i < j < |Directions| ==> Directions[i].Rank() < Directions[j].Rank()
  {
  }

  /** The four directions are exactly the unit steps of the lattice. */
  lemma DirectionsAreTheUnitSteps(c: Coordinate)
    ensures IsUnitStep(c) <==> exists d: Direction :: d.Value() == c
  {
    if IsUnitStep(c) {
      if c.h == 0 {
        if c.w == 1 { assert Right.Value() == c; } else { assert Left.Value() == c; }
      } else {
        if c.h == 1 { assert Up.Value() == c; } else { assert Down.Value() == c; }
      }
    }
  }
}
