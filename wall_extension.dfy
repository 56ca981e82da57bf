/**
 * Growing one wall from a start cell (`search_visitable_dir` and
 * `extend_wall` in MazeGenerator/maze.py).
 *
 * The loop of `extend_wall` is specified by `Step`, one pass of its body on
 * the state (curr, building, failed, number of draws so far), and by `Run`,
 * which repeats `Step` up to a step bound. `ExtendWall` is the loop itself and
 * is proved to compute `Run`; the lemmas say what `Step` and `Run` guarantee.
 */
module WallExtension {
  import opened Wrappers
  import opened Coordinates
  import opened Grid

  /** The condition under which `search_visitable_dir` yields `d` from `curr`. */
  predicate Visitable(maze: array2<Cell>, curr: Coordinate, building: seq<Coordinate>,
                      failed: seq<Coordinate>, d: Direction)
    reads maze
    requires Interior(maze, curr)
  {
    var door := curr.Add(d.Value());
    && maze[door.h, door.w] == 0
    && door !in building
    && door !in failed
    && curr.AddMul(d.Value(), 2) !in building
  }

  /** The visitable members among the first `n` of `Directions`, in iteration order. */
  function VisitableAmong(maze: array2<Cell>, curr: Coordinate, building: seq<Coordinate>,
                          failed: seq<Coordinate>, n: nat): (dirs: seq<Direction>)
    reads maze
    requires Interior(maze, curr) && n <= |Directions|
  {
    if n == 0 then []
    else
      var dirs := VisitableAmong(maze, curr, building, failed, n - 1);
      var d := Directions[n - 1];
      if Visitable(maze, curr, building, failed, d) then dirs + [d] else dirs
  }

  /**
   * The scan over the first `n` directions keeps exactly the visitable ones
   * of rank below `n`, in increasing rank.
   */
  lemma {:induction false} VisitableAmongSpec(maze: array2<Cell>, curr: Coordinate, building: seq<Coordinate>,
                                              failed: seq<Coordinate>, n: nat)
    requires Interior(maze, curr) && n <= |Directions|
    ensures var dirs := VisitableAmong(maze, curr, building, failed, n);
      && (forall d :: d in dirs <==> d.Rank() < n && Visitable(maze, curr, building, failed, d))
      && (forall i, j :: 0 <= i < j < |dirs| ==> dirs[i].Rank() < dirs[j].Rank())
  {
    if n > 0 {
      VisitableAmongSpec(maze, curr, building, failed, n - 1);
      RankIndexesDirections();
      DirectionsInOrder();
      assert Directions[n - 1].Rank() == n - 1;
    }
  }

  /**
   * `search_visitable_dir`: the directions yielded from `curr`, scanning
   * `Directions` in order.
   */
  function VisitableDirs(maze: array2<Cell>, curr: Coordinate, building: seq<Coordinate>,
                         failed: seq<Coordinate>): (dirs: seq<Direction>)
    reads maze
    requires Interior(maze, curr)
  {
    VisitableAmong(maze, curr, building, failed, |Directions|)
  }

  /**
   * `search_visitable_dir` yields exactly the directions whose one-step cell
   * is a path cell outside `building` and `failed` and whose two-step cell is
   * outside `building`; it yields them in RIGHT, LEFT, UP, DOWN order, each
   * at most once, and yields nothing exactly when no direction qualifies.
   */
  lemma VisitableDirsSpec(maze: array2<Cell>, curr: Coordinate, building: seq<Coordinate>,
                          failed: seq<Coordinate>)
    requires Interior(maze, curr)
    ensures var dirs := VisitableDirs(maze, curr, building, failed);
      && (forall d :: d in dirs <==> Visitable(maze, curr, building, failed, d))
      && (dirs == [] <==> forall d :: !Visitable(maze, curr, building, failed, d))
      && (forall i, j :: 0 <= i < j < |dirs| ==> dirs[i].Rank() < dirs[j].Rank())
  {
    var dirs := VisitableDirs(maze, curr, building, failed);
    VisitableAmongSpec(maze, curr, building, failed, |Directions|);
    assert dirs != [] ==> dirs[0] in dirs;
  }

  /** The local state of `extend_wall`'s loop, with the number of random draws made so far. */
  datatype Walk = Walk(curr: Coordinate, building: seq<Coordinate>, failed: seq<Coordinate>, draws: nat)

  /** The state on entry to the loop. */
  function Initial(start: Coordinate, draws: nat): (w: Walk) {
    Walk(start, [start], [], draws)
  }

  /** A completed wall: the cells to set to 1, and the draw count afterwards. */
  datatype Extension = Extension(path: seq<Coordinate>, draws: nat)

  /** What one pass of the loop body does. */
  datatype StepOutcome = Walking(next: Walk) | Finished(ext: Extension) | EmptyPop

  /**
   * What holds on every entry to the loop: the border is wall, `curr` and every
   * entry of `building` are path cells. (That `building` has no repeats is
   * kept separately, by `StepKeepsDistinct`.)
   */
  ghost predicate WalkInv(maze: array2<Cell>, w: Walk)
    reads maze
  {
    && BorderWalled(maze)
    && IsOpen(maze, w.curr)
    && AllOpen(maze, w.building)
  }

  /** One pass of the body of `extend_wall`'s `while True` loop. */
  ghost function Step(maze: array2<Cell>, w: Walk, pick: IndexOracle): (s: StepOutcome)
    reads maze
    requires WalkInv(maze, w) && ValidOracle(pick)
  {
    OpenIsInterior(maze, w.curr);
    VisitableDirsSpec(maze, w.curr, w.building, w.failed);
    var dirs := VisitableDirs(maze, w.curr, w.building, w.failed);
    if dirs == [] then
      var failed := w.failed + [w.curr];
      if w.building == [] then EmptyPop
      else Walking(Walk(w.building[|w.building| - 1], w.building[..|w.building| - 1], failed, w.draws))
    else
      var dir := dirs[pick(w.draws, |dirs|)];
      assert dir in dirs;
      var d := dir.Value();
      var door := w.curr.Add(d);
      var landing := w.curr.AddMul(d, 2);
      var building := w.building + [door];
      assert IsOpen(maze, door);
      OpenIsInterior(maze, door);
      if maze[landing.h, landing.w] == 1 then Finished(Extension(building, w.draws + 1))
      else Walking(Walk(landing, building + [landing], w.failed, w.draws + 1))
  }

  /** The loop of `extend_wall`, cut off after `fuel` passes. */
  ghost function Run(maze: array2<Cell>, w: Walk, pick: IndexOracle, fuel: nat): (r: Result<Extension, MazeError>)
    reads maze
    requires WalkInv(maze, w) && ValidOracle(pick)
    decreases fuel
  {
    if fuel == 0 then Failure(OutOfFuel)
    else
      match Step(maze, w, pick)
      case EmptyPop => Failure(PopFromEmptyList)
      case Finished(ext) => Success(ext)
      case Walking(next) =>
        StepKeepsInvariant(maze, w, pick);
        Run(maze, next, pick, fuel - 1)
  }

  /**
   * The new wall reaches old wall along `d`: the doorway cell `door` was entered
   * from the path cell `door - d`, and the cell `door + d` beyond it is wall.
   */
  ghost predicate Closes(maze: array2<Cell>, door: Coordinate, d: Direction)
    reads maze
  {
    IsOpen(maze, door.AddMul(d.Value(), -1)) && IsWall(maze, door.Add(d.Value()))
  }

  /** `Closes` along one of the four directions (a finite disjunction, kept free of quantifiers). */
  ghost predicate ClosesSomeDirection(maze: array2<Cell>, door: Coordinate)
    reads maze
  {
    Closes(maze, door, Right) || Closes(maze, door, Left) || Closes(maze, door, Up) || Closes(maze, door, Down)
  }

  /** What `extend_wall` returns: path cells, the last one next to existing wall. */
  ghost predicate Completed(maze: array2<Cell>, path: seq<Coordinate>)
    reads maze
  {
    && |path| > 0
    && AllOpen(maze, path)
    && ClosesSomeDirection(maze, Last(path))
  }

  function Last(s: seq<Coordinate>): (c: Coordinate)
    requires |s| > 0
  {
    s[|s| - 1]
  }

  /** `failed` is only ever appended to. */
  ghost predicate IsPrefix(a: seq<Coordinate>, b: seq<Coordinate>) {
    |a| <= |b| && b[..|a|] == a
  }

  /**
   * A dead end (no visitable direction) appends `curr` to `failed` and makes
   * the last entry of `building` the new `curr`, popping it; with `building`
   * empty the pop raises IndexError.
   */
  lemma DeadEndBacktracks(maze: array2<Cell>, w: Walk, pick: IndexOracle)
    requires WalkInv(maze, w) && ValidOracle(pick)
    requires Interior(maze, w.curr) && VisitableDirs(maze, w.curr, w.building, w.failed) == []
    ensures w.building == [] <==> Step(maze, w, pick).EmptyPop?
    ensures w.building != [] ==>
      && Step(maze, w, pick).Walking?
      && var next := Step(maze, w, pick).next;
      && next.building + [next.curr] == w.building
      && next.failed == w.failed + [w.curr]
      && next.draws == w.draws
      && WalkInv(maze, next)
  {
    if w.building != [] {
      var next := Step(maze, w, pick).next;
      assert w.building[..|w.building| - 1] + [w.building[|w.building| - 1]] == w.building;
      assert w.building[|w.building| - 1] in w.building;
    }
  }

  /**
   * With a visitable direction, one is drawn and the doorway cell `curr + d`
   * is appended; when the two-step cell is wall the walk is complete.
   */
  lemma AdvanceFinishes(maze: array2<Cell>, w: Walk, pick: IndexOracle)
    requires WalkInv(maze, w) && ValidOracle(pick)
    requires Step(maze, w, pick).Finished?
    ensures VisitableDirs(maze, w.curr, w.building, w.failed) != []
    ensures var ext := Step(maze, w, pick).ext;
      && ext.draws == w.draws + 1
      && Completed(maze, ext.path)
      && exists d :: Visitable(maze, w.curr, w.building, w.failed, d)
           && ext.path == w.building + [w.curr.Add(d.Value())]
           && IsWall(maze, w.curr.AddMul(d.Value(), 2))
  {
    OpenIsInterior(maze, w.curr);
    VisitableDirsSpec(maze, w.curr, w.building, w.failed);
    var dirs := VisitableDirs(maze, w.curr, w.building, w.failed);
    var dir := dirs[pick(w.draws, |dirs|)];
    assert dir in dirs;
    var d := dir.Value();
    var door := w.curr.Add(d);
    TwoStepsAreTwoUnitSteps(w.curr, dir);
    assert door.AddMul(d, -1) == w.curr;
    var path := w.building + [door];
    assert Step(maze, w, pick).ext.path == path;
    assert Last(path) == door && Closes(maze, door, dir);
    assert AllOpen(maze, path);
  }

  /**
   * With a visitable direction whose two-step cell is a path cell, `curr`
   * advances by exactly two steps; the doorway cell and the new `curr` are
   * appended to `building`, and the invariant still holds.
   */
  lemma AdvanceContinues(maze: array2<Cell>, w: Walk, pick: IndexOracle)
    requires WalkInv(maze, w) && ValidOracle(pick)
    requires Step(maze, w, pick).Walking?
    requires VisitableDirs(maze, w.curr, w.building, w.failed) != []
    ensures var next := Step(maze, w, pick).next;
      && next.draws == w.draws + 1
      && next.failed == w.failed
      && WalkInv(maze, next)
      && exists d :: Visitable(maze, w.curr, w.building, w.failed, d)
           && next.curr == w.curr.AddMul(d.Value(), 2)
           && next.building == w.building + [w.curr.Add(d.Value())] + [next.curr]
  {
    OpenIsInterior(maze, w.curr);
    VisitableDirsSpec(maze, w.curr, w.building, w.failed);
    var dirs := VisitableDirs(maze, w.curr, w.building, w.failed);
    var dir := dirs[pick(w.draws, |dirs|)];
    assert dir in dirs;
    var d := dir.Value();
    var door := w.curr.Add(d);
    var landing := w.curr.AddMul(d, 2);
    TwoStepsAreTwoUnitSteps(w.curr, dir);
    OpenIsInterior(maze, door);
    assert Step(maze, w, pick).next == Walk(landing, w.building + [door] + [landing], w.failed, w.draws + 1);
  }

  /**
   * Every pass keeps the loop invariant, only appends to `failed` and never
   * takes back a draw.
   */
  lemma StepKeepsInvariant(maze: array2<Cell>, w: Walk, pick: IndexOracle)
    requires WalkInv(maze, w) && ValidOracle(pick)
    ensures Step(maze, w, pick).Walking? ==>
      && var next := Step(maze, w, pick).next;
      && WalkInv(maze, next)
      && IsPrefix(w.failed, next.failed)
      && w.draws <= next.draws
  {
    OpenIsInterior(maze, w.curr);
    if VisitableDirs(maze, w.curr, w.building, w.failed) == [] {
      DeadEndBacktracks(maze, w, pick);
    } else if Step(maze, w, pick).Walking? {
      AdvanceContinues(maze, w, pick);
    }
  }

  /**
   * Moving `curr` itself out of `building` and into `failed` makes no
   * direction visitable that was not visitable before.
   */
  lemma VisitableAntitone(maze: array2<Cell>, curr: Coordinate, building: seq<Coordinate>, failed: seq<Coordinate>,
                          building': seq<Coordinate>, failed': seq<Coordinate>, d: Direction)
    requires Interior(maze, curr)
    requires forall c :: c in building ==> c in building' || c == curr
    requires forall c :: c in failed ==> c in failed'
    ensures Visitable(maze, curr, building', failed', d) ==> Visitable(maze, curr, building, failed, d)
  {
    TwoStepsAreTwoUnitSteps(curr, d);
  }

  /**
   * A dead end first pops `curr` itself, so `curr` stays put and is a dead end
   * again; the second pop lands on the cell appended before it (the doorway
   * cell when `curr` was a landing cell), and `curr` is twice in `failed`.
   */
  lemma DeadEndPopsCurrFirst(maze: array2<Cell>, w: Walk, pick: IndexOracle)
    requires WalkInv(maze, w) && ValidOracle(pick)
    requires Interior(maze, w.curr) && VisitableDirs(maze, w.curr, w.building, w.failed) == []
    requires |w.building| >= 2 && w.building[|w.building| - 1] == w.curr
    ensures Step(maze, w, pick).Walking?
    ensures var once := Step(maze, w, pick).next;
      && once.curr == w.curr
      && WalkInv(maze, once)
      && Step(maze, once, pick) == Walking(Walk(w.building[|w.building| - 2], w.building[..|w.building| - 2],
                                                w.failed + [w.curr, w.curr], w.draws))
  {
    DeadEndBacktracks(maze, w, pick);
    var once := Step(maze, w, pick).next;
    assert once.building == w.building[..|w.building| - 1];
    VisitableDirsSpec(maze, w.curr, w.building, w.failed);
    VisitableDirsSpec(maze, w.curr, once.building, once.failed);
    forall d
      ensures !Visitable(maze, w.curr, once.building, once.failed, d)
    {
      VisitableAntitone(maze, w.curr, w.building, w.failed, once.building, once.failed, d);
    }
    assert once.building[..|once.building| - 1] == w.building[..|w.building| - 2];
  }

  /**
   * When the start cell has no visitable direction, the first dead end pops
   * `building` empty and the second raises IndexError.
   */
  lemma StartDeadEndRaises(maze: array2<Cell>, start: Coordinate, draws: nat, pick: IndexOracle, fuel: nat)
    requires BorderWalled(maze) && IsOpen(maze, start) && ValidOracle(pick) && fuel >= 2
    requires Interior(maze, start) && VisitableDirs(maze, start, [start], []) == []
    ensures Run(maze, Initial(start, draws), pick, fuel) == Failure(PopFromEmptyList)
  {
    var w := Initial(start, draws);
    DeadEndBacktracks(maze, w, pick);
    var once := Step(maze, w, pick).next;
    assert once == Walk(start, [], [start], draws);
    VisitableDirsSpec(maze, start, [start], []);
    VisitableDirsSpec(maze, start, [], [start]);
    forall d
      ensures !Visitable(maze, start, [], [start], d)
    {
      VisitableAntitone(maze, start, [start], [], [], [start], d);
    }
    DeadEndBacktracks(maze, once, pick);
  }

  /**
   * The only outcomes of the loop: a completed wall, the IndexError of an
   * empty pop, or the step bound running out.
   */
  lemma {:induction false} RunOutcomes(maze: array2<Cell>, w: Walk, pick: IndexOracle, fuel: nat)
    requires WalkInv(maze, w) && ValidOracle(pick)
    ensures var r := Run(maze, w, pick, fuel);
      && (r.Success? ==> Completed(maze, r.value.path) && w.draws < r.value.draws)
      && (r.Failure? ==> r.error == PopFromEmptyList || r.error == OutOfFuel)
    decreases fuel
  {
    if fuel > 0 {
      var s := Step(maze, w, pick);
      if s.Finished? {
        AdvanceFinishes(maze, w, pick);
        assert Run(maze, w, pick, fuel) == Success(s.ext);
      } else if s.Walking? {
        StepKeepsInvariant(maze, w, pick);
        RunOutcomes(maze, s.next, pick, fuel - 1);
        assert Run(maze, w, pick, fuel) == Run(maze, s.next, pick, fuel - 1);
      }
    }
  }

  /**
   * `building` never holds a cell twice: a doorway cell is appended only when
   * it is not in `building`, a landing cell only when it is neither in
   * `building` nor the doorway cell, and a pop keeps a prefix.
   */
  lemma StepKeepsDistinct(maze: array2<Cell>, w: Walk, pick: IndexOracle)
    requires WalkInv(maze, w) && ValidOracle(pick) && Distinct(w.building)
    ensures Step(maze, w, pick).Walking? ==> Distinct(Step(maze, w, pick).next.building)
    ensures Step(maze, w, pick).Finished? ==> Distinct(Step(maze, w, pick).ext.path)
  {
    OpenIsInterior(maze, w.curr);
    VisitableDirsSpec(maze, w.curr, w.building, w.failed);
    var dirs := VisitableDirs(maze, w.curr, w.building, w.failed);
    if dirs != [] {
      var dir := dirs[pick(w.draws, |dirs|)];
      assert dir in dirs;
      var door := w.curr.Add(dir.Value());
      var landing := w.curr.AddMul(dir.Value(), 2);
      TwoStepsAreTwoUnitSteps(w.curr, dir);
      DistinctAppend(w.building, door);
      if Step(maze, w, pick).Walking? {
        DistinctAppend(w.building + [door], landing);
      }
    }
  }

  /** A wall returned by the loop has no repeated cell. */
  lemma {:induction false} RunKeepsDistinct(maze: array2<Cell>, w: Walk, pick: IndexOracle, fuel: nat)
    requires WalkInv(maze, w) && ValidOracle(pick) && Distinct(w.building)
    ensures Run(maze, w, pick, fuel).Success? ==> Distinct(Run(maze, w, pick, fuel).value.path)
    decreases fuel
  {
    if fuel > 0 {
      var s := Step(maze, w, pick);
      StepKeepsDistinct(maze, w, pick);
      if s.Walking? {
        StepKeepsInvariant(maze, w, pick);
        RunKeepsDistinct(maze, s.next, pick, fuel - 1);
        assert Run(maze, w, pick, fuel) == Run(maze, s.next, pick, fuel - 1);
      }
    }
  }

  /**
   * From the initial state `[start]`: a returned wall is a non-empty run of
   * distinct path cells ending next to existing wall, and drew at least once;
   * any other outcome is the IndexError or the step bound.
   */
  lemma ExtensionOutcomes(maze: array2<Cell>, start: Coordinate, pick: IndexOracle, draws: nat, fuel: nat)
    requires BorderWalled(maze) && IsOpen(maze, start) && ValidOracle(pick)
    ensures var r := Run(maze, Initial(start, draws), pick, fuel);
      && (r.Success? ==> Completed(maze, r.value.path) && Distinct(r.value.path) && draws < r.value.draws)
      && (r.Failure? ==> r.error == PopFromEmptyList || r.error == OutOfFuel)
  {
    RunOutcomes(maze, Initial(start, draws), pick, fuel);
    assert Distinct([start]) by { assert [start][..0] == []; }
    RunKeepsDistinct(maze, Initial(start, draws), pick, fuel);
  }

  /** The dead-end pass of the loop, stated on the loop variables of `ExtendWall`. */
  lemma DeadEndTransition(maze: array2<Cell>, goal: Result<Extension, MazeError>, pick: IndexOracle,
                          curr: Coordinate, building: seq<Coordinate>, failed: seq<Coordinate>, k: nat, left: nat)
    requires WalkInv(maze, Walk(curr, building, failed, k)) && ValidOracle(pick) && left > 0
    requires goal == Run(maze, Walk(curr, building, failed, k), pick, left)
    requires Interior(maze, curr) && VisitableDirs(maze, curr, building, failed) == []
    ensures building == [] ==> goal == Failure(PopFromEmptyList)
    ensures building != [] ==>
      var next := Walk(building[|building| - 1], building[..|building| - 1], failed + [curr], k);
      WalkInv(maze, next) && goal == Run(maze, next, pick, left - 1)
  {
    StepKeepsInvariant(maze, Walk(curr, building, failed, k), pick);
  }

  /** The advancing pass of the loop, stated on the loop variables of `ExtendWall`. */
  lemma AdvanceTransition(maze: array2<Cell>, goal: Result<Extension, MazeError>, pick: IndexOracle,
                          curr: Coordinate, building: seq<Coordinate>, failed: seq<Coordinate>, k: nat, left: nat,
                          dir: Coordinate)
    requires WalkInv(maze, Walk(curr, building, failed, k)) && ValidOracle(pick) && left > 0
    requires goal == Run(maze, Walk(curr, building, failed, k), pick, left)
    requires Interior(maze, curr)
    requires var dirs := VisitableDirs(maze, curr, building, failed);
      dirs != [] && dir == dirs[pick(k, |dirs|)].Value()
    ensures InBounds(maze, curr.AddMul(dir, 2))
    ensures var landing := curr.AddMul(dir, 2);
      var b := building + [curr.Add(dir)];
      if maze[landing.h, landing.w] == 1 then goal == Success(Extension(b, k + 1))
      else
        var next := Walk(landing, b + [landing], failed, k + 1);
        WalkInv(maze, next) && goal == Run(maze, next, pick, left - 1)
  {
    var w := Walk(curr, building, failed, k);
    VisitableDirsSpec(maze, curr, building, failed);
    var dirs := VisitableDirs(maze, curr, building, failed);
    assert dirs[pick(k, |dirs|)] in dirs;
    OpenIsInterior(maze, curr.Add(dir));
    StepKeepsInvariant(maze, w, pick);
  }

  /**
   * `extend_wall`: grows a wall from `start` until the next landing cell is
   * already wall, and returns the cells to turn into wall. The maze is only read.
   */
  method ExtendWall(maze: array2<Cell>, start: Coordinate, pick: IndexOracle, draws: nat, fuel: nat)
    returns (r: Result<Extension, MazeError>)
    requires BorderWalled(maze) && IsOpen(maze, start) && ValidOracle(pick)
    ensures r == Run(maze, Initial(start, draws), pick, fuel)
  {
    ghost var goal := Run(maze, Initial(start, draws), pick, fuel);
    var curr := start;
    var building := [start];
    var failed := [];
    var k := draws;
    var left := fuel;
    while left > 0
      invariant WalkInv(maze, Walk(curr, building, failed, k))
      invariant goal == Run(maze, Walk(curr, building, failed, k), pick, left)
      decreases left
    {
      OpenIsInterior(maze, curr);
      VisitableDirsSpec(maze, curr, building, failed);
      var dirs := VisitableDirs(maze, curr, building, failed);
      if dirs == [] {
        DeadEndTransition(maze, goal, pick, curr, building, failed, k, left);
        failed := failed + [curr];
        if building == [] {
          return Failure(PopFromEmptyList);
        }
        curr := building[|building| - 1];
        building := building[..|building| - 1];
      } else {
        var n := |dirs|;
        var dir := dirs[pick(k, n)].Value();
        AdvanceTransition(maze, goal, pick, curr, building, failed, k, left, dir);
        k := k + 1;
        building := building + [curr.Add(dir)];
        var landing := curr.AddMul(dir, 2);
        if maze[landing.h, landing.w] == 1 {
          return Success(Extension(building, k));
        }
        curr := landing;
        building := building + [curr];
      }
      left := left - 1;
    }
    return Failure(OutOfFuel);
  }
}
