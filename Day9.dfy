/** Day 9: a rope of knots dragged across the plane; the tail's positions are
    recorded after every unit step of the head. */
module Day9 {
  import opened Wrappers
  import opened Text

  datatype Direction = Up | Down | Right | Left

  /** The letter that names each direction in the input. */
  function Letter(d: Direction): string {
    match d
    case Up => "U"
    case Down => "D"
    case Right => "R"
    case Left => "L"
  }

  /** The source's `getDirection`: one of the four letters, anything else is an error. */
  function GetDirection(str: string): (r: Result<Direction>)
    ensures r.Ok? <==> str == "U" || str == "D" || str == "R" || str == "L"
    ensures r.Ok? ==> Letter(r.value) == str
  {
    match str
    case "U" => Ok(Up)
    case "D" => Ok(Down)
    case "R" => Ok(Right)
    case "L" => Ok(Left)
    case _ => Err("Invalid direction: " + str)
  }

  /** Reading back the letter of a direction gives the direction. */
  lemma GetDirectionOfLetter(d: Direction)
    ensures GetDirection(Letter(d)) == Ok(d)
  {
  }

  datatype Movement = Movement(direction: Direction, count: int)

  /** `Movement.toString`: the direction's letter, a space, the count. */
  function MovementString(m: Movement): string {
    Letter(m.direction) + " " + ShowInt(m.count)
  }

  /** The solver's reading of one input line: the first two space-separated
      fields are the direction and the count. A count that is not a numeral is
      `NaN` in the source, for which the step loop runs zero times; the model
      gives it count 0, which makes the same steps. */
  function ParseMovement(line: string): (r: Result<Movement>)
    ensures r.Ok? <==> GetDirection(Split(line, ' ')[0]).Ok?
    ensures r.Ok? ==> Letter(r.value.direction) == Split(line, ' ')[0]
    ensures r.Ok? ==> (r.value.count ==
      if |Split(line, ' ')| >= 2 && ParseInt(Split(line, ' ')[1]).Some? then ParseInt(Split(line, ' ')[1]).value else 0)
  {
    var fields := Split(line, ' ');
    match GetDirection(fields[0])
    case Err(e) => Err(e)
    case Ok(d) =>
      var count := if |fields| < 2 then None else ParseInt(fields[1]);
      Ok(Movement(d, if count.Some? then count.value else 0))
  }

  /** Reading back a printed movement gives the movement. */
  lemma ParseMovementString(m: Movement)
    ensures ParseMovement(MovementString(m)) == Ok(m)
  {
    var n := ShowInt(m.count);
    SplitAtFirstSeparator(Letter(m.direction), ' ', n);
    assert ' ' !in n;
    SplitWithoutSeparator(n, ' ');
    assert MovementString(m) == Letter(m.direction) + [' '] + n;
    var fields := Split(MovementString(m), ' ');
    assert fields == [Letter(m.direction), n];
    GetDirectionOfLetter(m.direction);
    ShowIntRoundTrip(m.count);
    assert ParseInt(fields[1]) == Some(m.count);
  }

  function Abs(n: int): nat {
    if n < 0 then -n else n
  }

  function Sign(n: int): int {
    if n > 0 then 1 else if n < 0 then -1 else 0
  }

  /** The unit vector of a direction; up is +y, right is +x. */
  function UnitX(d: Direction): int {
    match d
    case Right => 1
    case Left => -1
    case _ => 0
  }

  function UnitY(d: Direction): int {
    match d
    case Up => 1
    case Down => -1
    case _ => 0
  }

  datatype Point = Point(x: int, y: int) {

    /** `Point.move`: translated by `count` along the movement's axis only. */
    function Move(movement: Movement): (q: Point)
      ensures q.x == x + movement.count * UnitX(movement.direction)
      ensures q.y == y + movement.count * UnitY(movement.direction)
    {
      match movement.direction
      case Up => Point(x, y + movement.count)
      case Down => Point(x, y - movement.count)
      case Left => Point(x - movement.count, y)
      case Right => Point(x + movement.count, y)
    }

    /** Touching, diagonally included. */
    predicate IsAdjacent(other: Point) {
      Abs(x - other.x) <= 1 && Abs(y - other.y) <= 1
    }
  }

  /** Chessboard distance between two points. */
  function Distance(p: Point, q: Point): nat {
    var dx, dy := Abs(p.x - q.x), Abs(p.y - q.y);
    if dx < dy then dy else dx
  }

  /** Adjacency is being at chessboard distance at most 1; it is symmetric and reflexive. */
  lemma AdjacentIsNear(p: Point, q: Point)
    ensures p.IsAdjacent(q) <==> Distance(p, q) <= 1
    ensures p.IsAdjacent(q) <==> q.IsAdjacent(p)
    ensures p.IsAdjacent(p)
  {
  }

  /** `Rope.calculateKnot`: one step along each axis toward the knot ahead,
      none along an axis where the two already agree. */
  function CalculateKnot(pos: Point, prevKnot: Point): (r: Point)
    ensures r.x - pos.x == Sign(prevKnot.x - pos.x)
    ensures r.y - pos.y == Sign(prevKnot.y - pos.y)
  {
    var xDirection: Option<Direction> :=
      if prevKnot.x > pos.x then Some(Right) else if prevKnot.x < pos.x then Some(Left) else None;
    var yDirection: Option<Direction> :=
      if prevKnot.y > pos.y then Some(Up) else if prevKnot.y < pos.y then Some(Down) else None;
    var afterX := if xDirection.Some? then pos.Move(Movement(xDirection.value, 1)) else pos;
    if yDirection.Some? then afterX.Move(Movement(yDirection.value, 1)) else afterX
  }

  /** A knot at most two steps (in chessboard distance) behind its predecessor
      ends up touching it. */
  lemma CalculateKnotCatchesUp(pos: Point, prevKnot: Point)
    requires Distance(pos, prevKnot) <= 2
    ensures CalculateKnot(pos, prevKnot).IsAdjacent(prevKnot)
    ensures Distance(CalculateKnot(pos, prevKnot), pos) <= 1
  {
  }

  /** What the inner loop of `Rope.move` does to one knot. */
  function Pull(prevKnot: Point, knot: Point): Point {
    if prevKnot.IsAdjacent(knot) then knot else CalculateKnot(knot, prevKnot)
  }

  /** The knots from index `k` on, each pulled after its predecessor, in order. */
  function Follow(knots: seq<Point>, k: nat): (r: seq<Point>)
    requires 1 <= k <= |knots|
    ensures |r| == |knots| && r[..k] == knots[..k]
    decreases |knots| - k
  {
    if k == |knots| then knots
    else Follow(knots[k := Pull(knots[k - 1], knots[k])], k + 1)
  }

  /** One unit step of the head in direction `d`, the rest of the rope following. */
  function StepRope(knots: seq<Point>, d: Direction): (r: seq<Point>)
    requires |knots| >= 1
    ensures |r| == |knots|
  {
    Follow(knots[0 := knots[0].Move(Movement(d, 1))], 1)
  }

  /** The rope after `n` unit steps in direction `d`. */
  function StepN(knots: seq<Point>, d: Direction, n: int): (r: seq<Point>)
    requires |knots| >= 1
    ensures |r| == |knots|
    decreases n
  {
    if n <= 0 then knots else StepRope(StepN(knots, d, n - 1), d)
  }

  /** The tail's position after each of those `n` steps. */
  function Tails(knots: seq<Point>, d: Direction, n: int): (r: seq<Point>)
    requires |knots| >= 1
    decreases n
  {
    if n <= 0 then [] else Tails(knots, d, n - 1) + [StepN(knots, d, n)[|knots| - 1]]
  }

  /** Every knot touches the one before it. */
  predicate Taut(knots: seq<Point>) {
    forall k :: 1 <= k < |knots| ==> knots[k - 1].IsAdjacent(knots[k])
  }

  /** Following from index k keeps a rope taut, provided the knots before k are
      taut, the knot at k-1 moved at most one step away from where it was in the
      taut rope `orig`, and the knots from k on have not moved yet. */
  lemma {:induction false} FollowKeepsTaut(knots: seq<Point>, k: nat, orig: seq<Point>)
    requires 1 <= k <= |knots| == |orig|
    requires Taut(orig) && Taut(knots[..k])
    requires knots[k..] == orig[k..]
    requires Distance(knots[k - 1], orig[k - 1]) <= 1
    ensures Taut(Follow(knots, k))
    decreases |knots| - k
  {
    if k < |knots| {
      var pulled := Pull(knots[k - 1], knots[k]);
      var next := knots[k := pulled];
      assert knots[k] == orig[k];
      assert orig[k - 1].IsAdjacent(orig[k]);
      if !knots[k - 1].IsAdjacent(knots[k]) {
        CalculateKnotCatchesUp(knots[k], knots[k - 1]);
      }
      assert next[..k + 1] == knots[..k] + [pulled];
      assert Taut(next[..k + 1]);
      assert next[k + 1..] == orig[k + 1..];
      FollowKeepsTaut(next, k + 1, orig);
    } else {
      assert knots[..k] == knots;
    }
  }

  /** A unit step keeps a taut rope taut and moves the head by exactly one unit. */
  lemma StepRopeKeepsTaut(knots: seq<Point>, d: Direction)
    requires |knots| >= 1 && Taut(knots)
    ensures Taut(StepRope(knots, d))
    ensures StepRope(knots, d)[0] == knots[0].Move(Movement(d, 1))
  {
    var moved := knots[0 := knots[0].Move(Movement(d, 1))];
    assert moved[..1] == [moved[0]];
    assert moved[1..] == knots[1..];
    FollowKeepsTaut(moved, 1, knots);
    assert Follow(moved, 1)[..1] == moved[..1];
  }

  /** Following moves every knot from index k on by at most one step. */
  lemma {:induction false} FollowMovesLittle(knots: seq<Point>, k: nat)
    requires 1 <= k <= |knots|
    ensures forall i :: k <= i < |knots| ==> Distance(Follow(knots, k)[i], knots[i]) <= 1
    decreases |knots| - k
  {
    if k < |knots| {
      var next := knots[k := Pull(knots[k - 1], knots[k])];
      FollowMovesLittle(next, k + 1);
      assert Follow(knots, k) == Follow(next, k + 1);
      assert Follow(next, k + 1)[..k + 1] == next[..k + 1];
      assert Follow(next, k + 1)[k] == next[k];
    }
  }

  /** So the tail advances at most one step per unit step of the head. */
  lemma TailMovesAtMostOne(knots: seq<Point>, d: Direction)
    requires |knots| >= 1
    ensures StepRope(knots, d)[|knots| - 1].IsAdjacent(knots[|knots| - 1])
  {
    var moved := knots[0 := knots[0].Move(Movement(d, 1))];
    if |knots| == 1 {
      assert Follow(moved, 1) == moved;
    } else {
      FollowMovesLittle(moved, 1);
    }
  }

  lemma {:induction false} StepNKeepsTaut(knots: seq<Point>, d: Direction, n: int)
    requires |knots| >= 1 && Taut(knots)
    ensures Taut(StepN(knots, d, n))
    decreases n
  {
    if n > 0 {
      StepNKeepsTaut(knots, d, n - 1);
      StepRopeKeepsTaut(StepN(knots, d, n - 1), d);
    }
  }

  /** One tail position is recorded per unit step. */
  lemma {:induction false} TailsLength(knots: seq<Point>, d: Direction, n: int)
    requires |knots| >= 1
    ensures |Tails(knots, d, n)| == if n <= 0 then 0 else n
    decreases n
  {
    if n > 0 {
      TailsLength(knots, d, n - 1);
    }
  }

  class Rope {
    var knots: array<Point>
    var tailLocations: seq<Point>

    ghost predicate Valid()
      reads this, knots
    {
      knots.Length >= 1 && Taut(knots[..])
    }

    /** All knots start at the origin; nothing is recorded yet. */
    constructor (count: nat)
      requires count >= 1
      ensures Valid() && fresh(knots)
      ensures knots[..] == seq(count, _ => Point(0, 0)) && tailLocations == []
    {
      knots := new Point[count](_ => Point(0, 0));
      tailLocations := [];
    }

    /** `Rope.move`: `count` unit steps of the head, the other knots following,
        the tail recorded after each step. */
    method Move(movement: Movement)
      requires Valid()
      modifies this, knots
      ensures Valid() && knots == old(knots)
      ensures knots[..] == StepN(old(knots[..]), movement.direction, movement.count)
      ensures tailLocations == old(tailLocations) + Tails(old(knots[..]), movement.direction, movement.count)
    {
      ghost var start := knots[..];
      var d := movement.direction;
      var i := 0;
      while i < movement.count
        invariant 0 <= i <= if movement.count < 0 then 0 else movement.count
        invariant knots == old(knots) && knots.Length == |start|
        invariant knots[..] == StepN(start, d, i)
        invariant tailLocations == old(tailLocations) + Tails(start, d, i)
      {
        StepOnce(d);
        ghost var next := StepN(start, d, i + 1);
        assert knots[..] == next;
        var tail := knots[knots.Length - 1];
        assert tail == next[|start| - 1];
        tailLocations := tailLocations + [tail];
        assert Tails(start, d, i + 1) == Tails(start, d, i) + [tail];
        i := i + 1;
      }
      StepNKeepsTaut(start, d, movement.count);
    }

    /** One pass of the loop body of `Rope.move`: the head steps once and each
        following knot is pulled after the one before it. */
    method StepOnce(d: Direction)
      requires knots.Length >= 1
      modifies knots
      ensures knots[..] == StepRope(old(knots[..]), d)
    {
      ghost var before := knots[..];
      knots[0] := knots[0].Move(Movement(d, 1));
      var knot := 1;
      while knot < knots.Length
        invariant 1 <= knot <= knots.Length
        invariant Follow(knots[..], knot) == StepRope(before, d)
      {
        ghost var current := knots[..];
        var prevKnot := knots[knot - 1];
        var currKnot := knots[knot];
        if !prevKnot.IsAdjacent(currKnot) {
          var newKnot := CalculateKnot(currKnot, prevKnot);
          knots[knot] := newKnot;
        }
        assert knots[..] == current[knot := Pull(prevKnot, currKnot)];
        knot := knot + 1;
      }
    }
  }

  /** The rope the solver starts from: `count` knots at the origin. */
  function Origin(count: nat): (r: seq<Point>)
    ensures |r| == count
  {
    seq(count, _ => Point(0, 0))
  }

  /** The rope after a list of movements, applied in order. */
  function RopeAfter(knots: seq<Point>, movements: seq<Movement>): (r: seq<Point>)
    requires |knots| >= 1
    ensures |r| == |knots|
    decreases |movements|
  {
    if movements == [] then knots
    else
      var last := movements[|movements| - 1];
      StepN(RopeAfter(knots, movements[..|movements| - 1]), last.direction, last.count)
  }

  /** Every tail position recorded while applying a list of movements. */
  function TailsAfter(knots: seq<Point>, movements: seq<Movement>): seq<Point>
    requires |knots| >= 1
    decreases |movements|
  {
    if movements == [] then []
    else
      var prefix := movements[..|movements| - 1];
      var last := movements[|movements| - 1];
      TailsAfter(knots, prefix) + Tails(RopeAfter(knots, prefix), last.direction, last.count)
  }

  /** The number of unit steps in a list of movements (a negative count makes none). */
  function StepCount(movements: seq<Movement>): nat
    decreases |movements|
  {
    if movements == [] then 0
    else
      var last := movements[|movements| - 1];
      StepCount(movements[..|movements| - 1]) + if last.count < 0 then 0 else last.count
  }

  /** One tail position is recorded per unit step of the whole list. */
  lemma {:induction false} TailsAfterLength(knots: seq<Point>, movements: seq<Movement>)
    requires |knots| >= 1
    ensures |TailsAfter(knots, movements)| == StepCount(movements)
    decreases |movements|
  {
    if movements != [] {
      var prefix := movements[..|movements| - 1];
      var last := movements[|movements| - 1];
      TailsAfterLength(knots, prefix);
      TailsLength(RopeAfter(knots, prefix), last.direction, last.count);
    }
  }

  /** A sequence has at most as many distinct elements as entries. */
  lemma {:induction false} DistinctAtMostLength(s: seq<Point>)
    ensures |set p | p in s| <= |s|
  {
    if s != [] {
      DistinctAtMostLength(s[1..]);
      assert (set p | p in s) == {s[0]} + (set p | p in s[1..]);
    }
  }

  /** The part 1 (two knots) and part 2 (ten knots) answer: how many distinct
      positions the tail is recorded at. */
  method DistinctTailPositions(movements: seq<Movement>, knotCount: nat) returns (count: nat)
    requires knotCount >= 1
    ensures count == |set p | p in TailsAfter(Origin(knotCount), movements)|
    ensures count <= StepCount(movements)
  {
    var rope := new Rope(knotCount);
    ghost var origin := Origin(knotCount);
    for i := 0 to |movements|
      invariant rope.Valid() && fresh(rope.knots)
      invariant rope.knots[..] == RopeAfter(origin, movements[..i])
      invariant rope.tailLocations == TailsAfter(origin, movements[..i])
    {
      assert movements[..i + 1][..i] == movements[..i];
      rope.Move(movements[i]);
    }
    assert movements[..|movements|] == movements;
    var allLocations := set p | p in rope.tailLocations;
    count := |allLocations|;
    DistinctAtMostLength(rope.tailLocations);
    TailsAfterLength(origin, movements);
  }
}
