/** Day 12: a height map of letters `a`..`z` with a start `S` (height `a`)
    and an end `E` (height `z`). A step goes to one of the four neighbours,
    may climb at most one letter and may descend any amount. A breadth-first
    search gives the fewest steps from the start, and from any `a`, to the end. */
module Day12 {
  import opened Wrappers

  datatype Point = Point(row: int, col: int)

  /** Row-major order, the order in which `findCoordinate` visits cells. */
  predicate Before(a: Point, b: Point) {
    a.row < b.row || (a.row == b.row && a.col < b.col)
  }

  predicate SortedRowMajor(ps: seq<Point>) {
    forall i, j :: 0 <= i < j < |ps| ==> Before(ps[i], ps[j])
  }

  /** Cell p of the rows holds `of` (rows may differ in length). */
  predicate Holds(data: seq<seq<char>>, p: Point, of: char) {
    0 <= p.row < |data| && 0 <= p.col < |data[p.row]| && data[p.row][p.col] == of
  }

  /** p is the first cell holding `of` in row-major order. */
  ghost predicate FirstHolding(data: seq<seq<char>>, p: Point, of: char) {
    Holds(data, p, of) && forall p' :: Holds(data, p', of) ==> p' == p || Before(p, p')
  }

  predicate Rectangular(data: seq<seq<char>>) {
    forall i :: 0 <= i < |data| ==> |data[i]| == |data[0]|
  }

  /** `findCoordinate`: every cell holding `of`, each once, in row-major order. */
  method FindCoordinate(data: seq<seq<char>>, of: char) returns (indices: seq<Point>)
    ensures forall p :: p in indices <==> Holds(data, p, of)
    ensures SortedRowMajor(indices)
  {
    indices := [];
    for i := 0 to |data|
      invariant forall p :: p in indices <==> Holds(data, p, of) && p.row < i
      invariant SortedRowMajor(indices)
      invariant forall k :: 0 <= k < |indices| ==> indices[k].row < i
    {
      for j := 0 to |data[i]|
        invariant forall p :: p in indices <==> Holds(data, p, of) && (p.row < i || (p.row == i && p.col < j))
        invariant SortedRowMajor(indices)
        invariant forall k :: 0 <= k < |indices| ==> Before(indices[k], Point(i, j))
      {
        if data[i][j] == of {
          indices := indices + [Point(i, j)];
        }
      }
    }
  }

  /** The first cell in row-major order of a sorted list is its least. */
  lemma FirstOfSorted(data: seq<seq<char>>, of: char, indices: seq<Point>)
    requires forall p :: p in indices <==> Holds(data, p, of)
    requires SortedRowMajor(indices) && indices != []
    ensures FirstHolding(data, indices[0], of)
  {
    forall p' | Holds(data, p', of)
      ensures p' == indices[0] || Before(indices[0], p')
    {
      var k :| 0 <= k < |indices| && indices[k] == p';
    }
  }

  /** Two points one row or one column apart. */
  predicate Adjacent(a: Point, b: Point) {
    (a.row == b.row && (a.col - b.col == 1 || b.col - a.col == 1)) ||
    (a.col == b.col && (a.row - b.row == 1 || b.row - a.row == 1))
  }

  /** The search's four directions: up, right, down, left. */
  const Diffs: seq<(int, int)> := [(-1, 0), (0, 1), (1, 0), (0, -1)]

  function Neighbour(p: Point, k: nat): Point
    requires k < 4
  {
    Point(p.row + Diffs[k].0, p.col + Diffs[k].1)
  }

  /** The four directions reach exactly the adjacent points. */
  lemma NeighboursAreAdjacent(p: Point, n: Point)
    ensures Adjacent(p, n) <==> exists k :: 0 <= k < 4 && n == Neighbour(p, k)
  {
    if Adjacent(p, n) {
      if n.row == p.row - 1 {
        assert n == Neighbour(p, 0);
      } else if n.col == p.col + 1 {
        assert n == Neighbour(p, 1);
      } else if n.row == p.row + 1 {
        assert n == Neighbour(p, 2);
      } else {
        assert n == Neighbour(p, 3);
      }
    }
  }

  /** A queue entry: a point and the number of steps taken to reach it. */
  datatype Entry = Entry(point: Point, dist: nat)

  function Entries(ps: seq<Point>, d: nat): (r: seq<Entry>)
    ensures |r| == |ps| && forall i :: 0 <= i < |ps| ==> r[i] == Entry(ps[i], d)
  {
    seq(|ps|, i requires 0 <= i < |ps| => Entry(ps[i], d))
  }

  /** `Map`: the normalised grid, the start, the end and every lowest cell. */
  datatype Map = Map(data: seq<seq<char>>, start: Point, end: Point, allLowest: seq<Point>) {

    /** What construction guarantees. */
    ghost predicate Valid() {
      |data| >= 1 && Rectangular(data) &&
      WithinGrid(start) && WithinGrid(end) && start != end &&
      forall k :: 0 <= k < |allLowest| ==> WithinGrid(allLowest[k]) && allLowest[k] != end
    }

    /** `withinGrid`: the width is that of the first row. */
    predicate WithinGrid(p: Point) {
      0 <= p.row < |data| && 0 <= p.col < |data[0]|
    }

    /** `at`. */
    function At(p: Point): char
      requires Valid() && WithinGrid(p)
    {
      data[p.row][p.col]
    }

    /** `moveCost`: how far the step descends (negative when it climbs). */
    function MoveCost(from: Point, to: Point): int
      requires Valid() && WithinGrid(from) && WithinGrid(to)
    {
      At(from) as int - At(to) as int
    }

    /** `canMove`: the target is at most one letter higher; any descent is allowed. */
    function CanMove(from: Point, to: Point): (r: bool)
      requires Valid() && WithinGrid(from) && WithinGrid(to)
      ensures r <==> At(to) as int <= At(from) as int + 1
    {
      MoveCost(from, to) >= -1
    }

    /** A legal step of the search. */
    ghost predicate Step(a: Point, b: Point)
      requires Valid()
    {
      WithinGrid(a) && WithinGrid(b) && Adjacent(a, b) && CanMove(a, b)
    }

    /** The points the search enqueues from `from`, among the first k directions. */
    function LegalSteps(from: Point, k: nat): seq<Point>
      requires Valid() && WithinGrid(from) && k <= 4
    {
      if k == 0 then []
      else
        var n := Neighbour(from, k - 1);
        LegalSteps(from, k - 1) + (if WithinGrid(n) && CanMove(from, n) then [n] else [])
    }

    lemma {:induction false} LegalStepsAreSteps(from: Point, k: nat)
      requires Valid() && WithinGrid(from) && k <= 4
      ensures forall n :: n in LegalSteps(from, k) <==> WithinGrid(n) && CanMove(from, n) && exists i :: 0 <= i < k && n == Neighbour(from, i)
    {
      if k > 0 {
        LegalStepsAreSteps(from, k - 1);
      }
    }

    /** The enqueued points are exactly the legal steps. */
    lemma LegalStepsComplete(from: Point)
      requires Valid() && WithinGrid(from)
      ensures forall n :: n in LegalSteps(from, 4) <==> Step(from, n)
    {
      LegalStepsAreSteps(from, 4);
      forall n
        ensures n in LegalSteps(from, 4) <==> Step(from, n)
      {
        NeighboursAreAdjacent(from, n);
      }
    }

    lemma EntriesOfLegalSteps(from: Point, k: nat, d: nat)
      requires Valid() && WithinGrid(from) && k < 4
      ensures var n := Neighbour(from, k);
        Entries(LegalSteps(from, k + 1), d) ==
        Entries(LegalSteps(from, k), d) + (if WithinGrid(n) && CanMove(from, n) then [Entry(n, d)] else [])
    {
    }

    /** A walk of legal steps. */
    ghost predicate IsPath(path: seq<Point>)
      requires Valid()
    {
      |path| >= 1 && WithinGrid(path[0]) &&
      forall i :: 0 <= i < |path| - 1 ==> Step(path[i], path[i + 1])
    }

    /** b can be reached from a in exactly n steps. */
    ghost predicate ReachableIn(a: Point, b: Point, n: nat)
      requires Valid()
    {
      exists path :: IsPath(path) && |path| == n + 1 && path[0] == a && path[n] == b
    }

    /** n is the fewest steps from a to b. */
    ghost predicate Shortest(a: Point, b: Point, n: nat)
      requires Valid()
    {
      ReachableIn(a, b, n) && forall k: nat :: k < n ==> !ReachableIn(a, b, k)
    }

    ghost predicate Unreachable(a: Point, b: Point)
      requires Valid()
    {
      forall n: nat :: !ReachableIn(a, b, n)
    }

    lemma ReachableSelf(a: Point)
      requires Valid() && WithinGrid(a)
      ensures ReachableIn(a, a, 0)
    {
      assert IsPath([a]);
    }

    /** Zero steps go nowhere. */
    lemma ReachableZero(a: Point, b: Point)
      requires Valid() && ReachableIn(a, b, 0)
      ensures a == b
    {
    }

    lemma ReachableExtend(a: Point, b: Point, c: Point, n: nat)
      requires Valid() && ReachableIn(a, b, n) && Step(b, c)
      ensures ReachableIn(a, c, n + 1)
    {
      var path :| IsPath(path) && |path| == n + 1 && path[0] == a && path[n] == b;
      var longer := path + [c];
      assert IsPath(longer);
    }

    lemma ReachablePrefix(path: seq<Point>, j: nat)
      requires Valid() && IsPath(path) && 1 <= j <= |path|
      ensures ReachableIn(path[0], path[j - 1], j - 1)
    {
      assert IsPath(path[..j]);
    }

    /** A walk that leaves the visited points has a step from a visited point
        to an unvisited one. */
    lemma {:induction false} Crossing(path: seq<Point>, dist: map<Point, nat>) returns (j: nat)
      requires |path| >= 1 && path[0] in dist && path[|path| - 1] !in dist
      ensures 1 <= j < |path| && path[j - 1] in dist && path[j] !in dist
    {
      if path[1] !in dist {
        j := 1;
      } else {
        var j' := Crossing(path[1..], dist);
        j := j' + 1;
      }
    }

    /** Points with an entry no farther than `bound` in the queue. */
    ghost predicate Queued(q: seq<Entry>, n: Point, bound: nat) {
      exists i :: 0 <= i < |q| && q[i].point == n && q[i].dist <= bound
    }

    /** Every queued point is reachable in its recorded steps, and the queue
        holds distances level or level + 1, in non-decreasing order. */
    ghost predicate QueueOk(from: Point, q: seq<Entry>, level: nat)
      requires Valid()
    {
      (forall i :: 0 <= i < |q| ==>
        WithinGrid(q[i].point) && ReachableIn(from, q[i].point, q[i].dist) && level <= q[i].dist <= level + 1) &&
      (forall i, j :: 0 <= i < j < |q| ==> q[i].dist <= q[j].dist)
    }

    /** The visited points are distinct, recorded at their shortest distance,
        and none is the end (the search stops there). */
    ghost predicate SeenOk(from: Point, seen: seq<Point>, dist: map<Point, nat>, level: nat)
      requires Valid()
    {
      (forall i, j :: 0 <= i < j < |seen| ==> seen[i] != seen[j]) &&
      (forall p :: p in dist <==> p in seen) &&
      (forall p :: p in dist ==> WithinGrid(p) && Shortest(from, p, dist[p]) && dist[p] <= level) &&
      end !in dist
    }

    /** Each legal step out of a visited point leads to a visited point or to
        one queued at most a step farther. */
    ghost predicate Closed(q: seq<Entry>, dist: map<Point, nat>)
      requires Valid()
    {
      forall s, n :: s in dist && Step(s, n) ==> n in dist || Queued(q, n, dist[s] + 1)
    }

    ghost predicate SearchInvariant(from: Point, q: seq<Entry>, seen: seq<Point>, dist: map<Point, nat>, level: nat)
      requires Valid()
    {
      QueueOk(from, q, level) && SeenOk(from, seen, dist, level) && Closed(q, dist) &&
      (seen == [] ==> q == [Entry(from, 0)]) && (seen != [] ==> from in dist)
    }

    lemma InitialInvariant(from: Point)
      requires Valid() && WithinGrid(from)
      ensures SearchInvariant(from, [Entry(from, 0)], [], map[], 0)
    {
      ReachableSelf(from);
    }

    /** A walk from the start of the search to the front of the queue, when
        the front is unvisited, is at least as long as the front's distance. */
    lemma PathNotShorter(from: Point, q: seq<Entry>, seen: seq<Point>, dist: map<Point, nat>, level: nat, path: seq<Point>)
      requires Valid() && SearchInvariant(from, q, seen, dist, level)
      requires q != [] && q[0].point !in dist && seen != []
      requires IsPath(path) && path[0] == from && path[|path| - 1] == q[0].point
      ensures |path| - 1 >= q[0].dist
    {
      var j := Crossing(path, dist);
      var s := path[j - 1];
      ReachablePrefix(path, j);
      assert Step(s, path[j]);
      var i :| 0 <= i < |q| && q[i].point == path[j] && q[i].dist <= dist[s] + 1;
    }

    /** The first unvisited point taken off the queue is at its shortest distance. */
    lemma DequeueShortest(from: Point, q: seq<Entry>, seen: seq<Point>, dist: map<Point, nat>, level: nat)
      requires Valid() && SearchInvariant(from, q, seen, dist, level)
      requires q != [] && q[0].point !in dist
      ensures Shortest(from, q[0].point, q[0].dist)
    {
      var p, d := q[0].point, q[0].dist;
      forall n: nat | ReachableIn(from, p, n)
        ensures d <= n
      {
        var path :| IsPath(path) && |path| == n + 1 && path[0] == from && path[n] == p;
        if seen != [] {
          PathNotShorter(from, q, seen, dist, level, path);
        }
      }
    }

    /** Skipping an already visited point keeps the invariant. */
    lemma SkipKeepsInvariant(from: Point, q: seq<Entry>, seen: seq<Point>, dist: map<Point, nat>, level: nat)
      requires Valid() && SearchInvariant(from, q, seen, dist, level)
      requires q != [] && q[0].point in dist
      ensures SearchInvariant(from, q[1..], seen, dist, level)
    {
      forall s, n | s in dist && Step(s, n)
        ensures n in dist || Queued(q[1..], n, dist[s] + 1)
      {
        if n !in dist {
          var i :| 0 <= i < |q| && q[i].point == n && q[i].dist <= dist[s] + 1;
          assert q[1..][i - 1] == q[i];
        }
      }
    }

    lemma VisitKeepsQueue(from: Point, q: seq<Entry>, level: nat, added: seq<Point>)
      requires Valid() && QueueOk(from, q, level) && q != []
      requires forall k :: 0 <= k < |added| ==> Step(q[0].point, added[k])
      ensures QueueOk(from, q[1..] + Entries(added, q[0].dist + 1), q[0].dist)
    {
      var d := q[0].dist;
      var next := q[1..] + Entries(added, d + 1);
      forall i | 0 <= i < |next|
        ensures WithinGrid(next[i].point) && ReachableIn(from, next[i].point, next[i].dist) && d <= next[i].dist <= d + 1
      {
        if i < |q| - 1 {
          assert next[i] == q[i + 1];
        } else {
          ReachableExtend(from, q[0].point, added[i - (|q| - 1)], d);
        }
      }
    }

    lemma VisitKeepsClosure(q: seq<Entry>, dist: map<Point, nat>, added: seq<Point>)
      requires Valid() && Closed(q, dist) && q != [] && q[0].point !in dist && WithinGrid(q[0].point)
      requires forall n :: n in added <==> Step(q[0].point, n)
      ensures Closed(q[1..] + Entries(added, q[0].dist + 1), dist[q[0].point := q[0].dist])
    {
      var p, d := q[0].point, q[0].dist;
      var next := q[1..] + Entries(added, d + 1);
      var dist' := dist[p := d];
      forall s, n | s in dist' && Step(s, n)
        ensures n in dist' || Queued(next, n, dist'[s] + 1)
      {
        if s == p {
          var k :| 0 <= k < |added| && added[k] == n;
          assert next[|q| - 1 + k] == Entry(n, d + 1);
        } else if n !in dist' {
          var i :| 0 <= i < |q| && q[i].point == n && q[i].dist <= dist[s] + 1;
          assert next[i - 1] == q[i];
        }
      }
    }

    /** Visiting a new point, other than the end, and queueing its legal
        steps keeps the invariant. */
    lemma VisitKeepsInvariant(from: Point, q: seq<Entry>, seen: seq<Point>, dist: map<Point, nat>, level: nat)
      requires Valid() && SearchInvariant(from, q, seen, dist, level)
      requires q != [] && q[0].point !in dist && q[0].point != end
      ensures WithinGrid(q[0].point)
      ensures SearchInvariant(from, q[1..] + Entries(LegalSteps(q[0].point, 4), q[0].dist + 1),
                              seen + [q[0].point], dist[q[0].point := q[0].dist], q[0].dist)
    {
      var p, d := q[0].point, q[0].dist;
      var added := LegalSteps(p, 4);
      LegalStepsComplete(p);
      DequeueShortest(from, q, seen, dist, level);
      VisitKeepsQueue(from, q, level, added);
      VisitKeepsClosure(q, dist, added);
      VisitKeepsSeen(from, seen, dist, level, p, d);
    }

    lemma VisitKeepsSeen(from: Point, seen: seq<Point>, dist: map<Point, nat>, level: nat, p: Point, d: nat)
      requires Valid() && SeenOk(from, seen, dist, level)
      requires p !in dist && p != end && WithinGrid(p) && Shortest(from, p, d) && level <= d
      ensures SeenOk(from, seen + [p], dist[p := d], d)
    {
    }

    /** When the queue runs dry the end cannot be reached. */
    lemma ExhaustedUnreachable(from: Point, seen: seq<Point>, dist: map<Point, nat>, level: nat)
      requires Valid() && SearchInvariant(from, [], seen, dist, level)
      ensures Unreachable(from, end)
    {
      forall n: nat
        ensures !ReachableIn(from, end, n)
      {
        if ReachableIn(from, end, n) {
          var path :| IsPath(path) && |path| == n + 1 && path[0] == from && path[n] == end;
          var j := Crossing(path, dist);
        }
      }
    }

    /** The cells not yet visited. */
    ghost function Unvisited(seen: seq<Point>): set<Point> {
      set r: int, c: int | 0 <= r < |data| && 0 <= c < |data[0]| && Point(r, c) !in seen :: Point(r, c)
    }

    /** Visiting an unvisited cell leaves fewer unvisited cells. */
    lemma VisitShrinks(seen: seq<Point>, p: Point)
      requires WithinGrid(p) && p !in seen
      ensures Unvisited(seen + [p]) < Unvisited(seen)
    {
      assert p in Unvisited(seen) && p !in Unvisited(seen + [p]);
    }

    /** The `for` over the four directions in `evaluate`: each neighbour
        inside the grid that can be moved to is queued one step farther. */
    method PushSteps(point: Point, d: nat, q: seq<Entry>) returns (r: seq<Entry>)
      requires Valid() && WithinGrid(point)
      ensures r == q + Entries(LegalSteps(point, 4), d + 1)
    {
      r := q;
      for k := 0 to 4
        invariant r == q + Entries(LegalSteps(point, k), d + 1)
      {
        var newPoint := Point(point.row + Diffs[k].0, point.col + Diffs[k].1);
        EntriesOfLegalSteps(point, k, d + 1);
        if !WithinGrid(newPoint) {
          continue;
        }
        if CanMove(point, newPoint) {
          r := r + [Entry(newPoint, d + 1)];
        }
      }
    }

    /** `evaluate`: breadth-first search from `from`; the number of steps to
        the end when it is reachable, nothing otherwise. */
    method Evaluate(from: Point) returns (r: Option<nat>)
      requires Valid() && WithinGrid(from)
      ensures r.Some? ==> Shortest(from, end, r.value)
      ensures r.None? ==> Unreachable(from, end)
    {
      var q := [Entry(from, 0)];
      var seen: seq<Point> := [];
      ghost var dist: map<Point, nat> := map[];
      ghost var level: nat := 0;
      InitialInvariant(from);
      while q != []
        invariant SearchInvariant(from, q, seen, dist, level)
        decreases Unvisited(seen), |q|
      {
        ghost var q0 := q;
        var point, d := q[0].point, q[0].dist;
        q := q[1..];
        if point in seen {
          SkipKeepsInvariant(from, q0, seen, dist, level);
          continue;
        }
        if point == end {
          DequeueShortest(from, q0, seen, dist, level);
          return Some(d);
        }
        VisitKeepsInvariant(from, q0, seen, dist, level);
        VisitShrinks(seen, point);
        seen := seen + [point];
        q := PushSteps(point, d, q);
        dist := dist[point := d];
        level := d;
      }
      ExhaustedUnreachable(from, seen, dist, level);
      return None;
    }

    /** `startToEndCost`: fails exactly when the end cannot be reached. */
    method StartToEndCost() returns (r: Result<nat>)
      requires Valid()
      ensures r.Ok? <==> !Unreachable(start, end)
      ensures r.Ok? ==> Shortest(start, end, r.value)
    {
      var cost := Evaluate(start);
      if cost.Some? {
        if cost.value == 0 {
          ReachableZero(start, end);
        }
      }
      if cost.None? || cost.value == 0 {
        return Err("No path found :(");
      }
      return Ok(cost.value);
    }

    /** The fewest steps from any lowest cell to the end. */
    ghost predicate IsLowest(v: nat)
      requires Valid()
    {
      (exists k :: 0 <= k < |allLowest| && Shortest(allLowest[k], end, v)) &&
      forall k, n: nat :: 0 <= k < |allLowest| && ReachableIn(allLowest[k], end, n) ==> v <= n
    }

    ghost predicate Measured(from: Point, o: Option<nat>)
      requires Valid()
    {
      (o.Some? ==> Shortest(from, end, o.value)) && (o.None? ==> Unreachable(from, end))
    }

    /** `lowestStartingCost`: a search from every lowest cell, then the least
        of the distances found; fails when no lowest cell reaches the end. */
    method LowestStartingCost() returns (r: Result<nat>)
      requires Valid()
      ensures r.Ok? <==> exists k :: 0 <= k < |allLowest| && !Unreachable(allLowest[k], end)
      ensures r.Ok? ==> IsLowest(r.value)
    {
      var distances: seq<Option<nat>> := [];
      for i := 0 to |allLowest|
        invariant |distances| == i
        invariant forall k :: 0 <= k < i ==> Measured(allLowest[k], distances[k])
      {
        var dist := Evaluate(allLowest[i]);
        distances := distances + [dist];
      }
      var lowest := MinDefined(distances);
      if lowest.None? || lowest.value == 0 {
        return Err("No valid paths found! :(");
      }
      var v := lowest.value;
      var w :| 0 <= w < |distances| && distances[w] == Some(v);
      assert Shortest(allLowest[w], end, v);
      forall k, n: nat | 0 <= k < |allLowest| && ReachableIn(allLowest[k], end, n)
        ensures v <= n
      {
        assert distances[k].Some?;
      }
      r := Ok(v);
    }
  }

  /** The reduce in `lowestStartingCost`: the least defined distance, if any. */
  function MinDefined(ds: seq<Option<nat>>): (r: Option<nat>)
    ensures r.None? <==> forall i :: 0 <= i < |ds| ==> ds[i].None?
    ensures r.Some? ==> exists i :: 0 <= i < |ds| && ds[i] == Some(r.value)
    ensures r.Some? ==> forall i :: 0 <= i < |ds| && ds[i].Some? ==> r.value <= ds[i].value
  {
    if ds == [] then None
    else
      var min := MinDefined(ds[..|ds| - 1]);
      var dist := ds[|ds| - 1];
      if dist.None? then min
      else if min.None? then dist
      else if dist.value <= min.value then dist
      else min
  }

  /** The grid after the constructor's rewrite of `S` to `a` and `E` to `z`. */
  ghost predicate Normalised(data: seq<seq<char>>, grid: seq<seq<char>>, start: Point, end: Point) {
    |grid| == |data| &&
    (forall i :: 0 <= i < |data| ==> |grid[i]| == |data[i]|) &&
    forall i, j :: 0 <= i < |data| && 0 <= j < |data[i]| ==>
      grid[i][j] == if Point(i, j) == start then 'a' else if Point(i, j) == end then 'z' else data[i][j]
  }

  function Rewrite(data: seq<seq<char>>, p: Point, c: char): (r: seq<seq<char>>)
    requires 0 <= p.row < |data| && 0 <= p.col < |data[p.row]|
    ensures |r| == |data| && forall i :: 0 <= i < |data| ==> |r[i]| == |data[i]|
    ensures forall i, j :: 0 <= i < |data| && 0 <= j < |data[i]| ==> r[i][j] == if Point(i, j) == p then c else data[i][j]
  {
    data[p.row := data[p.row][p.col := c]]
  }

  /** The `Map` constructor: the first `S` is the start and the first `E` the
      end; they become `a` and `z`, and the lowest cells are then all the `a`s.
      Without an `S` or an `E` there is no map (the source fails indexing
      an undefined point). */
  method NewMap(data: seq<seq<char>>) returns (r: Result<Map>)
    requires Rectangular(data)
    ensures r.Err? <==> (forall p :: !Holds(data, p, 'S')) || (forall p :: !Holds(data, p, 'E'))
    ensures r.Ok? ==> r.value.Valid()
    ensures r.Ok? ==> FirstHolding(data, r.value.start, 'S') && FirstHolding(data, r.value.end, 'E')
    ensures r.Ok? ==> Normalised(data, r.value.data, r.value.start, r.value.end)
    ensures r.Ok? ==> (forall p :: p in r.value.allLowest <==> Holds(r.value.data, p, 'a')) && SortedRowMajor(r.value.allLowest)
    ensures r.Ok? ==> r.value.start in r.value.allLowest
  {
    var starts := FindCoordinate(data, 'S');
    var ends := FindCoordinate(data, 'E');
    if starts == [] {
      assert forall p :: !Holds(data, p, 'S');
      return Err("Cannot read properties of undefined");
    }
    if ends == [] {
      assert forall p :: !Holds(data, p, 'E');
      return Err("Cannot read properties of undefined");
    }
    var start, end := starts[0], ends[0];
    assert Holds(data, start, 'S') && Holds(data, end, 'E');
    FirstOfSorted(data, 'S', starts);
    FirstOfSorted(data, 'E', ends);
    var grid := Rewrite(Rewrite(data, start, 'a'), end, 'z');
    var allLowest := FindCoordinate(grid, 'a');
    assert Holds(grid, start, 'a');
    var m := Map(grid, start, end, allLowest);
    forall k | 0 <= k < |allLowest|
      ensures m.WithinGrid(allLowest[k]) && allLowest[k] != end
    {
      assert allLowest[k] in allLowest;
      assert Holds(grid, end, 'z');
    }
    r := Ok(m);
  }

  /** The answer to part 2 never exceeds that of part 1: the start is one of
      the lowest cells. */
  lemma LowestAtMostStart(m: Map, v: nat, w: nat)
    requires m.Valid() && m.start in m.allLowest
    requires m.Shortest(m.start, m.end, v) && m.IsLowest(w)
    ensures w <= v
  {
    var k :| 0 <= k < |m.allLowest| && m.allLowest[k] == m.start;
  }

  /** `Day12`: build the map once and answer both parts. `built` is the map
      the constructor gives, or its failure without an `S` or an `E`, in which
      case both parts fail. Part 1 is the fewest steps from the start to the
      end, part 2 the fewest from any `a` cell; whenever part 1 has an answer,
      so has part 2, and it is no larger. */
  method Solve(data: seq<seq<char>>) returns (part1: Result<nat>, part2: Result<nat>, ghost built: Result<Map>)
    requires Rectangular(data)
    ensures built.Err? <==> (forall p :: !Holds(data, p, 'S')) || (forall p :: !Holds(data, p, 'E'))
    ensures built.Err? ==> part1.Err? && part2.Err?
    ensures built.Ok? ==> built.value.Valid()
    ensures built.Ok? ==> FirstHolding(data, built.value.start, 'S') && FirstHolding(data, built.value.end, 'E')
    ensures built.Ok? ==> Normalised(data, built.value.data, built.value.start, built.value.end)
    ensures built.Ok? ==> forall p :: p in built.value.allLowest <==> Holds(built.value.data, p, 'a')
    ensures built.Ok? ==> (part1.Ok? <==> !built.value.Unreachable(built.value.start, built.value.end))
    ensures built.Ok? && part1.Ok? ==> built.value.Shortest(built.value.start, built.value.end, part1.value)
    ensures built.Ok? ==> (part2.Ok? <==>
      exists k :: 0 <= k < |built.value.allLowest| && !built.value.Unreachable(built.value.allLowest[k], built.value.end))
    ensures built.Ok? && part2.Ok? ==> built.value.IsLowest(part2.value)
    ensures part1.Ok? ==> part2.Ok? && part2.value <= part1.value
  {
    var made := NewMap(data);
    built := made;
    if made.Err? {
      return Err(made.message), Err(made.message), made;
    }
    var m := made.value;
    part1 := m.StartToEndCost();
    part2 := m.LowestStartingCost();
    if part1.Ok? {
      var k :| 0 <= k < |m.allLowest| && m.allLowest[k] == m.start;
      assert !m.Unreachable(m.allLowest[k], m.end);
      LowestAtMostStart(m, part1.value, part2.value);
    }
  }
}
