/** Breadth-first search over whole partial paths, with one visited set that
    is never cleared. */
module Solver {
  import opened MazeGrid
  import opened Moves
  import opened Routes

  /** Some path in q[lo..hi) ends at x. */
  ghost predicate TailIn(q: seq<seq<Loc>>, lo: int, hi: int, x: Loc) {
    exists j :: lo <= j < hi && 0 <= j < |q| && |q[j]| > 0 && q[j][|q[j]| - 1] == x
  }

  /** The queue holds `split` paths of `level` cells followed by paths of
      level + 1 cells. */
  ghost predicate QueueShape(q: seq<seq<Loc>>, level: nat, split: nat) {
    split <= |q| && (q != [] ==> 0 < split) &&
    (forall j :: 0 <= j < split ==> |q[j]| == level) &&
    (forall j :: split <= j < |q| ==> |q[j]| == level + 1)
  }

  /** Every queued path is a route without repeats whose cells below the top
      have all been visited. */
  ghost predicate QueuedRoutes(g: Grid, q: seq<seq<Loc>>, visited: set<Loc>) {
    forall j :: 0 <= j < |q| ==>
      IsRoute(g, q[j]) && NoRepeats(q[j]) &&
      forall k :: 0 <= k < |q[j]| - 1 ==> q[j][k] in visited
  }

  /** Every move out of a visited cell leads to a visited cell or to the top
      of a queued path. */
  ghost predicate Closed(g: Grid, q: seq<seq<Loc>>, visited: set<Loc>) {
    forall y, x :: y in visited && x in ValidMoves(g, y) ==> x in visited || TailIn(q, 0, |q|, x)
  }

  /** Routes with fewer than `level` cells end in a visited cell; routes of
      exactly `level` cells end in a visited cell or at the top of one of the
      first `split` queued paths. */
  ghost predicate LevelsCovered(g: Grid, q: seq<seq<Loc>>, visited: set<Loc>, level: nat, split: nat) {
    (forall w :: IsRoute(g, w) && |w| < level ==> w[|w| - 1] in visited) &&
    (forall w :: IsRoute(g, w) && |w| == level ==> w[|w| - 1] in visited || TailIn(q, 0, split, w[|w| - 1]))
  }

  /** The invariant of the search loop. */
  ghost predicate SearchInv(g: Grid, q: seq<seq<Loc>>, visited: set<Loc>, level: nat, split: nat, bound: nat) {
    QueueShape(q, level, split) && QueuedRoutes(g, q, visited) &&
    Exit(g) !in visited && Closed(g, q, visited) && LevelsCovered(g, q, visited, level, split) &&
    bound == |Universe(g)| && 1 <= level <= bound + 1 && (q != [] ==> level <= bound)
  }

  /** The paths `cur` extended by each of `xs`, in order. */
  function Extend(cur: seq<Loc>, xs: seq<Loc>): seq<seq<Loc>> {
    seq(|xs|, j requires 0 <= j < |xs| => cur + [xs[j]])
  }

  /** The source's solveMaze. When the queue runs dry the stack {(0,0)} it
      prepared at the start is returned. */
  method SolveMaze(g: Grid) returns (path: seq<Loc>)
    ensures if Reachable(g, Exit(g)) then IsShortestSolution(g, path) else path == [Entry]
  {
    path := [Entry];
    var entryPath := [Entry];
    var uniqueLocations: set<Loc> := {};
    var viableMoves: set<Loc> := {};
    var exit := Exit(g);
    var allPaths: seq<seq<Loc>> := [entryPath];
    ghost var bound := |Universe(g)|;
    ghost var level: nat, split: nat := 1, 1;
    InitialInvariant(g);
    while |allPaths| > 0
      invariant SearchInv(g, allPaths, uniqueLocations, level, split, bound)
      invariant path == [Entry] && viableMoves == {}
      decreases bound + 1 - level, split
    {
      ghost var queue, visited := allPaths, uniqueLocations;
      var curPath := allPaths[0];
      allPaths := allPaths[1..];
      uniqueLocations := MarkVisited(curPath, uniqueLocations);
      if curPath[|curPath| - 1] == exit {
        FoundIsShortest(g, queue, visited, level, split, bound);
        return curPath;
      }
      var tail := curPath[|curPath| - 1];
      var uncensoredMoves := GenerateValidMoves(g, tail);
      viableMoves := Unvisited(g, tail, uncensoredMoves, uniqueLocations);
      var moves := InOrder(tail, viableMoves);
      InOrderListsSet(g, tail, viableMoves);
      allPaths := EnqueueExtensions(allPaths, curPath, moves);
      viableMoves := {};
      ghost var level', split' := if split > 1 then level else level + 1, if split > 1 then split - 1 else |allPaths|;
      StepKeepsInvariant(g, queue, visited, level, split, bound, moves, allPaths, level', split');
      level, split := level', split';
    }
    ExhaustedUnreachable(g, uniqueLocations, level);
  }

  /** Pops a copy of `curPath` cell by cell, adding each to the visited set. */
  method MarkVisited(curPath: seq<Loc>, visited: set<Loc>) returns (uniqueLocations: set<Loc>)
    ensures uniqueLocations == visited + Elements(curPath)
  {
    uniqueLocations := visited;
    var curPathReference := curPath;
    for i := 0 to |curPath|
      invariant curPathReference == curPath[..|curPath| - i]
      invariant uniqueLocations == visited + Elements(curPath[|curPath| - i..])
    {
      uniqueLocations := uniqueLocations + {curPathReference[|curPathReference| - 1]};
      ElementsOfSuffix(curPath, |curPath| - i - 1);
      curPathReference := curPathReference[..|curPathReference| - 1];
    }
    assert curPath[0..] == curPath;
  }

  /** Keeps the moves, taken in ascending order, that have not been visited. */
  method Unvisited(g: Grid, tail: Loc, uncensoredMoves: set<Loc>, uniqueLocations: set<Loc>)
    returns (viableMoves: set<Loc>)
    requires uncensoredMoves <= ValidMoves(g, tail)
    ensures forall x :: x in viableMoves <==> x in uncensoredMoves && x !in uniqueLocations
  {
    viableMoves := {};
    var ascending := InOrder(tail, uncensoredMoves);
    InOrderListsSet(g, tail, uncensoredMoves);
    for k := 0 to |ascending|
      invariant forall x :: x in viableMoves <==> x in ascending[..k] && x !in uniqueLocations
    {
      var currElem := ascending[k];
      if currElem !in uniqueLocations {
        viableMoves := viableMoves + {currElem};
      }
      assert ascending[..k + 1] == ascending[..k] + [currElem];
    }
    assert ascending[..|ascending|] == ascending;
  }

  /** Appends `curPath` extended by each move to the back of the queue. */
  method EnqueueExtensions(allPaths: seq<seq<Loc>>, curPath: seq<Loc>, moves: seq<Loc>)
    returns (queue: seq<seq<Loc>>)
    ensures queue == allPaths + Extend(curPath, moves)
  {
    queue := allPaths;
    for k := 0 to |moves|
      invariant queue == allPaths + Extend(curPath, moves[..k])
    {
      var curPathCopy := curPath + [moves[k]];
      queue := queue + [curPathCopy];
      assert Extend(curPath, moves[..k + 1]) == Extend(curPath, moves[..k]) + [curPathCopy];
    }
    assert moves[..|moves|] == moves;
  }

  lemma InitialInvariant(g: Grid)
    ensures SearchInv(g, [[Entry]], {}, 1, 1, |Universe(g)|)
  {
    var q := [[Entry]];
    assert Entry in Universe(g);
    forall w | IsRoute(g, w) && |w| == 1 ensures TailIn(q, 0, 1, w[|w| - 1]) {
      assert q[0][0] == w[0];
    }
  }

  /** The first path to reach the exit has as many cells as the current
      level, and every shorter route ends in a visited cell, which the exit
      is not. */
  lemma FoundIsShortest(g: Grid, q: seq<seq<Loc>>, visited: set<Loc>, level: nat, split: nat, bound: nat)
    requires SearchInv(g, q, visited, level, split, bound)
    requires q != [] && q[0][|q[0]| - 1] == Exit(g)
    ensures Reachable(g, Exit(g)) && IsShortestSolution(g, q[0])
  {
  }

  /** With the queue empty the visited set is closed under moves and covers
      every route, so no route reaches the exit. */
  lemma ExhaustedUnreachable(g: Grid, visited: set<Loc>, level: nat)
    requires SearchInv(g, [], visited, level, 0, |Universe(g)|)
    ensures !Reachable(g, Exit(g))
  {
    forall w | IsRoute(g, w) ensures w[|w| - 1] in visited {
      AllRoutesVisited(g, visited, level, w);
    }
  }

  lemma {:induction false} AllRoutesVisited(g: Grid, visited: set<Loc>, level: nat, w: seq<Loc>)
    requires 1 <= level
    requires forall v :: IsRoute(g, v) && |v| <= level ==> v[|v| - 1] in visited
    requires forall y, x :: y in visited && x in ValidMoves(g, y) ==> x in visited
    requires IsRoute(g, w)
    ensures w[|w| - 1] in visited
    decreases |w|
  {
    if |w| > level {
      RoutePrefix(g, w, |w| - 1);
      AllRoutesVisited(g, visited, level, w[..|w| - 1]);
      assert w[|w| - 1] in ValidMoves(g, w[|w| - 2]);
    }
  }

  /** One round of the loop: dequeue cur, visit its cells, enqueue cur
      extended by each unvisited move from its top. */
  lemma StepKeepsInvariant(g: Grid, q: seq<seq<Loc>>, visited: set<Loc>, level: nat, split: nat, bound: nat,
                           xs: seq<Loc>, q': seq<seq<Loc>>, level': nat, split': nat)
    requires SearchInv(g, q, visited, level, split, bound)
    requires q != [] && q[0][|q[0]| - 1] != Exit(g)
    requires forall x :: x in xs <==> x in ValidMoves(g, q[0][|q[0]| - 1]) && x !in visited + Elements(q[0])
    requires q' == q[1..] + Extend(q[0], xs)
    requires level' == (if split > 1 then level else level + 1)
    requires split' == (if split > 1 then split - 1 else |q'|)
    ensures SearchInv(g, q', visited + Elements(q[0]), level', split', bound)
  {
    var visited' := visited + Elements(q[0]);
    ShapeStep(q, level, split, xs, q', level', split');
    RoutesStep(g, q, visited, xs, q');
    ClosedStep(g, q, visited, xs, q');
    LevelsStep(g, q, visited, level, split, xs, q', level', split');
    ExitStaysUnvisited(g, q[0], visited);
    if q' != [] {
      LevelBound(g, q', visited', level', split');
    }
  }

  /** The cells of a dequeued path other than its top were visited already,
      so visiting them all leaves the exit unvisited unless the top is the
      exit. */
  lemma ExitStaysUnvisited(g: Grid, cur: seq<Loc>, visited: set<Loc>)
    requires |cur| > 0 && cur[|cur| - 1] != Exit(g) && Exit(g) !in visited
    requires forall k :: 0 <= k < |cur| - 1 ==> cur[k] in visited
    ensures Exit(g) !in visited + Elements(cur)
  {
  }

  /** A queued path repeats no cell, so it is no longer than the maze is
      large, and neither is the current level. */
  lemma LevelBound(g: Grid, q: seq<seq<Loc>>, visited: set<Loc>, level: nat, split: nat)
    requires QueueShape(q, level, split) && QueuedRoutes(g, q, visited) && q != []
    ensures level <= |Universe(g)|
  {
    SimpleRouteBound(g, q[0]);
  }

  lemma ShapeStep(q: seq<seq<Loc>>, level: nat, split: nat, xs: seq<Loc>, q': seq<seq<Loc>>, level': nat, split': nat)
    requires QueueShape(q, level, split) && q != []
    requires q' == q[1..] + Extend(q[0], xs)
    requires level' == (if split > 1 then level else level + 1)
    requires split' == (if split > 1 then split - 1 else |q'|)
    ensures QueueShape(q', level', split')
  {
    forall j | |q| - 1 <= j < |q'| ensures |q'[j]| == level + 1 {
      assert q'[j] == q[0] + [xs[j - (|q| - 1)]];
    }
    forall j | 0 <= j < |q| - 1 ensures q'[j] == q[j + 1] {
    }
  }

  lemma RoutesStep(g: Grid, q: seq<seq<Loc>>, visited: set<Loc>, xs: seq<Loc>, q': seq<seq<Loc>>)
    requires QueuedRoutes(g, q, visited) && q != []
    requires forall x :: x in xs <==> x in ValidMoves(g, q[0][|q[0]| - 1]) && x !in visited + Elements(q[0])
    requires q' == q[1..] + Extend(q[0], xs)
    ensures QueuedRoutes(g, q', visited + Elements(q[0]))
  {
    var cur, visited' := q[0], visited + Elements(q[0]);
    forall j | 0 <= j < |q'|
      ensures IsRoute(g, q'[j]) && NoRepeats(q'[j])
      ensures forall k :: 0 <= k < |q'[j]| - 1 ==> q'[j][k] in visited'
    {
      if j < |q| - 1 {
        assert q'[j] == q[j + 1];
      } else {
        var x := xs[j - (|q| - 1)];
        var p := cur + [x];
        assert q'[j] == p;
        assert x in xs;
        forall k | 0 <= k < |p| - 1 ensures p[k + 1] in ValidMoves(g, p[k]) {
          if k < |cur| - 1 {
          }
        }
        forall a, b | 0 <= a < b < |p| ensures p[a] != p[b] {
          if b < |cur| {
          } else {
          }
        }
        forall k | 0 <= k < |p| - 1 ensures p[k] in visited' {
          assert p[k] == cur[k];
        }
      }
    }
  }

  lemma ClosedStep(g: Grid, q: seq<seq<Loc>>, visited: set<Loc>, xs: seq<Loc>, q': seq<seq<Loc>>)
    requires QueuedRoutes(g, q, visited) && Closed(g, q, visited) && q != []
    requires forall x :: x in xs <==> x in ValidMoves(g, q[0][|q[0]| - 1]) && x !in visited + Elements(q[0])
    requires q' == q[1..] + Extend(q[0], xs)
    ensures Closed(g, q', visited + Elements(q[0]))
  {
    var cur, visited' := q[0], visited + Elements(q[0]);
    var t := cur[|cur| - 1];
    forall y, x | y in visited' && x in ValidMoves(g, y)
      ensures x in visited' || TailIn(q', 0, |q'|, x)
    {
      if y in visited {
        if x !in visited {
          var j :| 0 <= j < |q| && |q[j]| > 0 && q[j][|q[j]| - 1] == x;
          if j > 0 {
            assert q'[j - 1] == q[j];
          }
        }
      } else {
        var k :| 0 <= k < |cur| && cur[k] == y;
        assert k == |cur| - 1;
        if x !in visited' {
          assert x in xs;
          var m :| 0 <= m < |xs| && xs[m] == x;
          assert q'[|q| - 1 + m] == cur + [x];
        }
      }
    }
  }

  lemma LevelsStep(g: Grid, q: seq<seq<Loc>>, visited: set<Loc>, level: nat, split: nat,
                   xs: seq<Loc>, q': seq<seq<Loc>>, level': nat, split': nat)
    requires QueueShape(q, level, split) && QueuedRoutes(g, q, visited) && q != [] && 1 <= level
    requires LevelsCovered(g, q, visited, level, split)
    requires q' == q[1..] + Extend(q[0], xs)
    requires Closed(g, q', visited + Elements(q[0]))
    requires level' == (if split > 1 then level else level + 1)
    requires split' == (if split > 1 then split - 1 else |q'|)
    ensures LevelsCovered(g, q', visited + Elements(q[0]), level', split')
  {
    FrontLevelStep(g, q, visited, level, split, xs, q');
    if split == 1 {
      NextLevelStep(g, q', visited + Elements(q[0]), level);
    }
  }

  /** Routes of `level` cells still end in a visited cell or at the top of a
      front path: the top of q[0] is now visited and the other front paths
      moved one place forward. */
  lemma FrontLevelStep(g: Grid, q: seq<seq<Loc>>, visited: set<Loc>, level: nat, split: nat,
                       xs: seq<Loc>, q': seq<seq<Loc>>)
    requires QueueShape(q, level, split) && q != [] && 1 <= level
    requires LevelsCovered(g, q, visited, level, split)
    requires q' == q[1..] + Extend(q[0], xs)
    ensures forall w :: IsRoute(g, w) && |w| == level ==>
      w[|w| - 1] in visited + Elements(q[0]) || TailIn(q', 0, split - 1, w[|w| - 1])
  {
    var visited' := visited + Elements(q[0]);
    assert q[0][|q[0]| - 1] in visited';
    forall w | IsRoute(g, w) && |w| == level
      ensures w[|w| - 1] in visited' || TailIn(q', 0, split - 1, w[|w| - 1])
    {
      if w[|w| - 1] !in visited' {
        var j :| 0 <= j < split && 0 <= j < |q| && |q[j]| > 0 && q[j][|q[j]| - 1] == w[|w| - 1];
        assert j > 0;
        assert q'[j - 1] == q[j];
      }
    }
  }

  /** Once every route of `level` cells ends in a visited cell, closure puts
      the end of every route one cell longer in the visited set or on the
      queue. */
  lemma NextLevelStep(g: Grid, q: seq<seq<Loc>>, visited: set<Loc>, level: nat)
    requires 1 <= level && Closed(g, q, visited)
    requires forall w :: IsRoute(g, w) && |w| == level ==> w[|w| - 1] in visited
    ensures forall w :: IsRoute(g, w) && |w| == level + 1 ==>
      w[|w| - 1] in visited || TailIn(q, 0, |q|, w[|w| - 1])
  {
    forall w | IsRoute(g, w) && |w| == level + 1
      ensures w[|w| - 1] in visited || TailIn(q, 0, |q|, w[|w| - 1])
    {
      RoutePrefix(g, w, level);
      var w' := w[..level];
      assert w'[|w'| - 1] in visited;
      assert w[|w| - 1] in ValidMoves(g, w'[|w'| - 1]);
    }
  }
}
