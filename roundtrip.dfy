/** What the validator says about the solver's answers. */
module RoundTrip {
  import opened MazeGrid
  import opened Moves
  import opened Routes
  import opened Validation
  import opened Solver

  /** A route without repeats from the entry to the exit passes every test
      the validator makes of the upper half, so its verdict is decided by
      its length alone: odd lengths are accepted and even lengths fail the
      start test, which then sees a cell other than the entry. */
  lemma SimpleRouteVerdict(g: Grid, w: seq<Loc>)
    requires IsRoute(g, w) && NoRepeats(w) && w[|w| - 1] == Exit(g)
    ensures Validate(g, w) == if |w| % 2 == 1 then Ok else NotAtStart
  {
    NoRepeatsFromSuffixes(w);
    assert UpperHalfChained(g, w);
    AcceptIff(g, w);
    ErrorsLieInUpperHalf(g, w);
    if |w| % 2 == 0 {
      assert w[|w| / 2] != w[0];
    }
  }

  /** A shortest solution is accepted exactly when the maze has an even
      number of rows plus columns. */
  lemma SolutionVerdict(g: Grid, p: seq<Loc>)
    requires IsShortestSolution(g, p)
    ensures Validate(g, p) == if (|g| + Cols(g)) % 2 == 0 then Ok else NotAtStart
  {
    RouteLengthParity(g, p);
    SimpleRouteVerdict(g, p);
    OddSum(|p|, |g| + Cols(g));
  }

  lemma OddSum(a: nat, b: nat)
    requires (a + b) % 2 == 1
    ensures a % 2 == 1 <==> b % 2 == 0
  {
  }

  /** The fallback answer of an unsolvable maze is rejected as not ending at
      the exit. */
  lemma FallbackVerdict(g: Grid)
    requires !Reachable(g, Exit(g))
    ensures Validate(g, [Entry]) == NotAtExit
  {
    assert IsRoute(g, [Entry]);
  }

  /** The intended validator accepts every shortest solution. */
  lemma IntendedAcceptsSolution(g: Grid, p: seq<Loc>)
    requires IsShortestSolution(g, p)
    ensures ValidateIntended(g, p) == Ok
  {
    IntendedAcceptsExactlySolutions(g, p);
  }

  /** In a one-cell maze the entry is the exit and the answer is the
      one-cell path. */
  lemma OneCellSolution(g: Grid, p: seq<Loc>)
    requires Exit(g) == Entry && IsShortestSolution(g, p)
    ensures p == [Entry]
  {
  }

  /** The shortest solution of the 2x2 maze of the source's tests is the
      one its test of validatePath uses. */
  lemma SolutionOfTwoByTwo(p: seq<Loc>)
    requires IsShortestSolution([[true, false], [true, true]], p)
    ensures p == [Loc(0, 0), Loc(1, 0), Loc(1, 1)]
  {
    var g: Grid := [[true, false], [true, true]];
    CornerWithWall();
    EntryNeighbourOfTwoByTwo();
    ThreeCellRoute(g, p, Loc(1, 0));
  }

  /** A shortest solution is no longer than a route through `mid`, the only
      move from the entry, when the exit is a move from `mid`. */
  lemma ThreeCellRoute(g: Grid, p: seq<Loc>, mid: Loc)
    requires IsShortestSolution(g, p) && Exit(g) != Entry
    requires ValidMoves(g, Entry) == {mid} && Exit(g) in ValidMoves(g, mid)
    ensures p == [Entry, mid, Exit(g)]
  {
    var s := [Entry, mid, Exit(g)];
    assert IsRoute(g, s);
    assert |p| <= 3;
    assert p[1] in ValidMoves(g, p[0]);
    assert p[1] == mid;
    assert |p| != 2;
  }

  lemma EntryNeighbourOfTwoByTwo()
    ensures ValidMoves([[true, false], [true, true]], Loc(1, 0)) == {Loc(0, 0), Loc(1, 1)}
  {
  }

  /** Solving a maze and handing the answer to the validator, as the
      source's tests on maze files do. */
  method SolveThenValidate(g: Grid) returns (path: seq<Loc>, v: Verdict)
    ensures Reachable(g, Exit(g)) ==> v == if (|g| + Cols(g)) % 2 == 0 then Ok else NotAtStart
    ensures !Reachable(g, Exit(g)) ==> v == NotAtExit
    ensures ValidateIntended(g, path) == Ok <==> Reachable(g, Exit(g))
  {
    path := SolveMaze(g);
    v := ValidatePath(g, path);
    if Reachable(g, Exit(g)) {
      SolutionVerdict(g, path);
      IntendedAcceptsSolution(g, path);
    } else {
      FallbackVerdict(g);
    }
  }
}
