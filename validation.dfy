/** Path validation as the source performs it: the path is a stack (last
    element = top = exit end), walked from the top by popping a copy. */
module Validation {
  import opened MazeGrid
  import opened Moves
  import opened Routes

  /** The outcome of validating a path: success or the first error raised. */
  datatype Verdict = Ok | NotAtExit | Empty | Revisited | NotAtStart | BadMove

  /** Iteration `i` (from 0) of the validation loop and those after it.
      Iteration i pops path[n-1-i] while n - i elements remain, and runs only
      while i < n - i, because the loop bound re-reads the shrinking stack.
      After the pop the new top path[n-2-i] must not have been popped before
      and the popped cell must be a valid move from it; when n == 2i + 2 the
      popped cell (not the bottom) must also be the entry. */
  function Walk(g: Grid, path: seq<Loc>, i: nat): (v: Verdict)
    ensures v != Empty && v != NotAtExit
    decreases |path| - i
  {
    var n := |path|;
    if n <= 2 * i || n == i + 1 then Ok
    else if path[n - 2 - i] in path[n - 1 - i..] then Revisited
    else if n == 2 * i + 2 && path[n - 1 - i] != Entry then NotAtStart
    else if path[n - 1 - i] !in ValidMoves(g, path[n - 2 - i]) then BadMove
    else Walk(g, path, i + 1)
  }

  /** The verdict of the source's validatePath. Peeking at an empty stack is
      itself an error, so the empty path fails before the exit test. */
  function Validate(g: Grid, path: seq<Loc>): (v: Verdict)
    ensures v == Empty <==> path == []
    ensures v == NotAtExit <==> path != [] && path[|path| - 1] != Exit(g)
  {
    if path == [] then Empty
    else if path[|path| - 1] != Exit(g) then NotAtExit
    else Walk(g, path, 0)
  }

  /** The source's loop from iteration `i` on, over the stack copy as it
      stands and the set of cells popped so far. */
  function Pop(g: Grid, stack: seq<Loc>, seen: set<Loc>, i: nat): (v: Verdict)
    ensures v != Empty && v != NotAtExit
    decreases |stack|
  {
    if i >= |stack| || |stack| == 1 then Ok
    else
      var cur, rest := stack[|stack| - 1], stack[..|stack| - 1];
      if rest[|rest| - 1] in seen + {cur} then Revisited
      else if i == |rest| - 1 && cur != Entry then NotAtStart
      else if cur !in ValidMoves(g, rest[|rest| - 1]) then BadMove
      else Pop(g, rest, seen + {cur}, i + 1)
  }

  /** Run on the stack copy with the top i cells popped and `seen` holding
      exactly those cells, the loop gives the verdict of the index form. */
  lemma {:induction false} PopIsWalk(g: Grid, path: seq<Loc>, i: nat)
    requires i <= |path|
    ensures Pop(g, path[..|path| - i], Elements(path[|path| - i..]), i) == Walk(g, path, i)
    decreases |path| - i
  {
    var n := |path|;
    var stack, seen := path[..n - i], Elements(path[n - i..]);
    if !(i >= |stack| || |stack| == 1) {
      var cur, rest := stack[|stack| - 1], stack[..|stack| - 1];
      assert cur == path[n - 1 - i];
      assert rest == path[..n - 1 - i];
      assert rest[|rest| - 1] == path[n - 2 - i];
      ElementsOfSuffix(path, n - 1 - i);
      ElementsMember(path[n - 1 - i..]);
      assert seen + {cur} == Elements(path[n - 1 - i..]);
      assert (rest[|rest| - 1] in seen + {cur}) == (path[n - 2 - i] in path[n - 1 - i..]);
      assert (i == |rest| - 1) == (n == 2 * i + 2);
      PopIsWalk(g, path, i + 1);
    }
  }

  /** The source's loop, on a copy of the stack and a growing set of the
      locations popped so far. */
  method ValidatePath(g: Grid, path: seq<Loc>) returns (v: Verdict)
    ensures v == Validate(g, path)
  {
    var mazeExit := Exit(g);
    var mazeStart := Entry;
    var uniqueLocations: set<Loc> := {};
    var stack := path;
    if |stack| == 0 {
      return Empty;
    }
    if stack[|stack| - 1] != mazeExit {
      return NotAtExit;
    }
    PopIsWalk(g, path, 0);
    assert path[..|path|] == path && Elements(path[|path|..]) == {};
    ghost var verdict := Validate(g, path);
    var i := 0;
    while i < |stack|
      invariant Pop(g, stack, uniqueLocations, i) == verdict
      decreases |stack|
    {
      var cur := stack[|stack| - 1];
      stack := stack[..|stack| - 1];
      if |stack| == 0 {
        break;
      }
      uniqueLocations := uniqueLocations + {cur};
      if stack[|stack| - 1] in uniqueLocations {
        return Revisited;
      }
      var previousLocation := stack[|stack| - 1];
      if i == |stack| - 1 {
        if cur != mazeStart {
          return NotAtStart;
        }
      }
      var validPaths := GenerateValidMoves(g, previousLocation);
      if cur !in validPaths {
        return BadMove;
      }
      i := i + 1;
    }
    return Ok;
  }

  /** Cell c of the path is a valid move from cell c - 1, which does not
      occur again above it. */
  predicate Linked(g: Grid, path: seq<Loc>, c: nat)
    requires 0 < c < |path|
  {
    path[c - 1] !in path[c..] && path[c] in ValidMoves(g, path[c - 1])
  }

  /** The part of the path the loop examines: from index n/2 upwards every
      cell is a valid move from the one below it, and the one below has not
      occurred higher up. */
  ghost predicate UpperHalfChained(g: Grid, path: seq<Loc>) {
    forall c :: |path| / 2 <= c < |path| && 0 < c ==> Linked(g, path, c)
  }

  /** Every pair from index lo upwards is linked: the loop, walking down
      from the top, has met no error above lo. */
  ghost predicate ChainedFrom(g: Grid, path: seq<Loc>, lo: int) {
    forall d :: lo <= d < |path| && 0 < d ==> Linked(g, path, d)
  }

  lemma {:induction false} WalkOk(g: Grid, path: seq<Loc>, i: nat)
    ensures Walk(g, path, i) == Ok <==>
      (forall c :: |path| / 2 <= c < |path| - i && 0 < c ==> Linked(g, path, c)) &&
      (|path| % 2 == 0 && 2 * i + 2 <= |path| ==> path[|path| / 2] == Entry)
    decreases |path| - i
  {
    var n := |path|;
    if !(n <= 2 * i || n == i + 1) {
      WalkOk(g, path, i + 1);
      var c := n - 1 - i;
      assert n / 2 <= c;
      if path[c - 1] in path[c..] {
        assert Walk(g, path, i) == Revisited && !Linked(g, path, c);
      } else if n == 2 * i + 2 && path[c] != Entry {
      } else if path[c] !in ValidMoves(g, path[c - 1]) {
        assert Walk(g, path, i) == BadMove && !Linked(g, path, c);
      } else {
        assert Walk(g, path, i) == Walk(g, path, i + 1) && Linked(g, path, c);
      }
    }
  }

  /** validatePath accepts exactly the paths whose top is the exit, whose
      upper half is chained, and whose middle cell path[n/2] is the entry
      when n is even. The lower cells path[0..n/2-1) are never looked at. */
  lemma AcceptIff(g: Grid, path: seq<Loc>)
    ensures Validate(g, path) == Ok <==>
      |path| > 0 && path[|path| - 1] == Exit(g) && UpperHalfChained(g, path) &&
      (|path| % 2 == 0 ==> path[|path| / 2] == Entry)
  {
    if path != [] {
      WalkOk(g, path, 0);
    }
  }

  lemma {:induction false} WalkNotAtStart(g: Grid, path: seq<Loc>, i: nat)
    requires Walk(g, path, i) == NotAtStart
    ensures |path| % 2 == 0 && 2 * i + 2 <= |path| && path[|path| / 2] != Entry
    decreases |path| - i
  {
    var n := |path|;
    if !(n == 2 * i + 2 && path[n - 1 - i] != Entry) {
      WalkNotAtStart(g, path, i + 1);
    }
  }

  /** From iteration i on, with the pairs above already linked, the start
      test is reached only once every pair above the middle is linked and
      the middle pair's lower cell has passed the revisit test. */
  lemma {:induction false} WalkStartReached(g: Grid, path: seq<Loc>, i: nat)
    requires ChainedFrom(g, path, |path| - i)
    requires Walk(g, path, i) == NotAtStart
    ensures |path| >= 2 && ChainedFrom(g, path, |path| / 2 + 1) &&
      path[|path| / 2 - 1] !in path[|path| / 2..]
    decreases |path| - i
  {
    var n := |path|;
    var c := n - 1 - i;
    if !(n == 2 * i + 2 && path[c] != Entry) {
      WalkStartReached(g, path, i + 1);
    }
  }

  /** The start test fires only on paths of even length, and then the middle
      cell path[n/2], not the bottom, is what is compared with the entry. It
      is reached only when no earlier test failed: every pair above the
      middle is linked and the cell below the middle is no revisit. */
  lemma StartTestOnlyForEven(g: Grid, path: seq<Loc>)
    ensures Validate(g, path) == NotAtStart ==>
      |path| % 2 == 0 && |path| >= 2 && path[|path| / 2] != Entry
    ensures Validate(g, path) == NotAtStart ==>
      ChainedFrom(g, path, |path| / 2 + 1) && path[|path| / 2 - 1] !in path[|path| / 2..]
  {
    if Validate(g, path) == NotAtStart {
      WalkNotAtStart(g, path, 0);
      WalkStartReached(g, path, 0);
    }
  }

  /** From iteration i on, a revisit is reported for the first faulty pair
      met walking down from the top: every pair above the witness c is
      linked. */
  lemma {:induction false} WalkRevisited(g: Grid, path: seq<Loc>, i: nat)
    requires ChainedFrom(g, path, |path| - i)
    ensures Walk(g, path, i) == Revisited ==>
      exists c :: |path| / 2 <= c < |path| - i && 0 < c && path[c - 1] in path[c..] &&
        ChainedFrom(g, path, c + 1)
    decreases |path| - i
  {
    var n := |path|;
    var c := n - 1 - i;
    if n <= 2 * i || n == i + 1 {
    } else if path[c - 1] in path[c..] {
    } else if n == 2 * i + 2 && path[c] != Entry {
    } else if path[c] !in ValidMoves(g, path[c - 1]) {
    } else {
      assert Linked(g, path, c);
      assert ChainedFrom(g, path, c);
      WalkRevisited(g, path, i + 1);
    }
  }

  /** From iteration i on, a bad move is reported for the first faulty pair
      met walking down from the top: its lower cell is no revisit, every
      pair above it is linked, and at the middle of an even-length path the
      start test has passed. */
  lemma {:induction false} WalkBadMove(g: Grid, path: seq<Loc>, i: nat)
    requires ChainedFrom(g, path, |path| - i)
    ensures Walk(g, path, i) == BadMove ==>
      exists c :: |path| / 2 <= c < |path| - i && 0 < c && path[c - 1] !in path[c..] &&
        path[c] !in ValidMoves(g, path[c - 1]) && ChainedFrom(g, path, c + 1) &&
        (|path| % 2 == 0 && c == |path| / 2 ==> path[c] == Entry)
    decreases |path| - i
  {
    var n := |path|;
    var c := n - 1 - i;
    if n <= 2 * i || n == i + 1 {
    } else if path[c - 1] in path[c..] {
    } else if n == 2 * i + 2 && path[c] != Entry {
    } else if path[c] !in ValidMoves(g, path[c - 1]) {
    } else {
      assert Linked(g, path, c);
      assert ChainedFrom(g, path, c);
      WalkBadMove(g, path, i + 1);
    }
  }

  /** A revisit or a bad move is reported for the topmost faulty pair, which
      lies in the upper half: the lower cell has occurred above it, or the
      upper cell is not a valid move from it, and every pair above is
      linked. */
  lemma ErrorsLieInUpperHalf(g: Grid, path: seq<Loc>)
    ensures Validate(g, path) == Revisited ==>
      exists c :: |path| / 2 <= c < |path| && 0 < c && path[c - 1] in path[c..] &&
        ChainedFrom(g, path, c + 1)
    ensures Validate(g, path) == BadMove ==>
      exists c :: |path| / 2 <= c < |path| && 0 < c && path[c - 1] !in path[c..] &&
        path[c] !in ValidMoves(g, path[c - 1]) && ChainedFrom(g, path, c + 1) &&
        (|path| % 2 == 0 && c == |path| / 2 ==> path[c] == Entry)
  {
    WalkRevisited(g, path, 0);
    WalkBadMove(g, path, 0);
  }

  /** From iteration i on, two paths of the same length that agree from index
      lo upwards get the same verdict when lo is at most n/2 - 1: no iteration
      reads a cell below n/2 - 1. */
  lemma {:induction false} WalkIgnoresLowerHalf(g: Grid, p: seq<Loc>, q: seq<Loc>, lo: nat, i: nat)
    requires |p| == |q| && 2 * lo + 2 <= |p| && p[lo..] == q[lo..]
    ensures Walk(g, p, i) == Walk(g, q, i)
    decreases |p| - i
  {
    var n := |p|;
    if n <= 2 * i || n == i + 1 {
    } else {
      SharedTail(p, q, lo, n - 2 - i);
      WalkIgnoresLowerHalf(g, p, q, lo, i + 1);
    }
  }

  /** Sequences of equal length that agree from lo on agree at indices k and
      k + 1 and on the suffix from k + 1. */
  lemma SharedTail(p: seq<Loc>, q: seq<Loc>, lo: nat, k: nat)
    requires |p| == |q| && lo <= k && k + 1 < |p| && p[lo..] == q[lo..]
    ensures p[k] == q[k] && p[k + 1] == q[k + 1] && p[k + 1..] == q[k + 1..]
  {
    assert p[k] == p[lo..][k - lo] == q[k];
    assert p[k + 1] == p[lo..][k + 1 - lo] == q[k + 1];
    assert p[k + 1..] == p[lo..][k + 1 - lo..] == q[lo..][k + 1 - lo..] == q[k + 1..];
  }

  /** Two paths of the same length that agree from index n/2 - 1 upwards get
      the same verdict, whatever their lower cells are. */
  lemma LowerHalfIgnored(g: Grid, p: seq<Loc>, q: seq<Loc>)
    requires |p| == |q| >= 2 && p[|p| / 2 - 1..] == q[|q| / 2 - 1..]
    ensures Validate(g, p) == Validate(g, q)
  {
    WalkIgnoresLowerHalf(g, p, q, |p| / 2 - 1, 0);
  }

  /** A one-cell path passes exactly when that cell is the exit: the loop
      breaks after its first pop. */
  lemma OneCellPaths(g: Grid, l: Loc)
    ensures Validate(g, [l]) == (if l == Exit(g) then Ok else NotAtExit)
  {
  }

  /** A two-cell path ending at the exit of a maze larger than 1x1 always
      fails: the start test compares the exit with the entry. */
  lemma TwoCellPaths(g: Grid, a: Loc)
    requires Exit(g) != Entry
    ensures Validate(g, [a, Exit(g)]) == if a == Exit(g) then Revisited else NotAtStart
  {
  }

  // The source's unit tests of validatePath, with the error each one raises.

  lemma SolutionInTwoByTwo()
    ensures Validate([[true, false], [true, true]], [Loc(0, 0), Loc(1, 0), Loc(1, 1)]) == Ok
  {
    var g: Grid, p := [[true, false], [true, true]], [Loc(0, 0), Loc(1, 0), Loc(1, 1)];
  }

  lemma NotEndingAtExitInTwoByTwo()
    ensures Validate([[true, false], [true, true]], [Loc(1, 0), Loc(0, 0)]) == NotAtExit
  {
  }

  lemma NotBeginningAtEntryInTwoByTwo()
    ensures Validate([[true, false], [true, true]], [Loc(1, 0), Loc(1, 1)]) == NotAtStart
  {
  }

  lemma ThroughWallInTwoByTwo()
    ensures Validate([[true, false], [true, true]], [Loc(0, 0), Loc(0, 1), Loc(1, 1)]) == BadMove
  {
    var g: Grid, p := [[true, false], [true, true]], [Loc(0, 0), Loc(0, 1), Loc(1, 1)];
    assert Loc(1, 1) in ValidMoves(g, Loc(0, 1));
  }

  lemma TeleportInTwoByTwo()
    ensures Validate([[true, false], [true, true]], [Loc(0, 0), Loc(1, 1)]) == NotAtStart
  {
  }

  lemma RevisitInTwoByTwo()
    ensures Validate([[true, false], [true, true]],
                     [Loc(0, 0), Loc(1, 0), Loc(0, 0), Loc(1, 0), Loc(1, 1)]) == Revisited
  {
    var g: Grid, p := [[true, false], [true, true]], [Loc(0, 0), Loc(1, 0), Loc(0, 0), Loc(1, 0), Loc(1, 1)];
  }

  lemma InvalidPathsInThreeByThree()
    ensures Validate([[true, false, false], [true, true, true], [false, true, true]],
                     [Loc(0, 0), Loc(1, 0), Loc(1, 1), Loc(1, 2), Loc(2, 2), Loc(2, 1), Loc(2, 2)]) == Revisited
    ensures Validate([[true, false, false], [true, true, true], [false, true, true]],
                     [Loc(0, 0), Loc(1, 0), Loc(1, 1), Loc(1, 2), Loc(1, 3), Loc(2, 3), Loc(2, 2)]) == BadMove
    ensures Validate([[true, false, false], [true, true, true], [false, true, true]],
                     [Loc(2, 2), Loc(1, 2), Loc(1, 1), Loc(1, 0), Loc(0, 0)]) == NotAtExit
  {
  }

  lemma SingleCellMaze()
    ensures Validate([[true]], [Loc(0, 0)]) == Ok
  {
  }

  // The validation the source's comments describe: every consecutive pair
  // checked, and the bottom of the stack compared with the entry.

  /** Like Walk, but the loop runs until the stack is empty and the start
      test looks at the bottom cell once it has been popped. */
  function WalkIntended(g: Grid, path: seq<Loc>, i: nat): Verdict
    requires i < |path|
    decreases |path| - i
  {
    var n := |path|;
    if i == n - 1 then (if path[0] == Entry then Ok else NotAtStart)
    else if path[n - 2 - i] in path[n - 1 - i..] then Revisited
    else if path[n - 1 - i] !in ValidMoves(g, path[n - 2 - i]) then BadMove
    else WalkIntended(g, path, i + 1)
  }

  function ValidateIntended(g: Grid, path: seq<Loc>): Verdict {
    if path == [] then Empty
    else if path[|path| - 1] != Exit(g) then NotAtExit
    else WalkIntended(g, path, 0)
  }

  lemma {:induction false} WalkIntendedOk(g: Grid, path: seq<Loc>, i: nat)
    requires i < |path|
    ensures WalkIntended(g, path, i) == Ok <==>
      path[0] == Entry && forall c :: 0 < c < |path| - i ==> Linked(g, path, c)
    decreases |path| - i
  {
    var n := |path|;
    if i < n - 1 {
      WalkIntendedOk(g, path, i + 1);
      var c := n - 1 - i;
      if path[c - 1] in path[c..] {
        assert WalkIntended(g, path, i) == Revisited && !Linked(g, path, c);
      } else if path[c] !in ValidMoves(g, path[c - 1]) {
        assert WalkIntended(g, path, i) == BadMove && !Linked(g, path, c);
      } else {
        assert WalkIntended(g, path, i) == WalkIntended(g, path, i + 1) && Linked(g, path, c);
      }
    }
  }

  lemma NoRepeatsFromSuffixes(path: seq<Loc>)
    ensures NoRepeats(path) <==> forall c :: 0 < c < |path| ==> path[c - 1] !in path[c..]
  {
    if forall c :: 0 < c < |path| ==> path[c - 1] !in path[c..] {
      forall j, k | 0 <= j < k < |path| ensures path[j] != path[k] {
        assert path[k] == path[j + 1..][k - j - 1];
      }
    }
  }

  /** The intended validation accepts exactly the routes from the entry to
      the exit that repeat no cell. */
  lemma IntendedAcceptsExactlySolutions(g: Grid, path: seq<Loc>)
    ensures ValidateIntended(g, path) == Ok <==>
      IsRoute(g, path) && NoRepeats(path) && path[|path| - 1] == Exit(g)
  {
    if path != [] && path[|path| - 1] == Exit(g) {
      WalkIntendedOk(g, path, 0);
      NoRepeatsFromSuffixes(path);
      if IsRoute(g, path) && NoRepeats(path) {
        forall c | 0 < c < |path| ensures Linked(g, path, c) {
          assert path[(c - 1) + 1] in ValidMoves(g, path[c - 1]);
        }
      }
      if ValidateIntended(g, path) == Ok {
        forall k | 0 <= k < |path| - 1 ensures path[k + 1] in ValidMoves(g, path[k]) {
          assert Linked(g, path, k + 1);
        }
        forall c | 0 < c < |path| ensures path[c - 1] !in path[c..] {
          assert Linked(g, path, c);
        }
      }
    }
  }

  /** The open 1x5 maze: each cell of row 0 is a move from the one before;
      the cell (0, 1) is not a move from (3, 3). */
  lemma MovesAlongOpenRow()
    ensures Loc(0, 2) in ValidMoves([[true, true, true, true, true]], Loc(0, 1))
    ensures Loc(0, 3) in ValidMoves([[true, true, true, true, true]], Loc(0, 2))
    ensures Loc(0, 4) in ValidMoves([[true, true, true, true, true]], Loc(0, 3))
    ensures Loc(0, 1) !in ValidMoves([[true, true, true, true, true]], Loc(3, 3))
  {
  }

  /** As written, the lower cells of a path are never checked: in an open
      1x5 maze a path whose bottom cell is far outside the maze passes. */
  lemma UncheckedLowerHalfExample()
    ensures Validate([[true, true, true, true, true]],
                     [Loc(3, 3), Loc(0, 1), Loc(0, 2), Loc(0, 3), Loc(0, 4)]) == Ok
  {
    var g: Grid, p := [[true, true, true, true, true]], [Loc(3, 3), Loc(0, 1), Loc(0, 2), Loc(0, 3), Loc(0, 4)];
    MovesAlongOpenRow();
    assert Walk(g, p, 3) == Ok;
    assert Walk(g, p, 2) == Ok;
    assert Walk(g, p, 1) == Ok;
  }

  /** The intended validation rejects that path at its bottom step. */
  lemma LowerHalfCheckedWhenIntended()
    ensures ValidateIntended([[true, true, true, true, true]],
                     [Loc(3, 3), Loc(0, 1), Loc(0, 2), Loc(0, 3), Loc(0, 4)]) == BadMove
  {
    var g: Grid, p := [[true, true, true, true, true]], [Loc(3, 3), Loc(0, 1), Loc(0, 2), Loc(0, 3), Loc(0, 4)];
    MovesAlongOpenRow();
    assert WalkIntended(g, p, 3) == BadMove;
    assert WalkIntended(g, p, 2) == BadMove;
  }

  /** As written, the start test compares the middle cell with the entry, so
      the only solution of an open 1x2 maze is rejected. */
  lemma EvenSolutionRejectedExample()
    ensures Validate([[true, true]], [Loc(0, 0), Loc(0, 1)]) == NotAtStart
    ensures ValidateIntended([[true, true]], [Loc(0, 0), Loc(0, 1)]) == Ok
  {
  }

  /** As written, a path holding only the exit passes in any maze. */
  lemma LoneExitExample()
    ensures Validate([[true, true]], [Loc(0, 1)]) == Ok
    ensures ValidateIntended([[true, true]], [Loc(0, 1)]) == NotAtStart
  {
  }
}
