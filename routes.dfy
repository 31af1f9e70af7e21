/** Routes through the maze, written bottom-up: the entry first and the most
    recently visited cell last (the top of the stack that holds it). */
module Routes {
  import opened MazeGrid
  import opened Moves

  /** A walk from the entry in which every cell is a valid move from the
      one before it. The entry itself need not be open. */
  predicate IsRoute(g: Grid, w: seq<Loc>) {
    |w| > 0 && w[0] == Entry &&
    forall k :: 0 <= k < |w| - 1 ==> w[k + 1] in ValidMoves(g, w[k])
  }

  predicate NoRepeats(w: seq<Loc>) {
    forall j, k :: 0 <= j < k < |w| ==> w[j] != w[k]
  }

  ghost predicate Reachable(g: Grid, x: Loc) {
    exists w :: IsRoute(g, w) && w[|w| - 1] == x
  }

  /** A route from the entry to the exit with no repeated cell and no more
      cells than any other route from the entry to the exit. */
  ghost predicate IsShortestSolution(g: Grid, p: seq<Loc>) {
    IsRoute(g, p) && NoRepeats(p) && p[|p| - 1] == Exit(g) &&
    forall w :: IsRoute(g, w) && w[|w| - 1] == Exit(g) ==> |p| <= |w|
  }

  /** Every cell a route can visit: the grid's cells and the entry. */
  ghost function Universe(g: Grid): set<Loc> {
    (set r, c | 0 <= r < |g| && 0 <= c < Cols(g) :: Loc(r, c)) + {Entry}
  }

  /** The set of locations in a sequence. */
  function Elements(s: seq<Loc>): set<Loc> {
    set l | l in s
  }

  /** Membership in the set is membership in the sequence. */
  lemma ElementsMember(s: seq<Loc>)
    ensures forall l :: l in Elements(s) <==> l in s
  {
  }

  /** Taking one more cell from the top end of a suffix adds it to the set. */
  lemma ElementsOfSuffix(s: seq<Loc>, k: nat)
    requires k < |s|
    ensures Elements(s[k..]) == Elements(s[k + 1..]) + {s[k]}
  {
    assert s[k..] == [s[k]] + s[k + 1..];
  }

  lemma RoutePrefix(g: Grid, w: seq<Loc>, n: nat)
    requires IsRoute(g, w) && 0 < n <= |w|
    ensures IsRoute(g, w[..n])
  {
    assert forall k :: 0 <= k < n ==> w[..n][k] == w[k];
  }

  /** Each step changes row + column by one, so the position of a cell on a
      route has the parity of its row + column. */
  lemma {:induction false} RouteParity(g: Grid, w: seq<Loc>, k: nat)
    requires IsRoute(g, w) && k < |w|
    ensures (w[k].row + w[k].col) % 2 == k % 2
  {
    if k > 0 {
      RouteParity(g, w, k - 1);
      assert w[k] in ValidMoves(g, w[k - 1]);
      StepParity(w[k - 1], w[k]);
      FlipParity(k - 1);
    }
  }

  lemma StepParity(a: Loc, b: Loc)
    requires Adjacent(a, b)
    ensures (b.row + b.col) % 2 != (a.row + a.col) % 2
  {
    var d := (b.row + b.col) - (a.row + a.col);
    assert d == 1 || d == -1;
  }

  lemma FlipParity(k: nat)
    ensures (k + 1) % 2 != k % 2
  {
  }

  /** A route from the entry to the exit has the parity of R + C - 1 cells. */
  lemma RouteLengthParity(g: Grid, w: seq<Loc>)
    requires IsRoute(g, w) && w[|w| - 1] == Exit(g)
    ensures (|w| + |g| + Cols(g)) % 2 == 1
  {
    RouteParity(g, w, |w| - 1);
  }

  lemma RouteInUniverse(g: Grid, w: seq<Loc>)
    requires IsRoute(g, w)
    ensures forall k :: 0 <= k < |w| ==> w[k] in Universe(g)
  {
    forall k | 0 < k < |w| ensures w[k] in Universe(g) {
      assert w[k] in ValidMoves(g, w[k - 1]);
      assert w[k] == Loc(w[k].row, w[k].col);
    }
  }

  /** A sequence without repeats inside a finite set is no longer than the
      set is large. */
  lemma {:induction false} NoRepeatsBound(w: seq<Loc>, u: set<Loc>)
    requires NoRepeats(w)
    requires forall k :: 0 <= k < |w| ==> w[k] in u
    ensures |w| <= |u|
  {
    if w != [] {
      forall k | 0 <= k < |w| - 1 ensures w[1..][k] in u - {w[0]} {
        assert w[1..][k] == w[k + 1];
      }
      NoRepeatsBound(w[1..], u - {w[0]});
    }
  }

  /** A route without repeats never has more cells than the maze. */
  lemma SimpleRouteBound(g: Grid, w: seq<Loc>)
    requires IsRoute(g, w) && NoRepeats(w)
    ensures |w| <= |Universe(g)|
  {
    RouteInUniverse(g, w);
    NoRepeatsBound(w, Universe(g));
  }
}
