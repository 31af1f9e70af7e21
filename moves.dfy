/** One-step moves: the open orthogonal neighbours of a location. */
module Moves {
  import opened MazeGrid

  /** The four candidate steps in the order the source lists them:
      column + 1, column - 1, row + 1, row - 1. */
  function Directions(cur: Loc): (d: seq<Loc>)
    ensures |d| == 4
    ensures forall l :: l in d <==> Adjacent(cur, l)
  {
    [Loc(cur.row, cur.col + 1), Loc(cur.row, cur.col - 1),
     Loc(cur.row + 1, cur.col), Loc(cur.row - 1, cur.col)]
  }

  /** The in-bounds corridor cells one orthogonal step away from `cur`.
      `cur` itself need not be in bounds. */
  function ValidMoves(g: Grid, cur: Loc): (moves: set<Loc>)
    ensures forall l :: l in moves <==> Adjacent(cur, l) && IsOpen(g, l)
    ensures |moves| <= 4
    ensures cur !in moves
  {
    var d := Directions(cur);
    var moves := set l | l in d && IsOpen(g, l);
    assert moves <= {d[0], d[1], d[2], d[3]};
    SubsetSize(moves, {d[0], d[1], d[2], d[3]});
    moves
  }

  lemma {:induction false} SubsetSize(a: set<Loc>, b: set<Loc>)
    requires a <= b
    ensures |a| <= |b|
    decreases |b|
  {
    if a != {} {
      var x :| x in a;
      SubsetSize(a - {x}, b - {x});
    }
  }

  /** The source's loop over the four directions, adding each in-bounds
      corridor cell to the result set. */
  method GenerateValidMoves(g: Grid, cur: Loc) returns (neighbors: set<Loc>)
    ensures neighbors == ValidMoves(g, cur)
  {
    neighbors := {};
    var directions := Directions(cur);
    for i := 0 to 4
      invariant forall l :: l in neighbors <==> l in directions[..i] && IsOpen(g, l)
    {
      if InBounds(g, directions[i]) && g[directions[i].row][directions[i].col] {
        neighbors := neighbors + {directions[i]};
      }
      assert directions[..i + 1] == directions[..i] + [directions[i]];
    }
    assert directions[..4] == directions;
  }

  /** The four neighbours of `cur` in ascending (row, column) order. */
  function AscendingNeighbours(cur: Loc): seq<Loc> {
    [Loc(cur.row - 1, cur.col), Loc(cur.row, cur.col - 1),
     Loc(cur.row, cur.col + 1), Loc(cur.row + 1, cur.col)]
  }

  /** The elements of `xs` that lie in `s`, in the order of `xs`. */
  function Filter(xs: seq<Loc>, s: set<Loc>): (r: seq<Loc>)
    ensures |r| <= |xs|
    ensures forall x :: x in r ==> x in xs && x in s
  {
    if xs == [] then [] else (if xs[0] in s then [xs[0]] else []) + Filter(xs[1..], s)
  }

  /** Iterating a set of moves of `cur`, as an ordered set does: ascending. */
  function InOrder(cur: Loc, s: set<Loc>): (xs: seq<Loc>)
    ensures |xs| <= 4
    ensures forall x :: x in xs ==> x in s && Adjacent(cur, x)
  {
    Filter(AscendingNeighbours(cur), s)
  }

  predicate Ascending(xs: seq<Loc>) {
    forall j, k :: 0 <= j < k < |xs| ==> Before(xs[j], xs[k])
  }

  lemma {:induction false} FilterKeeps(xs: seq<Loc>, s: set<Loc>)
    requires Ascending(xs)
    ensures forall x :: x in Filter(xs, s) <==> x in xs && x in s
    ensures Ascending(Filter(xs, s))
  {
    if xs != [] {
      FilterKeeps(xs[1..], s);
      var f, rest := Filter(xs, s), Filter(xs[1..], s);
      if xs[0] in s {
        forall k | 0 < k < |f| ensures Before(f[0], f[k]) {
          assert f[k] == rest[k - 1] && rest[k - 1] in xs[1..];
        }
        forall j, k | 0 < j < k < |f| ensures Before(f[j], f[k]) {
        }
      } else {
        assert f == rest;
      }
    }
  }

  /** Ascending iteration lists exactly the moves, each once, in strictly
      ascending order. */
  lemma InOrderListsSet(g: Grid, cur: Loc, s: set<Loc>)
    requires s <= ValidMoves(g, cur)
    ensures forall x :: x in InOrder(cur, s) <==> x in s
    ensures forall j, k :: 0 <= j < k < |InOrder(cur, s)| ==> Before(InOrder(cur, s)[j], InOrder(cur, s)[k])
  {
    var asc := AscendingNeighbours(cur);
    assert Ascending(asc);
    FilterKeeps(asc, s);
    forall x | x in s ensures x in asc {
    }
  }

  // The source's unit tests of generateValidMoves.

  lemma CentreOfOpenGrid()
    ensures ValidMoves([[true, true, true], [true, true, true], [true, true, true]], Loc(1, 1))
         == {Loc(0, 1), Loc(1, 0), Loc(1, 2), Loc(2, 1)}
  {
  }

  lemma SideOfOpenGrid()
    ensures ValidMoves([[true, true, true], [true, true, true], [true, true, true]], Loc(0, 1))
         == {Loc(0, 0), Loc(0, 2), Loc(1, 1)}
  {
  }

  lemma CornerWithWall()
    ensures ValidMoves([[true, false], [true, true]], Loc(0, 0)) == {Loc(1, 0)}
  {
  }

  lemma WalledIn()
    ensures ValidMoves([[true, false, false], [true, false, true], [true, false, false]], Loc(1, 2)) == {}
  {
  }

  lemma SingleCell()
    ensures ValidMoves([[true]], Loc(0, 0)) == {}
  {
  }

  lemma OneOpenNeighbour()
    ensures ValidMoves([[true, false, false], [false, true, false], [true, true, false]], Loc(1, 1)) == {Loc(2, 1)}
  {
    var g: Grid := [[true, false, false], [false, true, false], [true, true, false]];
    forall l | l in ValidMoves(g, Loc(1, 1)) ensures l == Loc(2, 1) {
      assert l in Directions(Loc(1, 1));
    }
  }
}
