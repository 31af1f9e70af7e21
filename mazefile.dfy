/** Turning the lines of a maze file into a grid: '@' is a wall, '-' a
    corridor, and every line must be as long as the first. */
module MazeFile {
  import opened MazeGrid

  datatype Option<T> = None | Some(value: T)

  /** The errors the reader raises. `NoLines` is the failed access to the
      first line of an empty file. */
  datatype LoadError = NoLines | InconsistentColumns | InvalidCharacter(ch: char)

  datatype Loaded = Loaded(grid: Grid) | Failed(error: LoadError)

  predicate IsMazeChar(ch: char) {
    ch == '@' || ch == '-'
  }

  /** A file the reader accepts: at least one line, all as long as the first,
      made only of '@' and '-'. */
  predicate WellFormed(lines: seq<string>) {
    |lines| > 0 &&
    (forall r :: 0 <= r < |lines| ==> |lines[r]| == |lines[0]|) &&
    (forall r, c :: 0 <= r < |lines| && 0 <= c < |lines[r]| ==> IsMazeChar(lines[r][c]))
  }

  /** The first character of line[c..] that is neither '@' nor '-'. */
  function BadChar(line: string, c: nat): (r: Option<char>)
    ensures r.Some? ==> !IsMazeChar(r.value)
    decreases |line| - c
  {
    if c >= |line| then None
    else if IsMazeChar(line[c]) then BadChar(line, c + 1)
    else Some(line[c])
  }

  /** The first error met scanning rows r.. top to bottom: a row's length is
      checked before its characters. */
  function RowsError(lines: seq<string>, cols: nat, r: nat): (e: Option<LoadError>)
    ensures e != Some(NoLines)
    ensures e.Some? && e.value.InvalidCharacter? ==> !IsMazeChar(e.value.ch)
    decreases |lines| - r
  {
    if r >= |lines| then None
    else if |lines[r]| != cols then Some(InconsistentColumns)
    else match BadChar(lines[r], 0) {
      case Some(ch) => Some(InvalidCharacter(ch))
      case None => RowsError(lines, cols, r + 1)
    }
  }

  /** The grid of |lines| rows and `cols` columns whose corridors are the
      '-' characters. */
  function Decode(lines: seq<string>, cols: nat): (g: Grid)
    ensures |g| == |lines|
    ensures |lines| > 0 ==> Cols(g) == cols
  {
    seq(|lines|, r requires 0 <= r < |lines| =>
      seq(cols, c requires 0 <= c < cols => c < |lines[r]| && lines[r][c] == '-'))
  }

  /** What the reader produces from the lines of a file. */
  function Parse(lines: seq<string>): (res: Loaded)
    ensures res == Failed(NoLines) <==> lines == []
    ensures res.Loaded? ==> |res.grid| == |lines| && Cols(res.grid) == |lines[0]|
  {
    if lines == [] then Failed(NoLines)
    else match RowsError(lines, |lines[0]|, 0) {
      case Some(e) => Failed(e)
      case None => Loaded(Decode(lines, |lines[0]|))
    }
  }

  /** The source's loop: size the grid from the first line, then fill it
      cell by cell, failing on the first short or long row or bad character. */
  method ReadMazeLines(lines: seq<string>) returns (res: Loaded)
    ensures res == Parse(lines)
  {
    if |lines| == 0 {
      return Failed(NoLines);
    }
    var numRows := |lines|;
    var numCols := |lines[0]|;
    var maze: seq<seq<bool>> := seq(numRows, _ => seq(numCols, _ => false));
    for r := 0 to numRows
      invariant |maze| == numRows && forall i :: 0 <= i < numRows ==> |maze[i]| == numCols
      invariant forall i :: 0 <= i < r ==> |lines[i]| == numCols
      invariant forall i, c :: 0 <= i < r && 0 <= c < numCols ==> maze[i][c] == (lines[i][c] == '-')
      invariant RowsError(lines, numCols, r) == RowsError(lines, numCols, 0)
    {
      if |lines[r]| != numCols {
        return Failed(InconsistentColumns);
      }
      for c := 0 to numCols
        invariant |maze| == numRows && forall i :: 0 <= i < numRows ==> |maze[i]| == numCols
        invariant forall i, k :: 0 <= i < r && 0 <= k < numCols ==> maze[i][k] == (lines[i][k] == '-')
        invariant forall k :: 0 <= k < c ==> maze[r][k] == (lines[r][k] == '-')
        invariant BadChar(lines[r], c) == BadChar(lines[r], 0)
      {
        var ch := lines[r][c];
        if ch == '@' {
          maze := maze[r := maze[r][c := false]];
        } else if ch == '-' {
          maze := maze[r := maze[r][c := true]];
        } else {
          return Failed(InvalidCharacter(ch));
        }
      }
    }
    var decoded := Decode(lines, numCols);
    forall i | 0 <= i < numRows ensures maze[i] == decoded[i] {
      assert forall c :: 0 <= c < numCols ==> decoded[i][c] == (lines[i][c] == '-');
    }
    assert maze == decoded;
    return Loaded(maze);
  }

  lemma {:induction false} BadCharNone(line: string, c: nat)
    ensures BadChar(line, c) == None <==> forall k :: c <= k < |line| ==> IsMazeChar(line[k])
    decreases |line| - c
  {
    if c < |line| {
      BadCharNone(line, c + 1);
    }
  }

  /** line[lo..hi] uses only '@' and '-'. */
  ghost predicate MazeChars(line: string, lo: nat, hi: nat) {
    forall j :: lo <= j < hi && j < |line| ==> IsMazeChar(line[j])
  }

  /** Rows lo..hi-1 all pass the reader's checks: the expected length and
      only '@' and '-'. */
  ghost predicate RowsOk(lines: seq<string>, cols: nat, lo: nat, hi: nat) {
    forall i :: lo <= i < hi && i < |lines| ==>
      |lines[i]| == cols && MazeChars(lines[i], 0, |lines[i]|)
  }

  /** The reported character is the first bad one from c on. */
  lemma {:induction false} BadCharSome(line: string, c: nat, ch: char)
    requires BadChar(line, c) == Some(ch)
    ensures !IsMazeChar(ch) &&
      exists k :: c <= k < |line| && line[k] == ch && MazeChars(line, c, k)
    decreases |line| - c
  {
    if IsMazeChar(line[c]) {
      BadCharSome(line, c + 1, ch);
      var k :| c + 1 <= k < |line| && line[k] == ch && MazeChars(line, c + 1, k);
      assert MazeChars(line, c, k);
    } else {
      assert MazeChars(line, c, c);
    }
  }

  lemma {:induction false} RowsErrorNone(lines: seq<string>, cols: nat, r: nat)
    ensures RowsError(lines, cols, r) == None <==>
      (forall i :: r <= i < |lines| ==> |lines[i]| == cols) &&
      (forall i, c :: r <= i < |lines| && 0 <= c < |lines[i]| ==> IsMazeChar(lines[i][c]))
    decreases |lines| - r
  {
    if r < |lines| {
      RowsErrorNone(lines, cols, r + 1);
      BadCharNone(lines[r], 0);
    }
  }

  lemma {:induction false} RowsErrorSome(lines: seq<string>, cols: nat, r: nat, e: LoadError)
    requires RowsError(lines, cols, r) == Some(e)
    ensures e == InconsistentColumns ==>
      exists i :: r <= i < |lines| && |lines[i]| != cols && RowsOk(lines, cols, r, i)
    ensures e.InvalidCharacter? ==>
      !IsMazeChar(e.ch) &&
      exists i, c :: r <= i < |lines| && 0 <= c < |lines[i]| && lines[i][c] == e.ch &&
        |lines[i]| == cols && MazeChars(lines[i], 0, c) && RowsOk(lines, cols, r, i)
    ensures e != NoLines
    decreases |lines| - r
  {
    if |lines[r]| != cols {
      assert RowsOk(lines, cols, r, r);
    } else {
      match BadChar(lines[r], 0) {
        case Some(ch) =>
          BadCharSome(lines[r], 0, ch);
          assert RowsOk(lines, cols, r, r);
        case None =>
          BadCharNone(lines[r], 0);
          RowsErrorSome(lines, cols, r + 1, e);
          if e == InconsistentColumns {
            var i :| r + 1 <= i < |lines| && |lines[i]| != cols && RowsOk(lines, cols, r + 1, i);
            assert RowsOk(lines, cols, r, i);
          } else if e.InvalidCharacter? {
            var i, c :| r + 1 <= i < |lines| && 0 <= c < |lines[i]| && lines[i][c] == e.ch &&
              |lines[i]| == cols && MazeChars(lines[i], 0, c) && RowsOk(lines, cols, r + 1, i);
            assert RowsOk(lines, cols, r, i);
          }
      }
    }
  }

  /** The reader succeeds exactly on well-formed files, and then the grid has
      one row per line, one column per character, and a corridor exactly
      where the file has '-'. */
  lemma ParseSucceedsIff(lines: seq<string>)
    ensures Parse(lines).Loaded? <==> WellFormed(lines)
    ensures Parse(lines).Loaded? ==>
      var g := Parse(lines).grid;
      |g| == |lines| && Cols(g) == |lines[0]| &&
      forall r, c :: 0 <= r < |g| && 0 <= c < Cols(g) ==> (g[r][c] <==> lines[r][c] == '-')
  {
    if lines != [] {
      RowsErrorNone(lines, |lines[0]|, 0);
    }
  }

  /** The reader's errors: an empty file and nothing else gives NoLines;
      otherwise the error is the first defect met scanning the rows in
      order, each row's length before its characters. An
      inconsistent-columns error names a short or long line below only
      good rows; a bad-character error names the first character, in a
      line of the right length below only good rows, that is neither '@'
      nor '-'. */
  lemma ParseErrors(lines: seq<string>)
    ensures Parse(lines) == Failed(NoLines) <==> lines == []
    ensures Parse(lines) == Failed(InconsistentColumns) ==>
      exists r :: 0 <= r < |lines| && |lines[r]| != |lines[0]| && RowsOk(lines, |lines[0]|, 0, r)
    ensures Parse(lines).Failed? && Parse(lines).error.InvalidCharacter? ==>
      var ch := Parse(lines).error.ch;
      !IsMazeChar(ch) &&
      exists r, c :: 0 <= r < |lines| && 0 <= c < |lines[r]| && lines[r][c] == ch &&
        |lines[r]| == |lines[0]| && MazeChars(lines[r], 0, c) && RowsOk(lines, |lines[0]|, 0, r)
  {
    if lines != [] {
      var e := RowsError(lines, |lines[0]|, 0);
      if e.Some? {
        RowsErrorSome(lines, |lines[0]|, 0, e.value);
      }
    }
  }

  /** The maze file of a grid: '-' for a corridor, '@' for a wall. */
  function Render(g: Grid): seq<string> {
    seq(|g|, r requires 0 <= r < |g| =>
      seq(Cols(g), c requires 0 <= c < Cols(g) => if g[r][c] then '-' else '@'))
  }

  /** Reading back the file of a grid with at least one row gives the grid. */
  lemma ReadRendered(g: Grid)
    requires |g| > 0
    ensures Parse(Render(g)) == Loaded(g)
  {
    var lines := Render(g);
    RowsErrorNone(lines, |lines[0]|, 0);
    var d := Decode(lines, |lines[0]|);
    forall r | 0 <= r < |g| ensures d[r] == g[r] {
      forall c | 0 <= c < Cols(g) ensures d[r][c] == g[r][c] {
      }
    }
  }

  /** A file the reader accepts is the file of the grid it reads. */
  lemma RenderRead(lines: seq<string>)
    requires Parse(lines).Loaded?
    ensures Render(Parse(lines).grid) == lines
  {
    ParseSucceedsIff(lines);
    var g := Parse(lines).grid;
    var back := Render(g);
    forall r | 0 <= r < |lines| ensures back[r] == lines[r] {
      forall c | 0 <= c < |lines[r]| ensures back[r][c] == lines[r][c] {
        assert IsMazeChar(lines[r][c]);
      }
    }
  }

  // The maze files the source's tests read are not part of this model; these
  // small files stand for them.

  lemma ReadsSmallMaze()
    ensures Parse(["-@", "--"]) == Loaded([[true, false], [true, true]])
  {
    ReadRendered([[true, false], [true, true]]);
    var lines := Render([[true, false], [true, true]]);
    assert lines[0] == "-@" && lines[1] == "--";
    assert lines == ["-@", "--"];
  }

  lemma RejectsRaggedMaze()
    ensures Parse(["--", "-"]) == Failed(InconsistentColumns)
  {
  }

  lemma RejectsStrayCharacter()
    ensures Parse(["-@", "-x"]) == Failed(InvalidCharacter('x'))
  {
  }
}
