/** `GameState` of connect383.py: a board of `num_rows` rows of `num_cols`
    cells, row 0 at the bottom, each cell 1 (Player 1), -1 (Player 2) or 0
    (empty).  A state is never changed once made: `copy` and
    `create_successor` build a fresh board cell by cell, which here is a
    fresh value. */
module Board {
  import opened Options
  import opened Grid
  import opened Streaks

  datatype State = State(numRows: nat, numCols: nat, board: seq<seq<int>>)

  /** `board` holds `num_rows` rows of `num_cols` cells. */
  predicate Shaped(s: State) {
    |s.board| == s.numRows && Rect(s.board, s.numCols)
  }

  /** A state the game can run on: shaped, with at least one row and one
      column.  With no rows `successors` reads `board[-1]`; with rows but no
      columns `score` calls `streaks` on an empty row. */
  predicate WellFormed(s: State) {
    Shaped(s) && s.numRows >= 1 && s.numCols >= 1
  }

  /** `GameState(nrows, ncols)`: the empty board. */
  function Init(nrows: nat, ncols: nat): (s: State)
    ensures Shaped(s) && s.numRows == nrows && s.numCols == ncols
    ensures forall r, c :: 0 <= r < nrows && 0 <= c < ncols ==> s.board[r][c] == 0
  {
    State(nrows, ncols, seq(nrows, r => seq(ncols, c => 0)))
  }

  /** `copy`: a fresh empty state of the same size, filled cell by cell. */
  method Copy(s: State) returns (clone: State)
    requires Shaped(s)
    ensures clone == s
  {
    clone := Init(s.numRows, s.numCols);
    for r := 0 to s.numRows
      invariant clone.numRows == s.numRows && clone.numCols == s.numCols && Shaped(clone)
      invariant forall i :: 0 <= i < r ==> clone.board[i] == s.board[i]
    {
      for c := 0 to s.numCols
        invariant clone.numRows == s.numRows && clone.numCols == s.numCols && Shaped(clone)
        invariant forall i :: 0 <= i < r ==> clone.board[i] == s.board[i]
        invariant forall j :: 0 <= j < c ==> clone.board[r][j] == s.board[r][j]
      {
        clone := clone.(board := clone.board[r := clone.board[r][c := s.board[r][c]]]);
      }
      assert clone.board[r] == s.board[r];
    }
    assert clone.board == s.board;
  }

  // ---------------------------------------------------------------------------
  // Whose turn it is

  /** The sum of all cells, `sum(sum(self.board, []))`. */
  function CellSum(s: State): int {
    Sum(Flatten(s.board))
  }

  /** `next_player`: Player 1 (1) moves exactly when the cells sum to 0. */
  function NextPlayer(s: State): (p: int)
    ensures p == 1 || p == -1
    ensures p == 1 <==> CellSum(s) == 0
  {
    if CellSum(s) == 0 then 1 else -1
  }

  /** No cell holds anything but 1, -1 or 0. */
  predicate Tokens(s: State)
    requires Shaped(s)
  {
    forall r, c :: 0 <= r < s.numRows && 0 <= c < s.numCols ==> s.board[r][c] in {-1, 0, 1}
  }

  /** The turn invariant: Player 1 has placed as many tokens as Player 2, or one more. */
  predicate Balanced(s: State) {
    CellSum(s) == 0 || CellSum(s) == 1
  }

  /** Gravity: above an empty cell every cell of its column is empty. */
  predicate Gravity(s: State)
    requires Shaped(s)
  {
    forall r, r', c :: 0 <= r < r' < s.numRows && 0 <= c < s.numCols && s.board[r][c] == 0 ==>
      s.board[r'][c] == 0
  }

  // ---------------------------------------------------------------------------
  // Moves

  /** The row the `while` scan of `create_successor` stops at when it starts
      from row `row`. */
  function DropFrom(s: State, col: nat, row: nat): (r: nat)
    requires WellFormed(s) && col < s.numCols && row < s.numRows
    decreases s.numRows - row
    ensures row <= r < s.numRows
    ensures forall i :: row <= i < r ==> s.board[i][col] != 0
    ensures s.board[r][col] == 0 || r == s.numRows - 1
  {
    if s.board[row][col] != 0 && row < s.numRows - 1 then DropFrom(s, col, row + 1) else row
  }

  /** Where a token dropped in column `col` lands: the lowest row whose cell
      is 0, or the top row when the column has none (whose cell is then
      overwritten). */
  function DropRow(s: State, col: nat): (r: nat)
    requires WellFormed(s) && col < s.numCols
    ensures r < s.numRows
    ensures forall i :: 0 <= i < r ==> s.board[i][col] != 0
    ensures s.board[r][col] == 0 || r == s.numRows - 1
  {
    DropFrom(s, col, 0)
  }

  /** The state `create_successor(col)` returns. */
  function Child(s: State, col: nat): (c: State)
    requires WellFormed(s) && col < s.numCols
    ensures WellFormed(c) && c.numRows == s.numRows && c.numCols == s.numCols
  {
    var r := DropRow(s, col);
    s.(board := s.board[r := s.board[r][col := NextPlayer(s)]])
  }

  /** Column `col` can take another token: its top cell is empty. */
  predicate Open(s: State, col: nat)
    requires WellFormed(s) && col < s.numCols
  {
    s.board[s.numRows - 1][col] == 0
  }

  /** `create_successor(col)`: copy the state, scan column `col` upwards for
      the first empty cell, and place the mover's token there. */
  method CreateSuccessor(s: State, col: nat) returns (successor: State)
    requires WellFormed(s) && col < s.numCols
    ensures successor == Child(s, col)
  {
    var player := NextPlayer(s);
    successor := Copy(s);
    var row := 0;
    while successor.board[row][col] != 0 && row < successor.numRows - 1
      invariant successor == s && row < s.numRows
      invariant DropFrom(s, col, row) == DropRow(s, col)
      decreases s.numRows - row
    {
      row := row + 1;
    }
    successor := successor.(board := successor.board[row := successor.board[row][col := player]]);
  }

  /** The children `successors` returns for the columns below `n`. */
  function ChildrenUpTo(s: State, n: nat): seq<(nat, State)>
    requires WellFormed(s) && n <= s.numCols
  {
    if n == 0 then []
    else if Open(s, n - 1) then ChildrenUpTo(s, n - 1) + [(n - 1, Child(s, n - 1))]
    else ChildrenUpTo(s, n - 1)
  }

  /** Every pair the scan lists for the columns below `n` is an open column
      with its child. */
  lemma {:induction false} ChildrenUpToSound(s: State, n: nat)
    requires WellFormed(s) && n <= s.numCols
    ensures forall i :: 0 <= i < |ChildrenUpTo(s, n)| ==>
      var m := ChildrenUpTo(s, n)[i]; m.0 < n && Open(s, m.0) && m.1 == Child(s, m.0)
  {
    if n > 0 {
      ChildrenUpToSound(s, n - 1);
      var front := ChildrenUpTo(s, n - 1);
      if Open(s, n - 1) {
        var ms := front + [(n - 1, Child(s, n - 1))];
        assert ChildrenUpTo(s, n) == ms;
        assert ms[|front|] == (n - 1, Child(s, n - 1));
        assert forall i :: 0 <= i < |front| ==> ms[i] == front[i];
      } else {
        assert ChildrenUpTo(s, n) == front;
      }
    }
  }

  /** The scan lists the columns below `n` in strictly ascending order. */
  lemma {:induction false} ChildrenUpToSorted(s: State, n: nat)
    requires WellFormed(s) && n <= s.numCols
    ensures forall i, j :: 0 <= i < j < |ChildrenUpTo(s, n)| ==>
      ChildrenUpTo(s, n)[i].0 < ChildrenUpTo(s, n)[j].0
  {
    if n > 0 {
      ChildrenUpToSorted(s, n - 1);
      ChildrenUpToSound(s, n - 1);
      var front := ChildrenUpTo(s, n - 1);
      if Open(s, n - 1) {
        var ms := front + [(n - 1, Child(s, n - 1))];
        assert ChildrenUpTo(s, n) == ms;
        assert ms[|front|].0 == n - 1;
        assert forall i :: 0 <= i < |front| ==> ms[i].0 == front[i].0 < n - 1;
      } else {
        assert ChildrenUpTo(s, n) == front;
      }
    }
  }

  /** The scan lists every open column below `n`. */
  lemma {:induction false} ChildrenUpToComplete(s: State, n: nat)
    requires WellFormed(s) && n <= s.numCols
    ensures forall col :: 0 <= col < n && Open(s, col) ==>
      exists i :: 0 <= i < |ChildrenUpTo(s, n)| && ChildrenUpTo(s, n)[i].0 == col
  {
    if n > 0 {
      ChildrenUpToComplete(s, n - 1);
      var front := ChildrenUpTo(s, n - 1);
      if Open(s, n - 1) {
        var ms := front + [(n - 1, Child(s, n - 1))];
        assert ChildrenUpTo(s, n) == ms;
        assert ms[|front|].0 == n - 1;
        assert forall i :: 0 <= i < |front| ==> ms[i].0 == front[i].0;
      } else {
        assert ChildrenUpTo(s, n) == front;
      }
    }
  }

  /** What `successors` returns: a `(move, state)` pair for every open
      column and no other, in strictly ascending column order, each state being
      `create_successor(move)`. */
  function Children(s: State): (ms: seq<(nat, State)>)
    requires WellFormed(s)
    ensures forall i, j :: 0 <= i < j < |ms| ==> ms[i].0 < ms[j].0
    ensures forall col :: 0 <= col < s.numCols ==>
      (Open(s, col) <==> exists i :: 0 <= i < |ms| && ms[i].0 == col)
    ensures forall i :: 0 <= i < |ms| ==> ms[i].0 < s.numCols && ms[i].1 == Child(s, ms[i].0)
  {
    ChildrenUpToSound(s, s.numCols);
    ChildrenUpToSorted(s, s.numCols);
    ChildrenUpToComplete(s, s.numCols);
    var ms := ChildrenUpTo(s, s.numCols);
    assert forall col :: 0 <= col < s.numCols && !Open(s, col) ==>
      forall i :: 0 <= i < |ms| ==> ms[i].0 != col;
    ms
  }

  /** `successors`: one pass over the columns, left to right. */
  method Successors(s: State) returns (moveStates: seq<(nat, State)>)
    requires WellFormed(s)
    ensures moveStates == Children(s)
  {
    moveStates := [];
    for col := 0 to s.numCols
      invariant moveStates == ChildrenUpTo(s, col)
    {
      if s.board[s.numRows - 1][col] == 0 {
        var successor := CreateSuccessor(s, col);
        moveStates := moveStates + [(col, successor)];
      }
    }
  }

  // ---------------------------------------------------------------------------
  // What a move changes

  /** The number of empty cells, the measure that makes every search finite. */
  function Empties(s: State): nat {
    Zeros(Flatten(s.board))
  }

  /** `create_successor(col)` on an open column changes exactly one cell: the
      lowest empty cell of column `col`, which now holds the mover's token.
      Every other cell, and the parent, are as they were. */
  lemma {:induction false} ChildDiffers(s: State, col: nat)
    requires WellFormed(s) && col < s.numCols && Open(s, col)
    ensures var t, r := Child(s, col), DropRow(s, col);
      WellFormed(t) && t.numRows == s.numRows && t.numCols == s.numCols &&
      s.board[r][col] == 0 && (forall i :: 0 <= i < r ==> s.board[i][col] != 0) &&
      t.board[r][col] == NextPlayer(s) &&
      forall i, j :: 0 <= i < s.numRows && 0 <= j < s.numCols && (i, j) != (r, col) ==>
        t.board[i][j] == s.board[i][j]
  {
  }

  /** `create_successor(col)` on a full column of a gravity-consistent board
      raises no error: the scan stops at the top row and the mover's token
      replaces the one there, so no cell is filled. */
  lemma {:induction false} ChildOverwrites(s: State, col: nat)
    requires WellFormed(s) && Gravity(s) && col < s.numCols && !Open(s, col)
    ensures DropRow(s, col) == s.numRows - 1
    ensures Child(s, col).board[s.numRows - 1][col] == NextPlayer(s)
    ensures forall i, j :: 0 <= i < s.numRows && 0 <= j < s.numCols && (i, j) != (s.numRows - 1, col) ==>
      Child(s, col).board[i][j] == s.board[i][j]
    ensures Empties(Child(s, col)) == Empties(s)
  {
    var r := DropRow(s, col);
    assert r == s.numRows - 1 && s.board[r][col] != 0;
    assert Empties(Child(s, col)) == Empties(s) by {
      FlattenUpdate(s.board, r, col, NextPlayer(s));
      ZerosUpdate(Flatten(s.board), |Flatten(s.board[..r])| + col, NextPlayer(s));
    }
  }

  /** Each move fills one empty cell. */
  lemma {:induction false} ChildEmpties(s: State, col: nat)
    requires WellFormed(s) && col < s.numCols && Open(s, col)
    ensures WellFormed(Child(s, col))
    ensures Empties(Child(s, col)) == Empties(s) - 1
  {
    var r := DropRow(s, col);
    FlattenUpdate(s.board, r, col, NextPlayer(s));
    ZerosUpdate(Flatten(s.board), |Flatten(s.board[..r])| + col, NextPlayer(s));
  }

  /** Every child of `successors()` is well formed and has one empty cell fewer. */
  lemma {:induction false} ChildrenEmpties(s: State)
    requires WellFormed(s)
    ensures forall i :: 0 <= i < |Children(s)| ==>
      WellFormed(Children(s)[i].1) && Empties(Children(s)[i].1) == Empties(s) - 1
  {
    forall i | 0 <= i < |Children(s)|
      ensures WellFormed(Children(s)[i].1) && Empties(Children(s)[i].1) == Empties(s) - 1
    {
      ChildEmpties(s, Children(s)[i].0);
    }
  }

  /** A move adds the mover's token to the cell sum, so from a balanced board
      the sum stays in {0, 1} and the turn passes to the other player. */
  lemma {:induction false} ChildBalanced(s: State, col: nat)
    requires WellFormed(s) && col < s.numCols && Open(s, col)
    requires Balanced(s)
    ensures CellSum(Child(s, col)) == CellSum(s) + NextPlayer(s)
    ensures Balanced(Child(s, col))
    ensures NextPlayer(Child(s, col)) == -NextPlayer(s)
  {
    var r := DropRow(s, col);
    FlattenUpdate(s.board, r, col, NextPlayer(s));
    SumUpdate(Flatten(s.board), |Flatten(s.board[..r])| + col, NextPlayer(s));
  }

  /** A move keeps the cells in {-1, 0, 1} and keeps gravity. */
  lemma {:induction false} ChildKeepsShape(s: State, col: nat)
    requires WellFormed(s) && col < s.numCols && Open(s, col)
    requires Tokens(s) && Gravity(s)
    ensures WellFormed(Child(s, col)) && Tokens(Child(s, col)) && Gravity(Child(s, col))
  {
    ChildDiffers(s, col);
  }

  // ---------------------------------------------------------------------------
  // Full boards

  /** No cell is empty. */
  predicate Full(s: State)
    requires Shaped(s)
  {
    forall r, c :: 0 <= r < s.numRows && 0 <= c < s.numCols ==> s.board[r][c] != 0
  }

  /** `is_full`: scan the cells row by row, stopping at the first empty one. */
  method IsFull(s: State) returns (full: bool)
    requires Shaped(s)
    ensures full <==> Full(s)
  {
    for r := 0 to s.numRows
      invariant forall i, j :: 0 <= i < r && 0 <= j < s.numCols ==> s.board[i][j] != 0
    {
      for c := 0 to s.numCols
        invariant forall i, j :: 0 <= i < r && 0 <= j < s.numCols ==> s.board[i][j] != 0
        invariant forall j :: 0 <= j < c ==> s.board[r][j] != 0
      {
        if s.board[r][c] == 0 {
          return false;
        }
      }
    }
    return true;
  }

  /** A board is full exactly when it has no empty cell left to count. */
  lemma {:induction false} FullIffNoEmpties(s: State)
    requires Shaped(s)
    ensures Full(s) <==> Empties(s) == 0
  {
    FlattenNoZeros(s.board);
  }

  lemma {:induction false} NoOpenNoChildren(s: State, n: nat)
    requires WellFormed(s) && n <= s.numCols
    requires forall col :: 0 <= col < n ==> !Open(s, col)
    ensures ChildrenUpTo(s, n) == []
  {
    if n > 0 {
      NoOpenNoChildren(s, n - 1);
    }
  }

  /** On a board that obeys gravity, `successors()` is empty exactly when the
      board is full. */
  lemma {:induction false} NoChildrenIffFull(s: State)
    requires WellFormed(s) && Gravity(s)
    ensures |Children(s)| == 0 <==> Full(s)
  {
    if !Full(s) {
      var r, c :| 0 <= r < s.numRows && 0 <= c < s.numCols && s.board[r][c] == 0;
      assert r == s.numRows - 1 || s.board[s.numRows - 1][c] == 0;
      assert Open(s, c);
    } else {
      NoOpenNoChildren(s, s.numCols);
    }
  }

  // ---------------------------------------------------------------------------
  // Lines of the board

  /** `get_row(r)`. */
  function GetRow(s: State, r: nat): seq<int>
    requires Shaped(s) && r < s.numRows
  {
    s.board[r]
  }

  /** `get_col(c)`: the cells of column `c`, bottom row first. */
  function GetCol(s: State, c: nat): (col: seq<int>)
    requires Shaped(s) && c < s.numCols
    ensures |col| == s.numRows && forall r :: 0 <= r < s.numRows ==> col[r] == s.board[r][c]
  {
    seq(s.numRows, r requires 0 <= r < s.numRows => s.board[r][c])
  }

  /** `get_cell(r, c)`. */
  function GetCell(s: State, r: nat, c: nat): int
    requires Shaped(s) && r < s.numRows && c < s.numCols
  {
    s.board[r][c]
  }

  /** `get_all_rows`: a copy of every row. */
  function GetAllRows(s: State): seq<seq<int>>
  {
    seq(|s.board|, r requires 0 <= r < |s.board| => s.board[r])
  }

  /** `get_all_cols`: `zip(*board)`. */
  function GetAllCols(s: State): seq<seq<int>>
  {
    Zip(s.board)
  }

  /** `get_all_diags`: the skew-and-zip construction in both directions. */
  function GetAllDiags(s: State): seq<seq<int>>
    requires WellFormed(s)
  {
    Diagonals(s.board)
  }

  /** Every line `score` looks at. */
  function AllLines(s: State): seq<seq<int>>
    requires WellFormed(s)
  {
    GetAllRows(s) + GetAllCols(s) + GetAllDiags(s)
  }

  /** `get_all_rows` yields `num_rows` rows, row `r` being `get_row(r)`, and
      `get_all_cols` yields `num_cols` columns, column `c` being `get_col(c)`;
      both hold `get_cell(r, c)` at the crossing. */
  lemma {:induction false} RowsAndCols(s: State)
    requires WellFormed(s)
    ensures GetAllRows(s) == s.board
    ensures forall r :: 0 <= r < s.numRows ==> GetAllRows(s)[r] == GetRow(s, r)
    ensures |GetAllCols(s)| == s.numCols
    ensures forall c :: 0 <= c < s.numCols ==> GetAllCols(s)[c] == GetCol(s, c)
    ensures forall r, c :: 0 <= r < s.numRows && 0 <= c < s.numCols ==>
      GetRow(s, r)[c] == GetCol(s, c)[r] == GetCell(s, r, c)
  {
    forall c | 0 <= c < s.numCols ensures GetAllCols(s)[c] == GetCol(s, c) {
    }
  }

  /** `get_all_diags` returns `2 * (num_rows + num_cols - 1)` lists: first, for
      each `d` from `-(num_rows - 1)` to `num_cols - 1`, the cells with
      `c - r == d` by increasing row; then, for each `t` from 0 to
      `num_rows + num_cols - 2`, the cells with `r + c == t` by increasing row. */
  lemma {:induction false} DiagonalsAre(s: State)
    requires WellFormed(s)
    ensures |GetAllDiags(s)| == 2 * (s.numRows + s.numCols - 1)
    ensures forall k :: 0 <= k < s.numRows + s.numCols - 1 ==>
      GetAllDiags(s)[k] == ForwardDiag(s.board, s.numCols, k - (s.numRows - 1))
    ensures forall k :: 0 <= k < s.numRows + s.numCols - 1 ==>
      GetAllDiags(s)[s.numRows + s.numCols - 1 + k] == BackDiag(s.board, s.numCols, k)
  {
    DiagonalsAll(s.board, s.numRows, s.numCols);
  }

  /** No line is empty. */
  predicate NonEmptyLines(ls: seq<seq<int>>) {
    forall k :: 0 <= k < |ls| ==> |ls[k]| > 0
  }

  lemma {:induction false} NonEmptyConcat(a: seq<seq<int>>, b: seq<seq<int>>)
    requires NonEmptyLines(a) && NonEmptyLines(b)
    ensures NonEmptyLines(a + b)
  {
  }

  /** `score` looks at `num_rows + num_cols + 2 * (num_rows + num_cols - 1)` lines. */
  lemma {:induction false} LinesCount(s: State)
    requires WellFormed(s)
    ensures |AllLines(s)| == s.numRows + s.numCols + 2 * (s.numRows + s.numCols - 1)
  {
    RowsAndCols(s);
    DiagonalsAre(s);
  }

  /** None of the lines `score` looks at is empty, so `streaks` never meets
      an empty line. */
  lemma {:induction false} LinesAre(s: State)
    requires WellFormed(s)
    ensures NonEmptyLines(AllLines(s))
  {
    RowsAndCols(s);
    assert NonEmptyLines(GetAllRows(s));
    assert NonEmptyLines(GetAllCols(s));
    DiagonalsNonEmpty(s.board, s.numRows, s.numCols);
    NonEmptyConcat(GetAllRows(s), GetAllCols(s));
    NonEmptyConcat(GetAllRows(s) + GetAllCols(s), GetAllDiags(s));
  }

  /** How many cells of the "up" diagonal `c - r == d` lie in the columns
      below `n`. */
  function UpCount(s: State, d: int, n: int): nat
  {
    MinInt(FwdLen(s.numRows, s.numCols, d), MaxInt(0, n - FwdLo(d) - d))
  }

  /** How many cells of the "down" diagonal `r + c == t`, read by increasing
      column, lie in the columns below `n`. */
  function DownCount(s: State, t: int, n: int): nat
  {
    MinInt(BackLen(s.numRows, s.numCols, t), MaxInt(0, n - t + BackHi(s.numRows, t) - 1))
  }

  /** Column `c` adds its cell `(c - d, c)` to the "up" diagonal exactly when
      that row exists, and the cell is the next one of the diagonal. */
  lemma {:induction false} UpStep(s: State, d: int, c: nat)
    requires WellFormed(s) && c < s.numCols
    ensures 0 <= c - d < s.numRows ==>
      UpCount(s, d, c) < FwdLen(s.numRows, s.numCols, d) &&
      ForwardDiag(s.board, s.numCols, d)[UpCount(s, d, c)] == s.board[c - d][c] &&
      UpCount(s, d, c + 1) == UpCount(s, d, c) + 1
    ensures !(0 <= c - d < s.numRows) ==> UpCount(s, d, c + 1) == UpCount(s, d, c)
  {
  }

  /** Column `c` adds its cell `(t - c, c)` to the "down" diagonal exactly
      when that row exists, and the cell is the next one of the reversed
      diagonal. */
  lemma {:induction false} DownStep(s: State, t: int, c: nat)
    requires WellFormed(s) && c < s.numCols
    ensures 0 <= t - c < s.numRows ==>
      DownCount(s, t, c) < BackLen(s.numRows, s.numCols, t) &&
      Reverse(BackDiag(s.board, s.numCols, t))[DownCount(s, t, c)] == s.board[t - c][c] &&
      DownCount(s, t, c + 1) == DownCount(s, t, c) + 1
    ensures !(0 <= t - c < s.numRows) ==> DownCount(s, t, c + 1) == DownCount(s, t, c)
  {
    var len := BackLen(s.numRows, s.numCols, t);
    if 0 <= t - c < s.numRows {
      var i := DownCount(s, t, c);
      assert i == BackHi(s.numRows, t) - 1 - (t - c);
      assert Reverse(BackDiag(s.board, s.numCols, t))[i] == BackDiag(s.board, s.numCols, t)[len - 1 - i];
    }
  }

  lemma {:induction false} PrefixSnoc(xs: seq<int>, k: nat)
    requires k < |xs|
    ensures xs[..k + 1] == xs[..k] + [xs[k]]
  {
  }

  /** Reading row `r == c - d` of column `c` extends the "up" prefix read so
      far by one cell when that row exists, and leaves it alone otherwise. */
  lemma {:induction false} UpGrow(s: State, d: int, c: nat, r: int)
    requires WellFormed(s) && c < s.numCols && r == c - d
    ensures 0 <= r < s.numRows ==>
      UpCount(s, d, c) < |ForwardDiag(s.board, s.numCols, d)| &&
      UpCount(s, d, c + 1) == UpCount(s, d, c) + 1 &&
      ForwardDiag(s.board, s.numCols, d)[..UpCount(s, d, c + 1)] ==
        ForwardDiag(s.board, s.numCols, d)[..UpCount(s, d, c)] + [s.board[r][c]]
    ensures !(0 <= r < s.numRows) ==> UpCount(s, d, c + 1) == UpCount(s, d, c)
  {
    UpStep(s, d, c);
    if 0 <= r < s.numRows {
      PrefixSnoc(ForwardDiag(s.board, s.numCols, d), UpCount(s, d, c));
    }
  }

  /** Reading row `r == t - c` of column `c` extends the "down" prefix read
      so far by one cell when that row exists, and leaves it alone otherwise. */
  lemma {:induction false} DownGrow(s: State, t: int, c: nat, r: int)
    requires WellFormed(s) && c < s.numCols && r == t - c
    ensures 0 <= r < s.numRows ==>
      DownCount(s, t, c) < |Reverse(BackDiag(s.board, s.numCols, t))| &&
      DownCount(s, t, c + 1) == DownCount(s, t, c) + 1 &&
      Reverse(BackDiag(s.board, s.numCols, t))[..DownCount(s, t, c + 1)] ==
        Reverse(BackDiag(s.board, s.numCols, t))[..DownCount(s, t, c)] + [s.board[r][c]]
    ensures !(0 <= r < s.numRows) ==> DownCount(s, t, c + 1) == DownCount(s, t, c)
  {
    DownStep(s, t, c);
    if 0 <= r < s.numRows {
      PrefixSnoc(Reverse(BackDiag(s.board, s.numCols, t)), DownCount(s, t, c));
    }
  }

  /** `get_diags(cross_r, cross_c)`: the "up" and "down" diagonals through a
      cell, each read by increasing column.  The "up" one is the diagonal
      `c - r == cross_c - cross_r` by increasing row, the "down" one the
      diagonal `r + c == cross_r + cross_c` by decreasing row; a cell off the
      board gives the parts of those lines that are on it. */
  method GetDiags(s: State, crossR: int, crossC: int) returns (diagUp: seq<int>, diagDown: seq<int>)
    requires WellFormed(s)
    ensures diagUp == ForwardDiag(s.board, s.numCols, crossC - crossR)
    ensures diagDown == Reverse(BackDiag(s.board, s.numCols, crossR + crossC))
  {
    ghost var d, t := crossC - crossR, crossR + crossC;
    ghost var up := ForwardDiag(s.board, s.numCols, d);
    ghost var down := Reverse(BackDiag(s.board, s.numCols, t));
    ghost var nu, nd := 0, 0;
    diagUp, diagDown := [], [];
    for c := 0 to s.numCols
      invariant nu == UpCount(s, d, c) && nu <= |up| && diagUp == up[..nu]
      invariant nd == DownCount(s, t, c) && nd <= |down| && diagDown == down[..nd]
    {
      var r := crossR - (crossC - c);
      UpGrow(s, d, c, r);
      if 0 <= r && r < s.numRows {
        diagUp := diagUp + [s.board[r][c]];
        nu := nu + 1;
      }
      r := crossR + (crossC - c);
      DownGrow(s, t, c, r);
      if 0 <= r && r < s.numRows {
        diagDown := diagDown + [s.board[r][c]];
        nd := nd + 1;
      }
    }
    assert up[..|up|] == up && down[..|down|] == down;
  }

  // ---------------------------------------------------------------------------
  // Scoring

  /** The points one run earns for player `tok`: the square of its length
      when it is a run of `tok` of length 3 or more. */
  function RunPoints(r: Run, tok: int): nat
  {
    if r.elt == tok && r.len >= 3 then r.len * r.len else 0
  }

  function RunsPoints(rs: seq<Run>, tok: int): nat
  {
    if |rs| == 0 then 0 else RunsPoints(rs[..|rs| - 1], tok) + RunPoints(rs[|rs| - 1], tok)
  }

  /** The points player `tok` earns over a list of lines. */
  function LinesPoints(ls: seq<seq<int>>, tok: int): nat
  {
    if |ls| == 0 then 0 else LinesPoints(ls[..|ls| - 1], tok) + RunsPoints(Runs(ls[|ls| - 1]), tok)
  }

  lemma {:induction false} RunsPointsStep(rs: seq<Run>, j: nat, tok: int)
    requires j < |rs|
    ensures RunsPoints(rs[..j + 1], tok) == RunsPoints(rs[..j], tok) + RunPoints(rs[j], tok)
  {
    assert rs[..j + 1][..j] == rs[..j];
  }

  lemma {:induction false} LinesPointsStep(ls: seq<seq<int>>, i: nat, tok: int)
    requires i < |ls|
    ensures LinesPoints(ls[..i + 1], tok) == LinesPoints(ls[..i], tok) + RunsPoints(Runs(ls[i]), tok)
  {
    assert ls[..i + 1][..i] == ls[..i];
  }

  /** The value `score()` returns: Player 1's points minus Player 2's, over
      every row, column and diagonal. */
  function Points(s: State): int
    requires WellFormed(s)
  {
    LinesPoints(AllLines(s), 1) - LinesPoints(AllLines(s), -1)
  }

  /** The inner loop of `score`: the points a line's streaks earn each player. */
  method LineScores(line: seq<int>) returns (p1: nat, p2: nat)
    requires |line| > 0
    ensures p1 == RunsPoints(Runs(line), 1) && p2 == RunsPoints(Runs(line), -1)
  {
    var runs := ComputeStreaks(line);
    p1, p2 := 0, 0;
    for j := 0 to |runs|
      invariant p1 == RunsPoints(runs[..j], 1) && p2 == RunsPoints(runs[..j], -1)
    {
      var run := runs[j];
      RunsPointsStep(runs, j, 1);
      RunsPointsStep(runs, j, -1);
      if run.elt == 1 && run.len >= 3 {
        p1 := p1 + run.len * run.len;
      } else if run.elt == -1 && run.len >= 3 {
        p2 := p2 + run.len * run.len;
      }
    }
    assert runs[..|runs|] == runs;
  }

  /** The outer loop of `score`: the points each player earns over a list of lines. */
  method LinesScores(lines: seq<seq<int>>) returns (p1Score: nat, p2Score: nat)
    requires NonEmptyLines(lines)
    ensures p1Score == LinesPoints(lines, 1) && p2Score == LinesPoints(lines, -1)
  {
    p1Score, p2Score := 0, 0;
    for i := 0 to |lines|
      invariant p1Score == LinesPoints(lines[..i], 1)
      invariant p2Score == LinesPoints(lines[..i], -1)
    {
      var p1, p2 := LineScores(lines[i]);
      LinesPointsStep(lines, i, 1);
      LinesPointsStep(lines, i, -1);
      p1Score, p2Score := p1Score + p1, p2Score + p2;
    }
    assert lines[..|lines|] == lines;
  }

  /** `score`: run-length encode every row, column and diagonal and add up
      the squares of the streaks of length at least 3 for each player. */
  method Score(s: State) returns (score: int)
    requires WellFormed(s)
    ensures score == Points(s)
  {
    var lines := GetAllRows(s) + GetAllCols(s) + GetAllDiags(s);
    LinesAre(s);
    var p1Score: int, p2Score: int := LinesScores(lines);
    score := p1Score - p2Score;
  }

  /** A line made of one player's token throughout is one streak: it earns
      that player the square of its length when it is at least 3 long (16 for
      four in a row) and earns the other player nothing. */
  lemma {:induction false} UniformLinePoints(line: seq<int>, tok: int)
    requires |line| > 0 && (tok == 1 || tok == -1)
    requires forall i :: 0 <= i < |line| ==> line[i] == tok
    ensures RunsPoints(Runs(line), tok) == if |line| >= 3 then |line| * |line| else 0
    ensures RunsPoints(Runs(line), -tok) == 0
  {
    RunsUniform(line, tok);
    assert Runs(line)[..0] == [];
  }

  /** The board with the players' tokens swapped. */
  function Negate(s: State): State {
    s.(board := NegGrid(s.board))
  }

  lemma {:induction false} RunsPointsNeg(rs: seq<Run>, tok: int)
    ensures RunsPoints(NegRuns(rs), -tok) == RunsPoints(rs, tok)
  {
    if |rs| > 0 {
      assert NegRuns(rs)[..|rs| - 1] == NegRuns(rs[..|rs| - 1]);
      RunsPointsNeg(rs[..|rs| - 1], tok);
    }
  }

  lemma {:induction false} LinesPointsNeg(ls: seq<seq<int>>, ns: seq<seq<int>>, tok: int)
    requires NegatedLines(ns, ls)
    ensures LinesPoints(ns, -tok) == LinesPoints(ls, tok)
  {
    if |ls| > 0 {
      var n := |ls| - 1;
      LinesPointsNeg(ls[..n], ns[..n], tok);
      RunsNeg(ls[n]);
      RunsPointsNeg(Runs(ls[n]), tok);
    }
  }

  /** `ns` is `ls` with every token swapped. */
  predicate NegatedLines(ns: seq<seq<int>>, ls: seq<seq<int>>) {
    |ns| == |ls| && forall k :: 0 <= k < |ls| ==> ns[k] == NegLine(ls[k])
  }

  lemma {:induction false} NegatedConcat(ns: seq<seq<int>>, ls: seq<seq<int>>, ns': seq<seq<int>>, ls': seq<seq<int>>)
    requires NegatedLines(ns, ls) && NegatedLines(ns', ls')
    ensures NegatedLines(ns + ns', ls + ls')
  {
  }

  lemma {:induction false} NegateDiag(s: State, k: nat)
    requires WellFormed(s) && k < 2 * (s.numRows + s.numCols - 1)
    ensures WellFormed(Negate(s))
    ensures |GetAllDiags(Negate(s))| == |GetAllDiags(s)| == 2 * (s.numRows + s.numCols - 1)
    ensures GetAllDiags(Negate(s))[k] == NegLine(GetAllDiags(s)[k])
  {
    NegLines(s.board, s.numCols, 0, 0);
    assert Negate(s).board == NegGrid(s.board);
    DiagonalsNeg(s.board, s.numRows, s.numCols, k);
  }

  lemma {:induction false} NegateDiags(s: State)
    requires WellFormed(s)
    ensures WellFormed(Negate(s))
    ensures NegatedLines(GetAllDiags(Negate(s)), GetAllDiags(s))
  {
    NegateDiag(s, 0);
    forall k | 0 <= k < |GetAllDiags(s)| ensures GetAllDiags(Negate(s))[k] == NegLine(GetAllDiags(s)[k]) {
      NegateDiag(s, k);
    }
  }

  /** Swapping the players swaps every line's tokens. */
  lemma {:induction false} NegateLines(s: State)
    requires WellFormed(s)
    ensures WellFormed(Negate(s))
    ensures NegatedLines(AllLines(Negate(s)), AllLines(s))
  {
    var t := Negate(s);
    assert WellFormed(t);
    RowsAndCols(s);
    RowsAndCols(t);
    assert NegatedLines(GetAllRows(t), GetAllRows(s));
    NegZip(s.board, s.numCols);
    assert NegatedLines(GetAllCols(t), GetAllCols(s));
    NegateDiags(s);
    NegatedConcat(GetAllRows(t), GetAllRows(s), GetAllCols(t), GetAllCols(s));
    NegatedConcat(GetAllRows(t) + GetAllCols(t), GetAllRows(s) + GetAllCols(s),
                  GetAllDiags(t), GetAllDiags(s));
  }

  /** The score is antisymmetric: swapping every token of the board negates it. */
  lemma {:induction false} ScoreNegation(s: State)
    requires WellFormed(s)
    ensures Points(Negate(s)) == -Points(s)
  {
    NegateLines(s);
    LinesPointsNeg(AllLines(s), AllLines(Negate(s)), 1);
    LinesPointsNeg(AllLines(s), AllLines(Negate(s)), -1);
  }
}
