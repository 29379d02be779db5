/** The integer parts of `HeuristicAgent`'s evaluator in agents.py: the
    relaxed streak scanners `streaksX2` / `streaksO2`, which let one empty
    cell join a player's run, and `half_empty`, which tells the two scoring
    formulas apart.  The float-valued `convulations` and the evaluator built
    from these are not modelled; the searches take the evaluator as a
    parameter. */
module Heuristic {
  import opened Grid
  import opened Streaks
  import opened Board

  // ---------------------------------------------------------------------------
  // streaksX2 / streaksO2

  /** The variables of the scan: `rets`, `prev` and `curr_len`. */
  datatype Scanner = Scanner(rets: seq<Run>, prev: int, len: nat)

  /** One iteration of the `for curr in lst[1:]` loop of `streaksX2`
      (`tok` = 1) or `streaksO2` (`tok` = -1).  A token of the player
      lengthens the open count; an empty cell closes a run of the player, one
      longer when the previous cell was not empty, and leaves `prev` at 0
      without resetting the count; any other cell closes the open run and
      starts a new one. */
  function RelaxedStep(sc: Scanner, curr: int, tok: int): Scanner {
    if curr == tok then sc.(len := sc.len + 1)
    else if curr == 0 then
      if sc.prev == 0 then Scanner(sc.rets + [Run(tok, sc.len)], 0, sc.len)
      else Scanner(sc.rets + [Run(tok, sc.len + 1)], 0, sc.len + 1)
    else Scanner(sc.rets + [Run(sc.prev, sc.len)], curr, 1)
  }

  /** The scan state once the loop has read `lst[1..n]`. */
  function RelaxedScan(lst: seq<int>, tok: int, n: nat): Scanner
    requires 1 <= n <= |lst|
  {
    if n == 1 then Scanner([], lst[0], 1)
    else RelaxedStep(RelaxedScan(lst, tok, n - 1), lst[n - 1], tok)
  }

  /** What the scanner returns: the loop runs only when the line starts with
      the player's token, and the open run is appended at the end.  As with
      `streaks`, the source fails on an empty line, which no board produces;
      it is given the empty run list here. */
  function Relaxed(lst: seq<int>, tok: int): seq<Run>
  {
    if |lst| == 0 then [] else
    var sc := if lst[0] == tok then RelaxedScan(lst, tok, |lst|) else Scanner([], lst[0], 1);
    sc.rets + [Run(sc.prev, sc.len)]
  }

  /** `streaksX2(lst)` (`tok` = 1) and `streaksO2(lst)` (`tok` = -1) as written. */
  method RelaxedStreaks(lst: seq<int>, tok: int) returns (rets: seq<Run>)
    requires |lst| > 0
    ensures rets == Relaxed(lst, tok)
  {
    rets := [];
    var prev := lst[0];
    var currLen: nat := 1;
    if prev == tok {
      for i := 1 to |lst|
        invariant RelaxedScan(lst, tok, i) == Scanner(rets, prev, currLen)
      {
        var curr := lst[i];
        if curr == tok {
          currLen := currLen + 1;
        } else if curr == 0 {
          if curr == prev {
            prev := tok;
            rets := rets + [Run(prev, currLen)];
          } else {
            prev := tok;
            currLen := currLen + 1;
            rets := rets + [Run(prev, currLen)];
          }
          prev := curr;
        } else {
          rets := rets + [Run(prev, currLen)];
          prev := curr;
          currLen := 1;
        }
      }
    }
    rets := rets + [Run(prev, currLen)];
  }

  /** The scan never loses count: every run it records, and the open one,
      has a length between 1 and the number of cells read. */
  lemma {:induction false} RelaxedScanLengths(lst: seq<int>, tok: int, n: nat)
    requires 1 <= n <= |lst|
    ensures var sc := RelaxedScan(lst, tok, n);
      1 <= sc.len <= n && forall k :: 0 <= k < |sc.rets| ==> 1 <= sc.rets[k].len <= n
  {
    if n > 1 {
      RelaxedScanLengths(lst, tok, n - 1);
    }
  }

  /** The scanners return a non-empty list whose lengths lie between 1 and
      `len(lst)`; a line that does not start with the player's token gives
      exactly `[(lst[0], 1)]`. */
  lemma {:induction false} RelaxedShape(lst: seq<int>, tok: int)
    requires |lst| > 0
    ensures |Relaxed(lst, tok)| >= 1
    ensures forall k :: 0 <= k < |Relaxed(lst, tok)| ==> 1 <= Relaxed(lst, tok)[k].len <= |lst|
    ensures lst[0] != tok ==> Relaxed(lst, tok) == [Run(lst[0], 1)]
  {
    if lst[0] == tok {
      RelaxedScanLengths(lst, tok, |lst|);
    }
  }

  lemma {:induction false} RelaxedScanAll(lst: seq<int>, tok: int, n: nat)
    requires 1 <= n <= |lst|
    requires forall i :: 0 <= i < n ==> lst[i] == tok
    ensures RelaxedScan(lst, tok, n) == Scanner([], tok, n)
  {
    if n > 1 {
      RelaxedScanAll(lst, tok, n - 1);
    }
  }

  /** A line made only of the player's token is one run as long as the line,
      as `streaks` would also report. */
  lemma {:induction false} RelaxedAllTokens(lst: seq<int>, tok: int)
    requires |lst| > 0 && forall i :: 0 <= i < |lst| ==> lst[i] == tok
    ensures Relaxed(lst, tok) == [Run(tok, |lst|)]
    ensures Relaxed(lst, tok) == Runs(lst)
  {
    RelaxedScanAll(lst, tok, |lst|);
    RunsUniform(lst, tok);
  }

  lemma {:induction false} RelaxedScanNeg(lst: seq<int>, tok: int, n: nat)
    requires 1 <= n <= |lst|
    ensures var sc := RelaxedScan(lst, tok, n);
      RelaxedScan(NegLine(lst), -tok, n) == Scanner(NegRuns(sc.rets), -sc.prev, sc.len)
  {
    if n > 1 {
      RelaxedScanNeg(lst, tok, n - 1);
      var sc := RelaxedScan(lst, tok, n - 1);
      var r := if lst[n - 1] == 0 then Run(tok, if sc.prev == 0 then sc.len else sc.len + 1)
        else Run(sc.prev, sc.len);
      assert NegRuns(sc.rets + [r]) == NegRuns(sc.rets) + [Run(-r.elt, r.len)];
    }
  }

  /** `streaksO2` is `streaksX2` with the colours swapped: scanning the
      negated line for the other player negates every element of the result
      and keeps the lengths. */
  lemma {:induction false} RelaxedNeg(lst: seq<int>, tok: int)
    requires |lst| > 0
    ensures Relaxed(NegLine(lst), -tok) == NegRuns(Relaxed(lst, tok))
  {
    var sc := if lst[0] == tok then RelaxedScan(lst, tok, |lst|) else Scanner([], lst[0], 1);
    if lst[0] == tok {
      RelaxedScanNeg(lst, tok, |lst|);
    }
    assert NegRuns(sc.rets + [Run(sc.prev, sc.len)]) == NegRuns(sc.rets) + [Run(-sc.prev, sc.len)];
  }

  // ---------------------------------------------------------------------------
  // The relaxed tallies of `evaluation`

  /** What one line's relaxed runs add to a player's tally: the length of
      every run at least 3 long.  The element of the run is not looked at. */
  function RelaxedRunsPoints(rs: seq<Run>): nat
  {
    if |rs| == 0 then 0
    else RelaxedRunsPoints(rs[..|rs| - 1]) + (if rs[|rs| - 1].len >= 3 then rs[|rs| - 1].len else 0)
  }

  /** A player's relaxed tally (`p1_score` for `tok` = 1 with `streaksX2`,
      `p2_score` for `tok` = -1 with `streaksO2`) over a list of lines. */
  function RelaxedLinesPoints(ls: seq<seq<int>>, tok: int): nat
  {
    if |ls| == 0 then 0
    else RelaxedLinesPoints(ls[..|ls| - 1], tok) + RelaxedRunsPoints(Relaxed(ls[|ls| - 1], tok))
  }

  lemma {:induction false} RelaxedRunsPointsStep(rs: seq<Run>, j: nat)
    requires j < |rs|
    ensures RelaxedRunsPoints(rs[..j + 1]) ==
      RelaxedRunsPoints(rs[..j]) + (if rs[j].len >= 3 then rs[j].len else 0)
  {
    assert rs[..j + 1][..j] == rs[..j];
  }

  lemma {:induction false} RelaxedLinesPointsStep(ls: seq<seq<int>>, i: nat, tok: int)
    requires i < |ls|
    ensures RelaxedLinesPoints(ls[..i + 1], tok) ==
      RelaxedLinesPoints(ls[..i], tok) + RelaxedRunsPoints(Relaxed(ls[i], tok))
  {
    assert ls[..i + 1][..i] == ls[..i];
  }

  /** The sum of the lengths of the runs at least 3 long in a list of runs. */
  method TallyRuns(rs: seq<Run>) returns (t: nat)
    ensures t == RelaxedRunsPoints(rs)
  {
    t := 0;
    for j := 0 to |rs|
      invariant t == RelaxedRunsPoints(rs[..j])
    {
      RelaxedRunsPointsStep(rs, j);
      if rs[j].len >= 3 {
        t := t + rs[j].len;
      }
    }
    assert rs[..|rs|] == rs;
  }

  /** The body of the first loop of `evaluation`: the two relaxed tallies of one line. */
  method LineRelaxed(line: seq<int>) returns (t1: nat, t2: nat)
    requires |line| > 0
    ensures t1 == RelaxedRunsPoints(Relaxed(line, 1)) && t2 == RelaxedRunsPoints(Relaxed(line, -1))
  {
    var xs := RelaxedStreaks(line, 1);
    t1 := TallyRuns(xs);
    var os := RelaxedStreaks(line, -1);
    t2 := TallyRuns(os);
  }

  /** The first loop of `evaluation`: over every line, add the length of each
      relaxed run at least 3 long, from `streaksX2` to `p1_score` and from
      `streaksO2` to `p2_score`. */
  method RelaxedScores(lines: seq<seq<int>>) returns (p1Score: nat, p2Score: nat)
    requires NonEmptyLines(lines)
    ensures p1Score == RelaxedLinesPoints(lines, 1) && p2Score == RelaxedLinesPoints(lines, -1)
  {
    p1Score, p2Score := 0, 0;
    for i := 0 to |lines|
      invariant p1Score == RelaxedLinesPoints(lines[..i], 1)
      invariant p2Score == RelaxedLinesPoints(lines[..i], -1)
    {
      var t1, t2 := LineRelaxed(lines[i]);
      assert p1Score + t1 == RelaxedLinesPoints(lines[..i + 1], 1) by {
        RelaxedLinesPointsStep(lines, i, 1);
      }
      assert p2Score + t2 == RelaxedLinesPoints(lines[..i + 1], -1) by {
        RelaxedLinesPointsStep(lines, i, -1);
      }
      p1Score, p2Score := p1Score + t1, p2Score + t2;
    }
    assert lines[..|lines|] == lines;
  }

  lemma {:induction false} RelaxedRunsPointsNeg(rs: seq<Run>)
    ensures RelaxedRunsPoints(NegRuns(rs)) == RelaxedRunsPoints(rs)
  {
    if |rs| > 0 {
      assert NegRuns(rs)[..|rs| - 1] == NegRuns(rs[..|rs| - 1]);
      RelaxedRunsPointsNeg(rs[..|rs| - 1]);
    }
  }

  lemma {:induction false} RelaxedLinesPointsNeg(ls: seq<seq<int>>, ns: seq<seq<int>>, tok: int)
    requires NegatedLines(ns, ls)
    ensures RelaxedLinesPoints(ns, -tok) == RelaxedLinesPoints(ls, tok)
  {
    if |ls| > 0 {
      var n := |ls| - 1;
      assert NegatedLines(ns[..n], ls[..n]);
      RelaxedLinesPointsNeg(ls[..n], ns[..n], tok);
      if |ls[n]| > 0 {
        RelaxedNeg(ls[n], tok);
      }
      RelaxedRunsPointsNeg(Relaxed(ls[n], tok));
    }
  }

  /** Swapping every token of the board swaps the two relaxed tallies:
      `streaksO2` treats Player 2 exactly as `streaksX2` treats Player 1. */
  lemma {:induction false} RelaxedTalliesSwap(s: State)
    requires WellFormed(s)
    ensures WellFormed(Negate(s))
    ensures RelaxedLinesPoints(AllLines(Negate(s)), -1) == RelaxedLinesPoints(AllLines(s), 1)
    ensures RelaxedLinesPoints(AllLines(Negate(s)), 1) == RelaxedLinesPoints(AllLines(s), -1)
  {
    NegateLines(s);
    RelaxedLinesPointsNeg(AllLines(s), AllLines(Negate(s)), 1);
    RelaxedLinesPointsNeg(AllLines(s), AllLines(Negate(s)), -1);
  }

  // ---------------------------------------------------------------------------
  // half_empty

  /** The number of nonzero entries. */
  function NonZeros(xs: seq<int>): nat
  {
    if |xs| == 0 then 0 else NonZeros(xs[..|xs| - 1]) + (if xs[|xs| - 1] != 0 then 1 else 0)
  }

  /** The number of cells holding a token. */
  function Occupied(s: State): nat {
    NonZeros(Flatten(s.board))
  }

  /** Every entry is either zero or nonzero. */
  lemma {:induction false} ZerosSplit(xs: seq<int>)
    ensures NonZeros(xs) + Zeros(xs) == |xs|
  {
    if |xs| > 0 {
      ZerosSplit(xs[..|xs| - 1]);
    }
  }

  /** Every cell is either empty or occupied. */
  lemma {:induction false} CellsSplit(s: State)
    requires Shaped(s)
    ensures Occupied(s) + Empties(s) == s.numRows * s.numCols
  {
    FlattenLength(s.board, s.numCols);
    ZerosSplit(Flatten(s.board));
  }

  lemma {:induction false} ZerosSnoc(xs: seq<int>, x: int)
    ensures Zeros(xs + [x]) == Zeros(xs) + (if x == 0 then 1 else 0)
    ensures NonZeros(xs + [x]) == NonZeros(xs) + (if x != 0 then 1 else 0)
  {
    assert (xs + [x])[..|xs|] == xs;
  }

  /** Reading cell `c` of a row after a prefix of the board adds it to one
      of the two counts. */
  lemma {:induction false} CountStep(xs: seq<int>, row: seq<int>, c: nat)
    requires c < |row|
    ensures Zeros(xs + row[..c + 1]) == Zeros(xs + row[..c]) + (if row[c] == 0 then 1 else 0)
    ensures NonZeros(xs + row[..c + 1]) == NonZeros(xs + row[..c]) + (if row[c] != 0 then 1 else 0)
  {
    assert xs + row[..c + 1] == (xs + row[..c]) + [row[c]];
    ZerosSnoc(xs + row[..c], row[c]);
  }

  lemma {:induction false} FlattenSnoc(g: seq<seq<int>>, r: nat)
    requires r < |g|
    ensures Flatten(g[..r + 1]) == Flatten(g[..r]) + g[r]
  {
    assert g[..r + 1][..r] == g[..r];
  }

  /** `half_empty`: count the empty (`z`) and occupied (`x`) cells row by row;
      the board is half empty unless more cells are occupied than empty. */
  method HalfEmpty(s: State) returns (half: bool)
    requires Shaped(s)
    ensures half <==> Occupied(s) <= Empties(s)
  {
    var x := 0;
    var z := 0;
    for r := 0 to s.numRows
      invariant z == Zeros(Flatten(s.board[..r])) && x == NonZeros(Flatten(s.board[..r]))
    {
      assert Flatten(s.board[..r]) + s.board[r][..0] == Flatten(s.board[..r]);
      for c := 0 to s.numCols
        invariant z == Zeros(Flatten(s.board[..r]) + s.board[r][..c])
        invariant x == NonZeros(Flatten(s.board[..r]) + s.board[r][..c])
      {
        CountStep(Flatten(s.board[..r]), s.board[r], c);
        if s.board[r][c] == 0 {
          z := z + 1;
        } else {
          x := x + 1;
        }
      }
      assert s.board[r][..s.numCols] == s.board[r];
      FlattenSnoc(s.board, r);
    }
    assert s.board[..s.numRows] == s.board;
    if x > z {
      return false;
    }
    return true;
  }

  /** A move occupies one more cell, so once a board is no longer half empty
      no move makes it half empty again. */
  lemma {:induction false} HalfEmptyMonotone(s: State, col: nat)
    requires WellFormed(s) && col < s.numCols && Open(s, col)
    ensures Occupied(Child(s, col)) == Occupied(s) + 1
    ensures Occupied(s) > Empties(s) ==> Occupied(Child(s, col)) > Empties(Child(s, col))
  {
    ChildEmpties(s, col);
    CellsSplit(s);
    CellsSplit(Child(s, col));
  }

  /** A full board is not half empty, and the empty board is. */
  lemma {:induction false} HalfEmptyEnds(s: State)
    requires WellFormed(s)
    ensures Full(s) ==> Occupied(s) > Empties(s)
    ensures Empties(s) == s.numRows * s.numCols ==> Occupied(s) <= Empties(s)
  {
    CellsSplit(s);
    FullIffNoEmpties(s);
  }
}
