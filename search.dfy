/** The adversarial searches of agents.py: exact minimax (`MinimaxAgent`),
    depth-limited minimax (`HeuristicAgent`) and fail-hard alpha-beta
    (`PruneAgent`), and the root move choice `get_move` they share.  Player 1
    maximises, Player 2 minimises; a full board is worth its `score()`.  The
    static evaluator (`evaluation` / `evaluation2`, whose bodies are identical)
    is a parameter `eval`: any integer function of the state. */
module Search {
  import opened Options
  import opened Extended
  import opened Board

  // ---------------------------------------------------------------------------
  // Exact minimax: MinimaxAgent.minimax

  /** `MinimaxAgent.minimax(state)`: the score of a full board; otherwise the
      running `max` (Player 1 to move) or `min` (Player 2) over the
      successors' values, started at `-inf` / `+inf`.  `is_full()` is tested
      as "no empty cell left", which FullIffNoEmpties shows is the same. */
  function Minimax(s: State): Ext
    requires WellFormed(s)
    decreases Empties(s), 1
  {
    if Empties(s) == 0 then Fin(Points(s))
    else if NextPlayer(s) == 1 then FoldMax(MinimaxValues(s), NegInf)
    else FoldMin(MinimaxValues(s), PosInf)
  }

  /** The minimax values of the successors, in `successors()` order. */
  function MinimaxValues(s: State): (vs: seq<Ext>)
    requires WellFormed(s)
    decreases Empties(s), 0
    ensures |vs| == |Children(s)|
  {
    ChildrenEmpties(s);
    var cs := Children(s);
    seq(|cs|, j requires 0 <= j < |cs| => Minimax(cs[j].1))
  }

  /** What minimax computes at a Player 1 node, stated without the fold: a
      value no successor exceeds and some successor reaches, or `-inf`, the
      loop's start value, when there is no successor. */
  lemma {:induction false} MinimaxMaxNode(s: State)
    requires WellFormed(s) && !Full(s) && NextPlayer(s) == 1
    ensures forall j :: 0 <= j < |Children(s)| ==> Le(Minimax(Children(s)[j].1), Minimax(s))
    ensures |Children(s)| == 0 ==> Minimax(s) == NegInf
    ensures |Children(s)| > 0 ==> exists j :: 0 <= j < |Children(s)| && Minimax(s) == Minimax(Children(s)[j].1)
  {
    FullIffNoEmpties(s);
    var vs := MinimaxValues(s);
    var m := FoldMax(vs, NegInf);
    assert forall j :: 0 <= j < |vs| ==> vs[j] == Minimax(Children(s)[j].1);
    if |vs| > 0 && m == NegInf {
      assert Le(vs[0], m);
    }
  }

  /** The mirror image of MinimaxMaxNode at a Player 2 node. */
  lemma {:induction false} MinimaxMinNode(s: State)
    requires WellFormed(s) && !Full(s) && NextPlayer(s) == -1
    ensures forall j :: 0 <= j < |Children(s)| ==> Le(Minimax(s), Minimax(Children(s)[j].1))
    ensures |Children(s)| == 0 ==> Minimax(s) == PosInf
    ensures |Children(s)| > 0 ==> exists j :: 0 <= j < |Children(s)| && Minimax(s) == Minimax(Children(s)[j].1)
  {
    FullIffNoEmpties(s);
    var vs := MinimaxValues(s);
    var m := FoldMin(vs, PosInf);
    assert forall j :: 0 <= j < |vs| ==> vs[j] == Minimax(Children(s)[j].1);
    if |vs| > 0 && m == PosInf {
      assert Le(m, vs[0]);
    }
  }

  /** A full board is worth its score. */
  lemma {:induction false} MinimaxFull(s: State)
    requires WellFormed(s) && Full(s)
    ensures Minimax(s) == Fin(Points(s))
  {
    FullIffNoEmpties(s);
  }

  // ---------------------------------------------------------------------------
  // Depth-limited minimax: HeuristicAgent.minimax_depth

  /** The depth the searches work with: `None` becomes -1. */
  function DepthOf(depth: Option<int>): int {
    if depth.None? then -1 else depth.value
  }

  /** The depth passed to the successors: a positive depth drops by one, zero
      never gets here, and a negative depth stays as it is. */
  function NextDepth(d: int): int {
    if d > 0 then d - 1 else d
  }

  /** `HeuristicAgent.minimax_depth(state, depth)`: the score of a full board,
      `evaluation(state)` at depth 0, and otherwise the running `max` / `min`
      over the successors searched at the next depth. */
  function MinimaxDepth(s: State, depth: Option<int>, eval: State -> int): Ext
    requires WellFormed(s)
    decreases Empties(s), 1
  {
    var d := DepthOf(depth);
    if Empties(s) == 0 then Fin(Points(s))
    else if d == 0 then Fin(eval(s))
    else if NextPlayer(s) == 1 then FoldMax(DepthValues(s, NextDepth(d), eval), NegInf)
    else FoldMin(DepthValues(s, NextDepth(d), eval), PosInf)
  }

  /** The depth-limited values of the successors, searched at depth `nd`. */
  function DepthValues(s: State, nd: int, eval: State -> int): (vs: seq<Ext>)
    requires WellFormed(s)
    decreases Empties(s), 0
    ensures |vs| == |Children(s)|
  {
    ChildrenEmpties(s);
    var cs := Children(s);
    seq(|cs|, j requires 0 <= j < |cs| => MinimaxDepth(cs[j].1, Some(nd), eval))
  }

  /** What the depth limit does: a full board is worth its score at every
      depth, a non-full board at depth 0 is worth `evaluation`, and a search
      with a positive depth searches the successors one level shallower. */
  lemma {:induction false} DepthCutoffs(s: State, depth: Option<int>, eval: State -> int)
    requires WellFormed(s)
    ensures Full(s) ==> MinimaxDepth(s, depth, eval) == Fin(Points(s))
    ensures !Full(s) && DepthOf(depth) == 0 ==> MinimaxDepth(s, depth, eval) == Fin(eval(s))
    ensures depth.None? ==> MinimaxDepth(s, depth, eval) == MinimaxDepth(s, Some(-1), eval)
    ensures !Full(s) && DepthOf(depth) > 0 ==> forall j :: 0 <= j < |Children(s)| ==>
      WellFormed(Children(s)[j].1) &&
      DepthValues(s, NextDepth(DepthOf(depth)), eval)[j] == MinimaxDepth(Children(s)[j].1, Some(DepthOf(depth) - 1), eval)
    ensures !Full(s) && DepthOf(depth) < 0 ==> forall j :: 0 <= j < |Children(s)| ==>
      WellFormed(Children(s)[j].1) &&
      DepthValues(s, NextDepth(DepthOf(depth)), eval)[j] == MinimaxDepth(Children(s)[j].1, Some(DepthOf(depth)), eval)
  {
    FullIffNoEmpties(s);
    ChildrenEmpties(s);
  }

  lemma {:induction false} DepthValuesAgree(s: State, nd: int, eval: State -> int)
    requires WellFormed(s)
    requires nd < 0 || nd >= Empties(s) - 1
    ensures DepthValues(s, nd, eval) == MinimaxValues(s)
    decreases Empties(s), 0
  {
    ChildrenEmpties(s);
    forall j | 0 <= j < |Children(s)|
      ensures DepthValues(s, nd, eval)[j] == MinimaxValues(s)[j]
    {
      DepthUnbounded(Children(s)[j].1, nd, eval);
    }
  }

  /** A search that can never reach depth 0 before the board is full (a
      negative depth, or one at least the number of empty cells) is the exact
      minimax value, whatever the evaluator. */
  lemma {:induction false} DepthUnbounded(s: State, d: int, eval: State -> int)
    requires WellFormed(s)
    requires d < 0 || d >= Empties(s)
    ensures MinimaxDepth(s, Some(d), eval) == Minimax(s)
    decreases Empties(s), 1
  {
    if Empties(s) != 0 {
      DepthValuesAgree(s, NextDepth(d), eval);
    }
  }

  /** `minimax_depth(state, None)`, as `HeuristicAgent` runs it without a
      depth, is `MinimaxAgent.minimax(state)`. */
  lemma {:induction false} NoDepthIsExact(s: State, eval: State -> int)
    requires WellFormed(s)
    ensures MinimaxDepth(s, None, eval) == Minimax(s)
  {
    DepthUnbounded(s, -1, eval);
  }

  // ---------------------------------------------------------------------------
  // Alpha-beta: PruneAgent.minimax_prune_helper

  /** `minimax_prune_helper(state, depth, alpha, beta)`: like `minimax_depth`
      at full boards and at depth 0; otherwise the successors are searched in
      `successors()` order inside the window, and the node returns its own
      `alpha` (Player 1) or `beta` (Player 2). */
  function PruneHelper(s: State, depth: Option<int>, alpha: Ext, beta: Ext, eval: State -> int): Ext
    requires WellFormed(s)
    decreases Empties(s), 1, 0
  {
    var d := DepthOf(depth);
    if Empties(s) == 0 then Fin(Points(s))
    else if d == 0 then Fin(eval(s))
    else if NextPlayer(s) == 1 then PruneMax(s, NextDepth(d), eval, 0, NegInf, alpha, beta)
    else PruneMin(s, NextDepth(d), eval, 0, PosInf, alpha, beta)
  }

  /** The loop of a Player 1 node from the `i`-th successor on: `v = max(v,
      child)`, `alpha = max(v, alpha)`, and `break` once `beta <= alpha`; the
      node's value is its final `alpha`. */
  function PruneMax(s: State, nd: int, eval: State -> int, i: nat, v: Ext, alpha: Ext, beta: Ext): Ext
    requires WellFormed(s) && i <= |Children(s)|
    decreases Empties(s), 0, |Children(s)| - i
  {
    if i == |Children(s)| then alpha
    else
      ChildrenEmpties(s);
      var v' := Max(v, PruneHelper(Children(s)[i].1, Some(nd), alpha, beta, eval));
      var alpha' := Max(v', alpha);
      if Le(beta, alpha') then alpha' else PruneMax(s, nd, eval, i + 1, v', alpha', beta)
  }

  /** The loop of a Player 2 node: `v = min(v, child)`, `beta = min(v, beta)`,
      `break` once `beta <= alpha`; the node's value is its final `beta`. */
  function PruneMin(s: State, nd: int, eval: State -> int, i: nat, v: Ext, alpha: Ext, beta: Ext): Ext
    requires WellFormed(s) && i <= |Children(s)|
    decreases Empties(s), 0, |Children(s)| - i
  {
    if i == |Children(s)| then beta
    else
      ChildrenEmpties(s);
      var v' := Min(v, PruneHelper(Children(s)[i].1, Some(nd), alpha, beta, eval));
      var beta' := Min(v', beta);
      if Le(beta', alpha) then beta' else PruneMin(s, nd, eval, i + 1, v', alpha, beta')
  }

  /** `minimax_prune(state, depth)`: the helper from the window `(-inf, +inf)`. */
  function MinimaxPrune(s: State, depth: Option<int>, eval: State -> int): Ext
    requires WellFormed(s)
  {
    PruneHelper(s, depth, NegInf, PosInf, eval)
  }

  /** Inside the window only the part of a value at or above the current
      bound matters. */
  lemma {:induction false} ClampRaise(y: Ext, lo: Ext, lo': Ext, hi: Ext)
    requires Le(lo, lo') && Le(lo', hi) && Le(lo', y)
    ensures Clamp(y, lo, hi) == Clamp(y, lo', hi)
  {
  }

  lemma {:induction false} ClampLower(y: Ext, lo: Ext, hi': Ext, hi: Ext)
    requires Le(lo, hi') && Le(hi', hi) && Le(y, hi')
    ensures Clamp(y, lo, hi) == Clamp(y, lo, hi')
  {
  }

  /** One step of a Player 1 loop, on values: `r` is what the child search
      returned, `x` its true value, and they agree inside the window.  If the
      loop breaks, the true value is already at least `beta`; otherwise the
      new `alpha` is the running maximum of the true values. */
  lemma {:induction false} MaxStep(v: Ext, r: Ext, x: Ext, alpha: Ext, beta: Ext)
    requires Le(v, alpha) && Lt(alpha, beta)
    requires Clamp(r, alpha, beta) == Clamp(x, alpha, beta)
    ensures Le(Max(v, r), Max(Max(v, r), alpha))
    ensures Le(beta, Max(Max(v, r), alpha)) ==> Le(beta, x)
    ensures !Le(beta, Max(Max(v, r), alpha)) ==> Max(Max(v, r), alpha) == Max(alpha, x)
  {
  }

  /** One step of a Player 2 loop, on values. */
  lemma {:induction false} MinStep(v: Ext, r: Ext, x: Ext, alpha: Ext, beta: Ext)
    requires Le(beta, v) && Lt(alpha, beta)
    requires Clamp(r, alpha, beta) == Clamp(x, alpha, beta)
    ensures Le(Min(Min(v, r), beta), Min(v, r))
    ensures Le(Min(Min(v, r), beta), alpha) ==> Le(x, alpha)
    ensures !Le(Min(Min(v, r), beta), alpha) ==> Min(Min(v, r), beta) == Min(beta, x)
  {
  }

  /** The loop of a Player 1 node, started with `v <= alpha < beta`, returns
      at least `alpha`, and inside the window `[alpha, beta]` it agrees with
      the running maximum of the true values started at `alpha`. */
  lemma {:induction false} PruneMaxWindow(s: State, nd: int, eval: State -> int, i: nat, v: Ext, alpha: Ext, beta: Ext)
    requires WellFormed(s) && i <= |Children(s)|
    requires Le(v, alpha) && Lt(alpha, beta)
    ensures Le(alpha, PruneMax(s, nd, eval, i, v, alpha, beta))
    ensures Clamp(PruneMax(s, nd, eval, i, v, alpha, beta), alpha, beta) ==
      Clamp(FoldMax(DepthValues(s, nd, eval)[i..], alpha), alpha, beta)
    decreases Empties(s), 0, |Children(s)| - i
  {
    if i < |Children(s)| {
      ChildrenEmpties(s);
      var child := Children(s)[i].1;
      var r := PruneHelper(child, Some(nd), alpha, beta, eval);
      var x := MinimaxDepth(child, Some(nd), eval);
      PruneWindow(child, Some(nd), alpha, beta, eval);
      MaxStep(v, r, x, alpha, beta);
      var v' := Max(v, r);
      var alpha' := Max(v', alpha);
      var rest := DepthValues(s, nd, eval)[i + 1..];
      FoldMaxSlice(DepthValues(s, nd, eval), i, alpha);
      var f := FoldMax(rest, Max(alpha, x));
      if Le(beta, alpha') {
        assert Clamp(f, alpha, beta) == beta;
      } else {
        PruneMaxWindow(s, nd, eval, i + 1, v', alpha', beta);
        var p := PruneMax(s, nd, eval, i + 1, v', alpha', beta);
        ClampRaise(p, alpha, alpha', beta);
        ClampRaise(f, alpha, alpha', beta);
      }
    }
  }

  /** The mirror image of PruneMaxWindow for a Player 2 node. */
  lemma {:induction false} PruneMinWindow(s: State, nd: int, eval: State -> int, i: nat, v: Ext, alpha: Ext, beta: Ext)
    requires WellFormed(s) && i <= |Children(s)|
    requires Le(beta, v) && Lt(alpha, beta)
    ensures Le(PruneMin(s, nd, eval, i, v, alpha, beta), beta)
    ensures Clamp(PruneMin(s, nd, eval, i, v, alpha, beta), alpha, beta) ==
      Clamp(FoldMin(DepthValues(s, nd, eval)[i..], beta), alpha, beta)
    decreases Empties(s), 0, |Children(s)| - i
  {
    if i < |Children(s)| {
      ChildrenEmpties(s);
      var child := Children(s)[i].1;
      var r := PruneHelper(child, Some(nd), alpha, beta, eval);
      var x := MinimaxDepth(child, Some(nd), eval);
      PruneWindow(child, Some(nd), alpha, beta, eval);
      MinStep(v, r, x, alpha, beta);
      var v' := Min(v, r);
      var beta' := Min(v', beta);
      var rest := DepthValues(s, nd, eval)[i + 1..];
      FoldMinSlice(DepthValues(s, nd, eval), i, beta);
      var f := FoldMin(rest, Min(beta, x));
      if Le(beta', alpha) {
        assert Clamp(f, alpha, beta) == alpha;
      } else {
        PruneMinWindow(s, nd, eval, i + 1, v', alpha, beta');
        var p := PruneMin(s, nd, eval, i + 1, v', alpha, beta');
        ClampLower(p, alpha, beta', beta);
        ClampLower(f, alpha, beta', beta);
      }
    }
  }

  /** The window property of fail-hard alpha-beta: for any window
      `alpha < beta`, the pruned value and the depth-limited minimax value are
      the same once forced into `[alpha, beta]`. */
  lemma {:induction false} PruneWindow(s: State, depth: Option<int>, alpha: Ext, beta: Ext, eval: State -> int)
    requires WellFormed(s) && Lt(alpha, beta)
    ensures Clamp(PruneHelper(s, depth, alpha, beta, eval), alpha, beta) ==
      Clamp(MinimaxDepth(s, depth, eval), alpha, beta)
    decreases Empties(s), 1, 0
  {
    var d := DepthOf(depth);
    if Empties(s) != 0 && d != 0 {
      var xs := DepthValues(s, NextDepth(d), eval);
      assert xs[0..] == xs;
      if NextPlayer(s) == 1 {
        PruneMaxWindow(s, NextDepth(d), eval, 0, NegInf, alpha, beta);
        FoldMaxStart(xs, alpha, NegInf);
        assert Max(alpha, NegInf) == alpha;
      } else {
        PruneMinWindow(s, NextDepth(d), eval, 0, PosInf, alpha, beta);
        FoldMinStart(xs, beta, PosInf);
        assert Min(beta, PosInf) == beta;
      }
    }
  }

  /** The promise of `minimax_prune`: from the window `(-inf, +inf)`,
      alpha-beta returns exactly the depth-limited minimax value, for every
      depth and every evaluator. */
  lemma {:induction false} PruneIsMinimaxDepth(s: State, depth: Option<int>, eval: State -> int)
    requires WellFormed(s)
    ensures MinimaxPrune(s, depth, eval) == MinimaxDepth(s, depth, eval)
  {
    PruneWindow(s, depth, NegInf, PosInf, eval);
  }

  /** Without a depth, `PruneAgent` computes the exact minimax value. */
  lemma {:induction false} PruneNoDepthIsExact(s: State, eval: State -> int)
    requires WellFormed(s)
    ensures MinimaxPrune(s, None, eval) == Minimax(s)
  {
    PruneIsMinimaxDepth(s, None, eval);
    NoDepthIsExact(s, eval);
  }

  // ---------------------------------------------------------------------------
  // Work: GameState.state_count

  /** How many states `create_successor` makes during `minimax_depth(s,
      depth)`: every expanded node builds all its successors, and each of them
      is searched. */
  function DepthCount(s: State, depth: Option<int>): nat
    requires WellFormed(s)
    decreases Empties(s), 1, 0
  {
    var d := DepthOf(depth);
    if Empties(s) == 0 || d == 0 then 0
    else |Children(s)| + DepthCountFrom(s, NextDepth(d), 0)
  }

  /** The states made while searching the successors from the `i`-th on. */
  function DepthCountFrom(s: State, nd: int, i: nat): nat
    requires WellFormed(s) && i <= |Children(s)|
    decreases Empties(s), 0, |Children(s)| - i
  {
    if i == |Children(s)| then 0
    else
      ChildrenEmpties(s);
      DepthCount(Children(s)[i].1, Some(nd)) + DepthCountFrom(s, nd, i + 1)
  }

  /** How many states `minimax_prune_helper(s, depth, alpha, beta)` makes:
      an expanded node still builds all its successors, but searches them
      only up to the `break`. */
  function PruneCount(s: State, depth: Option<int>, alpha: Ext, beta: Ext, eval: State -> int): nat
    requires WellFormed(s)
    decreases Empties(s), 1, 0
  {
    var d := DepthOf(depth);
    if Empties(s) == 0 || d == 0 then 0
    else if NextPlayer(s) == 1 then |Children(s)| + PruneMaxCount(s, NextDepth(d), eval, 0, NegInf, alpha, beta)
    else |Children(s)| + PruneMinCount(s, NextDepth(d), eval, 0, PosInf, alpha, beta)
  }

  /** The states made by the Player 1 loop of PruneMax from the `i`-th successor on. */
  function PruneMaxCount(s: State, nd: int, eval: State -> int, i: nat, v: Ext, alpha: Ext, beta: Ext): nat
    requires WellFormed(s) && i <= |Children(s)|
    decreases Empties(s), 0, |Children(s)| - i
  {
    if i == |Children(s)| then 0
    else
      ChildrenEmpties(s);
      var child := Children(s)[i].1;
      var v' := Max(v, PruneHelper(child, Some(nd), alpha, beta, eval));
      var alpha' := Max(v', alpha);
      PruneCount(child, Some(nd), alpha, beta, eval) +
        (if Le(beta, alpha') then 0 else PruneMaxCount(s, nd, eval, i + 1, v', alpha', beta))
  }

  /** The states made by the Player 2 loop of PruneMin from the `i`-th successor on. */
  function PruneMinCount(s: State, nd: int, eval: State -> int, i: nat, v: Ext, alpha: Ext, beta: Ext): nat
    requires WellFormed(s) && i <= |Children(s)|
    decreases Empties(s), 0, |Children(s)| - i
  {
    if i == |Children(s)| then 0
    else
      ChildrenEmpties(s);
      var child := Children(s)[i].1;
      var v' := Min(v, PruneHelper(child, Some(nd), alpha, beta, eval));
      var beta' := Min(v', beta);
      PruneCount(child, Some(nd), alpha, beta, eval) +
        (if Le(beta', alpha) then 0 else PruneMinCount(s, nd, eval, i + 1, v', alpha, beta'))
  }

  /** Alpha-beta never makes more states than depth-limited minimax with the
      same depth, whatever the window and the evaluator. */
  lemma {:induction false} PruneFewer(s: State, depth: Option<int>, alpha: Ext, beta: Ext, eval: State -> int)
    requires WellFormed(s)
    ensures PruneCount(s, depth, alpha, beta, eval) <= DepthCount(s, depth)
    decreases Empties(s), 1, 0
  {
    var d := DepthOf(depth);
    if Empties(s) != 0 && d != 0 {
      if NextPlayer(s) == 1 {
        PruneMaxFewer(s, NextDepth(d), eval, 0, NegInf, alpha, beta);
      } else {
        PruneMinFewer(s, NextDepth(d), eval, 0, PosInf, alpha, beta);
      }
    }
  }

  lemma {:induction false} PruneMaxFewer(s: State, nd: int, eval: State -> int, i: nat, v: Ext, alpha: Ext, beta: Ext)
    requires WellFormed(s) && i <= |Children(s)|
    ensures PruneMaxCount(s, nd, eval, i, v, alpha, beta) <= DepthCountFrom(s, nd, i)
    decreases Empties(s), 0, |Children(s)| - i
  {
    if i < |Children(s)| {
      ChildrenEmpties(s);
      var child := Children(s)[i].1;
      PruneFewer(child, Some(nd), alpha, beta, eval);
      var v' := Max(v, PruneHelper(child, Some(nd), alpha, beta, eval));
      PruneMaxFewer(s, nd, eval, i + 1, v', Max(v', alpha), beta);
    }
  }

  lemma {:induction false} PruneMinFewer(s: State, nd: int, eval: State -> int, i: nat, v: Ext, alpha: Ext, beta: Ext)
    requires WellFormed(s) && i <= |Children(s)|
    ensures PruneMinCount(s, nd, eval, i, v, alpha, beta) <= DepthCountFrom(s, nd, i)
    decreases Empties(s), 0, |Children(s)| - i
  {
    if i < |Children(s)| {
      ChildrenEmpties(s);
      var child := Children(s)[i].1;
      PruneFewer(child, Some(nd), alpha, beta, eval);
      var v' := Min(v, PruneHelper(child, Some(nd), alpha, beta, eval));
      PruneMinFewer(s, nd, eval, i + 1, v', alpha, Min(v', beta));
    }
  }

  // ---------------------------------------------------------------------------
  // The root: MinimaxAgent.get_move

  /** The three searching agents; `get_move` is shared, and `self.minimax`
      resolves to `minimax`, `minimax_depth` or `minimax_prune`. */
  datatype Agent = Exact | Heuristic(eval: State -> int) | Pruning(eval: State -> int)

  /** `self.minimax(state, depth)` for each agent. */
  function Value(agent: Agent, s: State, depth: Option<int>): Ext
    requires WellFormed(s)
  {
    match agent
    case Exact => Minimax(s)
    case Heuristic(eval) => MinimaxDepth(s, depth, eval)
    case Pruning(eval) => MinimaxPrune(s, depth, eval)
  }

  /** The values `get_move` computes for the successors; each is searched
      with the depth `get_move` was given. */
  function Utils(agent: Agent, s: State, depth: Option<int>): (us: seq<Ext>)
    requires WellFormed(s)
    ensures |us| == |Children(s)|
  {
    var cs := Children(s);
    seq(|cs|, j requires 0 <= j < |cs| => Value(agent, cs[j].1, depth))
  }

  /** The strict comparison of `get_move`: `util > best_util` for Player 1,
      `util < best_util` for Player 2. */
  predicate Better(p: int, x: Ext, y: Ext) {
    if p == 1 then Lt(y, x) else Lt(x, y)
  }

  /** `best_util`'s start value: `-inf` for Player 1, `+inf` for Player 2. */
  function Start(p: int): Ext {
    if p == 1 then NegInf else PosInf
  }

  /** The best of a list of values for player `p`, starting from Start(p). */
  function Best(p: int, us: seq<Ext>): Ext {
    if p == 1 then FoldMax(us, NegInf) else FoldMin(us, PosInf)
  }

  /** Index `k` is what `get_move` picks from the values `us`: its value
      beats the start value, no value beats it, and it beats every value
      before it, so it is the first best value in column order. */
  predicate FirstBest(p: int, us: seq<Ext>, k: int) {
    0 <= k < |us| && us[k] == Best(p, us) && Better(p, us[k], Start(p)) &&
    (forall j :: 0 <= j < |us| ==> !Better(p, us[j], us[k])) &&
    (forall j :: 0 <= j < k ==> Better(p, us[k], us[j]))
  }

  /** The loop variables of `get_move` once it has seen the values `us`:
      `best_util` is the best of them, a move has been kept exactly when that
      beats the start value, and the kept index `k` holds it and beats every
      value before it. */
  predicate Chosen(p: int, us: seq<Ext>, best: Ext, found: bool, k: nat) {
    best == Best(p, us) && (found <==> best != Start(p)) &&
    (found ==> k < |us| && us[k] == best && forall j :: 0 <= j < k ==> Better(p, best, us[j]))
  }

  /** One iteration of the loop keeps Chosen: a strictly better value is
      kept with its index, any other value leaves the choice as it was. */
  lemma {:induction false} ChosenStep(p: int, us: seq<Ext>, u: Ext, best: Ext, found: bool, k: nat)
    requires p == 1 || p == -1
    requires Chosen(p, us, best, found, k)
    ensures Better(p, u, best) ==> Chosen(p, us + [u], u, true, |us|)
    ensures !Better(p, u, best) ==> Chosen(p, us + [u], best, found, k)
  {
    FoldMaxSnoc(us, u, NegInf);
    FoldMinSnoc(us, u, PosInf);
    var vs := us + [u];
    if Better(p, u, best) {
      forall j | 0 <= j < |us| ensures Better(p, u, vs[j]) {
        assert vs[j] == us[j];
      }
    } else if found {
      forall j | 0 <= j < k ensures Better(p, best, vs[j]) {
        assert vs[j] == us[j];
      }
    }
  }

  /** When the loop is over, the kept index is the first best value, and
      nothing was kept exactly when no value beats the start value. */
  lemma {:induction false} ChosenEnd(p: int, us: seq<Ext>, best: Ext, found: bool, k: nat)
    requires p == 1 || p == -1
    requires Chosen(p, us, best, found, k)
    ensures !found <==> forall j :: 0 <= j < |us| ==> !Better(p, us[j], Start(p))
    ensures found ==> FirstBest(p, us, k)
  {
  }

  /** `get_move`: scan the successors in order and keep the first one whose
      value strictly improves on the best so far.  With no successor, or none
      better than the start value, it returns `(None, None)`; otherwise it
      returns the first successor in column order whose value is best for the
      mover. */
  method GetMove(agent: Agent, s: State, depth: Option<int>) returns (move: Option<nat>, next: Option<State>)
    requires WellFormed(s)
    ensures move.None? <==> next.None?
    ensures move.None? <==> forall j :: 0 <= j < |Children(s)| ==>
      !Better(NextPlayer(s), Utils(agent, s, depth)[j], Start(NextPlayer(s)))
    ensures move.Some? ==>
      exists k :: 0 <= k < |Children(s)| && Children(s)[k] == (move.value, next.value) &&
        FirstBest(NextPlayer(s), Utils(agent, s, depth), k)
  {
    var nextp := NextPlayer(s);
    var bestUtil := if nextp == 1 then NegInf else PosInf;
    move, next := None, None;
    ghost var us: seq<Ext> := [];
    ghost var k := 0;
    var moveStates := Successors(s);
    for i := 0 to |moveStates|
      invariant |us| == i
      invariant forall j {:trigger Value(agent, moveStates[j].1, depth)} :: 0 <= j < i ==>
        us[j] == Value(agent, moveStates[j].1, depth)
      invariant Chosen(nextp, us, bestUtil, move.Some?, k)
      invariant move.None? <==> next.None?
      invariant move.Some? ==> k < |moveStates| && moveStates[k] == (move.value, next.value)
    {
      var (m, child) := moveStates[i];
      var util := Value(agent, child, depth);
      ChosenStep(nextp, us, util, bestUtil, move.Some?, k);
      if Better(nextp, util, bestUtil) {
        bestUtil, move, next := util, Some(m), Some(child);
        k := i;
      }
      us := us + [util];
    }
    ChosenEnd(nextp, us, bestUtil, move.Some?, k);
    assert us == Utils(agent, s, depth);
  }

  /** The depth at which searching the root itself gives what `get_move`
      computes from the successors: one more ply when the depth is counted
      down, the same when it is not. */
  function Deeper(depth: Option<int>): Option<int> {
    if depth.Some? && depth.value >= 0 then Some(depth.value + 1) else depth
  }

  /** A search ignores how its depth is written: `None` and `Some(-1)`. */
  lemma {:induction false} DepthAsWritten(s: State, depth: Option<int>, eval: State -> int)
    requires WellFormed(s)
    ensures MinimaxDepth(s, depth, eval) == MinimaxDepth(s, Some(DepthOf(depth)), eval)
  {
  }

  /** The best value `get_move` sees at a non-full root is the agent's own
      value of the root searched one ply deeper, so the move it picks is a
      minimax-optimal one: for `MinimaxAgent` the exact value, for the other
      two the depth-limited value with the root's ply added. */
  lemma {:induction false} RootValue(agent: Agent, s: State, depth: Option<int>)
    requires WellFormed(s) && !Full(s)
    ensures Best(NextPlayer(s), Utils(agent, s, depth)) == Value(agent, s, Deeper(depth))
  {
    FullIffNoEmpties(s);
    var us := Utils(agent, s, depth);
    assert NextDepth(DepthOf(Deeper(depth))) == DepthOf(depth);
    match agent
    case Exact =>
      assert us == MinimaxValues(s);
    case Heuristic(eval) =>
      forall j | 0 <= j < |us| ensures us[j] == DepthValues(s, DepthOf(depth), eval)[j] {
        DepthAsWritten(Children(s)[j].1, depth, eval);
      }
      assert us == DepthValues(s, DepthOf(depth), eval);
    case Pruning(eval) =>
      forall j | 0 <= j < |us| ensures us[j] == DepthValues(s, DepthOf(depth), eval)[j] {
        PruneIsMinimaxDepth(Children(s)[j].1, depth, eval);
        DepthAsWritten(Children(s)[j].1, depth, eval);
      }
      assert us == DepthValues(s, DepthOf(depth), eval);
      PruneIsMinimaxDepth(s, Deeper(depth), eval);
  }
}
