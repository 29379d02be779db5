/** The list-of-lists board of connect383.py as a sequence of rows, and the
    line extraction `GameState` builds on it: `sum(board, [])`, `zip(*board)`
    and the skew-and-zip construction of all diagonals. */
module Grid {
  import opened Options

  /** Every row of `g` holds `cols` cells. */
  predicate Rect<T>(g: seq<seq<T>>, cols: int) {
    forall r :: 0 <= r < |g| ==> |g[r]| == cols
  }

  // ---------------------------------------------------------------------------
  // Flattening, sums and counts

  /** `sum(g, [])`: the rows concatenated. */
  function Flatten(g: seq<seq<int>>): seq<int>
  {
    if |g| == 0 then [] else Flatten(g[..|g| - 1]) + g[|g| - 1]
  }

  /** `sum(xs)`. */
  function Sum(xs: seq<int>): int
  {
    if |xs| == 0 then 0 else Sum(xs[..|xs| - 1]) + xs[|xs| - 1]
  }

  /** The number of zero entries. */
  function Zeros(xs: seq<int>): nat
  {
    if |xs| == 0 then 0 else Zeros(xs[..|xs| - 1]) + (if xs[|xs| - 1] == 0 then 1 else 0)
  }

  lemma {:induction false} FlattenLength(g: seq<seq<int>>, cols: nat)
    requires Rect(g, cols)
    ensures |Flatten(g)| == |g| * cols
  {
    if |g| > 0 {
      FlattenLength(g[..|g| - 1], cols);
    }
  }

  lemma {:induction false} SumUpdate(xs: seq<int>, k: nat, v: int)
    requires k < |xs|
    ensures Sum(xs[k := v]) == Sum(xs) - xs[k] + v
  {
    var n := |xs| - 1;
    if k < n {
      assert xs[k := v][..n] == xs[..n][k := v];
      SumUpdate(xs[..n], k, v);
    } else {
      assert xs[k := v][..n] == xs[..n];
    }
  }

  lemma {:induction false} ZerosUpdate(xs: seq<int>, k: nat, v: int)
    requires k < |xs|
    ensures Zeros(xs[k := v]) == Zeros(xs) - (if xs[k] == 0 then 1 else 0) + (if v == 0 then 1 else 0)
  {
    var n := |xs| - 1;
    if k < n {
      assert xs[k := v][..n] == xs[..n][k := v];
      ZerosUpdate(xs[..n], k, v);
    } else {
      assert xs[k := v][..n] == xs[..n];
    }
  }

  lemma {:induction false} ZerosConcat(a: seq<int>, b: seq<int>)
    ensures Zeros(a + b) == Zeros(a) + Zeros(b)
  {
    if |b| > 0 {
      assert (a + b)[..|a + b| - 1] == a + b[..|b| - 1];
      ZerosConcat(a, b[..|b| - 1]);
    } else {
      assert a + b == a;
    }
  }

  lemma {:induction false} NoZeros(xs: seq<int>)
    ensures Zeros(xs) == 0 <==> forall i :: 0 <= i < |xs| ==> xs[i] != 0
  {
    if |xs| > 0 {
      NoZeros(xs[..|xs| - 1]);
      assert forall i :: 0 <= i < |xs| - 1 ==> xs[..|xs| - 1][i] == xs[i];
    }
  }

  /** The flattened board has no zero exactly when no cell of the board is zero. */
  lemma {:induction false} FlattenNoZeros(g: seq<seq<int>>)
    ensures Zeros(Flatten(g)) == 0 <==>
      forall r, c :: 0 <= r < |g| && 0 <= c < |g[r]| ==> g[r][c] != 0
  {
    if |g| > 0 {
      var n := |g| - 1;
      FlattenNoZeros(g[..n]);
      ZerosConcat(Flatten(g[..n]), g[n]);
      NoZeros(g[n]);
      assert forall r :: 0 <= r < n ==> g[..n][r] == g[r];
    }
  }

  /** Where cell `(r, c)` sits in `sum(g, [])`, and how setting it changes the flat list. */
  lemma {:induction false} FlattenUpdate(g: seq<seq<int>>, r: nat, c: nat, v: int)
    requires r < |g| && c < |g[r]|
    ensures |Flatten(g[..r])| + c < |Flatten(g)|
    ensures Flatten(g)[|Flatten(g[..r])| + c] == g[r][c]
    ensures Flatten(g[r := g[r][c := v]]) == Flatten(g)[|Flatten(g[..r])| + c := v]
  {
    var n := |g| - 1;
    var h := g[r := g[r][c := v]];
    if r == n {
      assert h[..n] == g[..n];
      assert g[..r] == g[..n];
    } else {
      assert h[..n] == g[..n][r := g[..n][r][c := v]];
      assert g[..n][..r] == g[..r];
      FlattenUpdate(g[..n], r, c, v);
    }
  }

  // ---------------------------------------------------------------------------
  // zip(*g)

  /** The length of the shortest row: where `zip` stops. */
  function MinWidth<T>(g: seq<seq<T>>): (w: nat)
    requires |g| > 0
    ensures forall i :: 0 <= i < |g| ==> w <= |g[i]|
    ensures exists i :: 0 <= i < |g| && w == |g[i]|
    ensures Rect(g, |g[0]|) ==> w == |g[0]|
  {
    if |g| == 1 then |g[0]|
    else
      var w := MinWidth(g[1..]);
      assert Rect(g, |g[0]|) ==> Rect(g[1..], |g[1..][0]|);
      if |g[0]| < w then |g[0]| else w
  }

  /** `zip(*g)`: the `k`-th tuple holds the `k`-th cell of every row. */
  function Zip<T>(g: seq<seq<T>>): (z: seq<seq<T>>)
    ensures |g| == 0 ==> z == []
    ensures |g| > 0 ==> |z| == MinWidth(g)
    ensures forall k :: 0 <= k < |z| ==>
      |z[k]| == |g| && forall i {:trigger z[k][i]} :: 0 <= i < |g| ==> k < |g[i]| && z[k][i] == g[i][k]
  {
    if |g| == 0 then []
    else
      var w := MinWidth(g);
      seq(w, k requires 0 <= k < w => seq(|g|, i requires 0 <= i < |g| => g[i][k]))
  }

  /** Indexing into the left part of a concatenation. */
  lemma {:induction false} ConcatLeft<T>(a: seq<T>, b: seq<T>, i: nat)
    requires i < |a|
    ensures (a + b)[i] == a[i]
  {
  }

  /** Indexing into the right part of a concatenation. */
  lemma {:induction false} ConcatRight<T>(a: seq<T>, b: seq<T>, i: nat)
    requires |a| <= i < |a| + |b|
    ensures (a + b)[i] == b[i - |a|]
  {
  }

  /** Position `j` of the right part of a concatenation. */
  lemma {:induction false} ConcatOffset<T>(a: seq<T>, b: seq<T>, j: nat)
    requires j < |b|
    ensures (a + b)[|a| + j] == b[j]
  {
  }

  // ---------------------------------------------------------------------------
  // Skew and zip: all diagonals

  /** `[None] * n`. */
  function Pad(n: nat): (p: seq<Option<int>>)
    ensures |p| == n && forall i :: 0 <= i < n ==> p[i] == None
  {
    seq(n, i => None)
  }

  /** A row of cells as padded-grid entries. */
  function Lift(row: seq<int>): (l: seq<Option<int>>)
    ensures |l| == |row| && forall i {:trigger l[i]} :: 0 <= i < |row| ==> l[i] == Some(row[i])
  {
    seq(|row|, i requires 0 <= i < |row| => Some(row[i]))
  }

  /** `b[i:] + r + b[:i]` for row `i` (with `b = [None] * (len(g) - 1)`): row
      `i` shifted left by `i`, so that zipping lines up the cells with equal
      `c - r`. */
  function SkewForward(g: seq<seq<int>>): seq<seq<Option<int>>>
    requires |g| > 0
  {
    seq(|g|, i requires 0 <= i < |g| => Pad(|g| - 1 - i) + Lift(g[i]) + Pad(i))
  }

  /** `b[:i] + r + b[i:]` for row `i`: zipping lines up the cells with equal `r + c`. */
  function SkewBack(g: seq<seq<int>>): seq<seq<Option<int>>>
    requires |g| > 0
  {
    seq(|g|, i requires 0 <= i < |g| => Pad(i) + Lift(g[i]) + Pad(|g| - 1 - i))
  }

  /** `[c for c in r if c is not None]`. */
  function Somes(s: seq<Option<int>>): seq<int>
  {
    if |s| == 0 then []
    else Somes(s[..|s| - 1]) + (if s[|s| - 1].Some? then [s[|s| - 1].value] else [])
  }

  /** Drop the padding of every zipped tuple. */
  function StripAll(z: seq<seq<Option<int>>>): (d: seq<seq<int>>)
    ensures |d| == |z| && forall k {:trigger d[k]} :: 0 <= k < |z| ==> d[k] == Somes(z[k])
  {
    seq(|z|, k requires 0 <= k < |z| => Somes(z[k]))
  }

  /** The `forwards` half of `get_all_diags`. */
  function Forwards(g: seq<seq<int>>): seq<seq<int>>
    requires |g| > 0
  {
    StripAll(Zip(SkewForward(g)))
  }

  /** The `backs` half of `get_all_diags`. */
  function Backs(g: seq<seq<int>>): seq<seq<int>>
    requires |g| > 0
  {
    StripAll(Zip(SkewBack(g)))
  }

  /** `get_all_diags`: `forwards + backs`. */
  function Diagonals(g: seq<seq<int>>): seq<seq<int>>
    requires |g| > 0
  {
    Forwards(g) + Backs(g)
  }

  // ---------------------------------------------------------------------------
  // Reference definition of the diagonals, by cell coordinates

  function MaxInt(a: int, b: int): int { if a < b then b else a }
  function MinInt(a: int, b: int): int { if a < b then a else b }

  /** The cells with `c - r == d` are the rows `FwdLo(d) <= r < FwdHi(rows, cols, d)`. */
  function FwdLo(d: int): int { MaxInt(0, -d) }
  function FwdHi(rows: int, cols: int, d: int): int { MinInt(rows, cols - d) }
  function FwdLen(rows: int, cols: int, d: int): nat { MaxInt(0, FwdHi(rows, cols, d) - FwdLo(d)) }

  /** The cells with `r + c == s` are the rows `BackLo(cols, s) <= r < BackHi(rows, s)`. */
  function BackLo(cols: int, s: int): int { MaxInt(0, s - cols + 1) }
  function BackHi(rows: int, s: int): int { MinInt(rows, s + 1) }
  function BackLen(rows: int, cols: int, s: int): nat { MaxInt(0, BackHi(rows, s) - BackLo(cols, s)) }

  /** The cells `(r, c)` of the grid with `c - r == d`, by increasing row. */
  function ForwardDiag(g: seq<seq<int>>, cols: int, d: int): (l: seq<int>)
    requires Rect(g, cols)
    ensures |l| == FwdLen(|g|, cols, d)
  {
    var lo := FwdLo(d);
    seq(FwdLen(|g|, cols, d), j requires 0 <= j < FwdLen(|g|, cols, d) => g[lo + j][lo + j + d])
  }

  /** The cells `(r, c)` of the grid with `r + c == s`, by increasing row. */
  function BackDiag(g: seq<seq<int>>, cols: int, s: int): (l: seq<int>)
    requires Rect(g, cols)
    ensures |l| == BackLen(|g|, cols, s)
  {
    var lo := BackLo(cols, s);
    seq(BackLen(|g|, cols, s), j requires 0 <= j < BackLen(|g|, cols, s) => g[lo + j][s - lo - j])
  }

  function Reverse(s: seq<int>): (r: seq<int>)
    ensures |r| == |s| && forall i :: 0 <= i < |s| ==> r[i] == s[|s| - 1 - i]
  {
    seq(|s|, i requires 0 <= i < |s| => s[|s| - 1 - i])
  }

  // ---------------------------------------------------------------------------
  // The construction agrees with the reference

  /** Dropping the padding from a tuple whose real entries form one block. */
  lemma {:induction false} SomesBlock(s: seq<Option<int>>, lo: int, hi: int)
    requires 0 <= lo <= hi <= |s|
    requires forall i :: 0 <= i < |s| ==> (s[i].Some? <==> lo <= i < hi)
    ensures |Somes(s)| == hi - lo
    ensures forall j :: 0 <= j < hi - lo ==> Somes(s)[j] == s[lo + j].value
  {
    if |s| > 0 {
      var n := |s| - 1;
      var t := s[..n];
      if hi == |s| && lo < hi {
        SomesBlock(t, lo, n);
      } else {
        SomesBlock(t, MinInt(lo, n), MinInt(hi, n));
      }
    }
  }

  lemma {:induction false} SkewCell(p: nat, row: seq<int>, q: nat, k: nat)
    requires k < p + |row| + q
    ensures (Pad(p) + Lift(row) + Pad(q))[k] ==
      if p <= k < p + |row| then Some(row[k - p]) else None
  {
    var a, b := Pad(p), Lift(row);
    if k < p {
      assert (a + b + Pad(q))[k] == a[k];
    } else if k < p + |row| {
      assert (a + b + Pad(q))[k] == b[k - p];
    } else {
      assert (a + b + Pad(q))[k] == Pad(q)[k - p - |row|];
    }
  }

  /** Row `i` of the forward skew, padded to `rows - 1 + cols` entries. */
  lemma {:induction false} SkewForwardRows(g: seq<seq<int>>, cols: nat)
    requires |g| > 0 && Rect(g, cols)
    ensures |SkewForward(g)| == |g| && Rect(SkewForward(g), |g| - 1 + cols)
    ensures |Zip(SkewForward(g))| == |g| - 1 + cols
  {
    var sk := SkewForward(g);
    forall i | 0 <= i < |g| ensures |sk[i]| == |g| - 1 + cols {
      assert sk[i] == Pad(|g| - 1 - i) + Lift(g[i]) + Pad(i);
    }
  }

  /** Row `i` of the backward skew, padded to `rows - 1 + cols` entries. */
  lemma {:induction false} SkewBackRows(g: seq<seq<int>>, cols: nat)
    requires |g| > 0 && Rect(g, cols)
    ensures |SkewBack(g)| == |g| && Rect(SkewBack(g), |g| - 1 + cols)
    ensures |Zip(SkewBack(g))| == |g| - 1 + cols
  {
    var sk := SkewBack(g);
    forall i | 0 <= i < |g| ensures |sk[i]| == |g| - 1 + cols {
      assert sk[i] == Pad(i) + Lift(g[i]) + Pad(|g| - 1 - i);
    }
  }

  /** Entry `i` of tuple `k` of the zipped forward skew: row `i` contributes
      its cell in column `i + k - (rows - 1)` when there is one, and padding
      otherwise. */
  lemma {:induction false} ForwardEntry(g: seq<seq<int>>, cols: nat, k: nat, i: nat)
    requires |g| > 0 && Rect(g, cols)
    requires k < |g| + cols - 1 && i < |g|
    ensures |Zip(SkewForward(g))| == |g| + cols - 1
    ensures |Zip(SkewForward(g))[k]| == |g|
    ensures Zip(SkewForward(g))[k][i] ==
      if FwdLo(k - (|g| - 1)) <= i < FwdHi(|g|, cols, k - (|g| - 1))
      then Some(g[i][i + k - (|g| - 1)]) else None
  {
    SkewForwardRows(g, cols);
    SkewCell(|g| - 1 - i, g[i], i, k);
  }

  /** Entry `i` of tuple `k` of the zipped backward skew: row `i` contributes
      its cell in column `k - i` when there is one. */
  lemma {:induction false} BackEntry(g: seq<seq<int>>, cols: nat, k: nat, i: nat)
    requires |g| > 0 && Rect(g, cols)
    requires k < |g| + cols - 1 && i < |g|
    ensures |Zip(SkewBack(g))| == |g| + cols - 1
    ensures |Zip(SkewBack(g))[k]| == |g|
    ensures Zip(SkewBack(g))[k][i] ==
      if BackLo(cols, k) <= i < BackHi(|g|, k) then Some(g[i][k - i]) else None
  {
    SkewBackRows(g, cols);
    SkewCell(i, g[i], |g| - 1 - i, k);
  }

  /** `z` is laid out like the zipped forward skew of `g`: entry `i` of tuple
      `k` is row `i`'s cell in column `i + k - (rows - 1)` when the row has
      one, and padding otherwise. */
  predicate ForwardLayout(z: seq<seq<Option<int>>>, g: seq<seq<int>>, cols: nat) {
    Rect(g, cols) && |z| == |g| + cols - 1 &&
    forall k :: 0 <= k < |z| ==>
      |z[k]| == |g| &&
      forall i :: 0 <= i < |g| ==>
        z[k][i] == if FwdLo(k - (|g| - 1)) <= i < FwdHi(|g|, cols, k - (|g| - 1))
                   then Some(g[i][i + k - (|g| - 1)]) else None
  }

  /** `z` is laid out like the zipped backward skew of `g`: entry `i` of tuple
      `k` is row `i`'s cell in column `k - i` when the row has one. */
  predicate BackLayout(z: seq<seq<Option<int>>>, g: seq<seq<int>>, cols: nat) {
    Rect(g, cols) && |z| == |g| + cols - 1 &&
    forall k :: 0 <= k < |z| ==>
      |z[k]| == |g| &&
      forall i :: 0 <= i < |g| ==>
        z[k][i] == if BackLo(cols, k) <= i < BackHi(|g|, k) then Some(g[i][k - i]) else None
  }

  lemma {:induction false} ForwardLaidOut(g: seq<seq<int>>, cols: nat)
    requires |g| > 0 && Rect(g, cols)
    ensures ForwardLayout(Zip(SkewForward(g)), g, cols)
  {
    SkewForwardRows(g, cols);
    forall k, i | 0 <= k < |g| + cols - 1 && 0 <= i < |g|
      ensures Zip(SkewForward(g))[k][i] ==
        if FwdLo(k - (|g| - 1)) <= i < FwdHi(|g|, cols, k - (|g| - 1))
        then Some(g[i][i + k - (|g| - 1)]) else None
    {
      ForwardEntry(g, cols, k, i);
    }
  }

  lemma {:induction false} BackLaidOut(g: seq<seq<int>>, cols: nat)
    requires |g| > 0 && Rect(g, cols)
    ensures BackLayout(Zip(SkewBack(g)), g, cols)
  {
    SkewBackRows(g, cols);
    forall k, i | 0 <= k < |g| + cols - 1 && 0 <= i < |g|
      ensures Zip(SkewBack(g))[k][i] ==
        if BackLo(cols, k) <= i < BackHi(|g|, k) then Some(g[i][k - i]) else None
    {
      BackEntry(g, cols, k, i);
    }
  }

  /** A tuple whose real entries are one block `[lo, hi)` holding `f` drops its
      padding to exactly `f`. */
  lemma {:induction false} SomesIsBlock(t: seq<Option<int>>, lo: int, hi: int, f: seq<int>)
    requires 0 <= lo <= hi <= |t| && |f| == hi - lo
    requires forall i :: 0 <= i < |t| ==> (t[i].Some? <==> lo <= i < hi)
    requires forall j :: 0 <= j < |f| ==> t[lo + j] == Some(f[j])
    ensures Somes(t) == f
  {
    SomesBlock(t, lo, hi);
  }

  /** On a non-empty grid every forward and backward list is non-empty. */
  lemma {:induction false} DiagBounds(rows: nat, cols: nat, k: nat)
    requires rows > 0 && cols > 0 && k < rows + cols - 1
    ensures 0 <= FwdLo(k - (rows - 1)) < FwdHi(rows, cols, k - (rows - 1)) <= rows
    ensures FwdLen(rows, cols, k - (rows - 1)) == FwdHi(rows, cols, k - (rows - 1)) - FwdLo(k - (rows - 1))
    ensures 0 <= BackLo(cols, k) < BackHi(rows, k) <= rows
    ensures BackLen(rows, cols, k) == BackHi(rows, k) - BackLo(cols, k)
  {
  }

  /** Tuple `k` of a forward layout, without its padding, is the forward diagonal. */
  lemma {:induction false} ForwardSomes(z: seq<seq<Option<int>>>, g: seq<seq<int>>, cols: nat, k: nat, d: int)
    requires |g| > 0 && cols > 0 && ForwardLayout(z, g, cols)
    requires k < |z| && d == k - (|g| - 1)
    ensures Somes(z[k]) == ForwardDiag(g, cols, d)
  {
    DiagBounds(|g|, cols, k);
    var t, lo, hi, f := z[k], FwdLo(d), FwdHi(|g|, cols, d), ForwardDiag(g, cols, d);
    assert forall j :: 0 <= j < |f| ==> t[lo + j] == Some(f[j]);
    SomesIsBlock(t, lo, hi, f);
  }

  /** Tuple `k` of a backward layout, without its padding, is the backward diagonal. */
  lemma {:induction false} BackSomes(z: seq<seq<Option<int>>>, g: seq<seq<int>>, cols: nat, k: nat)
    requires |g| > 0 && cols > 0 && BackLayout(z, g, cols)
    requires k < |z|
    ensures Somes(z[k]) == BackDiag(g, cols, k)
  {
    DiagBounds(|g|, cols, k);
    var t, lo, hi, f := z[k], BackLo(cols, k), BackHi(|g|, k), BackDiag(g, cols, k);
    assert forall j :: 0 <= j < |f| ==> t[lo + j] == Some(f[j]);
    SomesIsBlock(t, lo, hi, f);
  }

  /** Forward list `k` of `get_all_diags` holds the cells with `c - r == k - (rows - 1)`. */
  lemma {:induction false} ForwardAt(g: seq<seq<int>>, cols: nat, k: nat)
    requires |g| > 0 && cols > 0 && Rect(g, cols)
    requires k < |g| + cols - 1
    ensures |Forwards(g)| == |g| + cols - 1
    ensures Forwards(g)[k] == ForwardDiag(g, cols, k - (|g| - 1))
  {
    var z := Zip(SkewForward(g));
    ForwardLaidOut(g, cols);
    ForwardSomes(z, g, cols, k, k - (|g| - 1));
    assert Forwards(g) == StripAll(z);
  }

  /** Backward list `k` of `get_all_diags` holds the cells with `r + c == k`. */
  lemma {:induction false} BackAt(g: seq<seq<int>>, cols: nat, k: nat)
    requires |g| > 0 && cols > 0 && Rect(g, cols)
    requires k < |g| + cols - 1
    ensures |Backs(g)| == |g| + cols - 1
    ensures Backs(g)[k] == BackDiag(g, cols, k)
  {
    var z := Zip(SkewBack(g));
    BackLaidOut(g, cols);
    BackSomes(z, g, cols, k);
    assert Backs(g) == StripAll(z);
  }

  /** List `k` of the first half of `get_all_diags` is forward list `k`. */
  lemma {:induction false} DiagonalsForward(g: seq<seq<int>>, rows: nat, cols: nat, k: nat)
    requires rows == |g| > 0 && cols > 0 && Rect(g, cols) && k < rows + cols - 1
    ensures |Diagonals(g)| == 2 * (rows + cols - 1)
    ensures Diagonals(g)[k] == ForwardDiag(g, cols, k - (rows - 1))
  {
    var fs, bs := Forwards(g), Backs(g);
    assert |bs| == rows + cols - 1 by { BackAt(g, cols, 0); }
    assert |fs| == rows + cols - 1 && fs[k] == ForwardDiag(g, cols, k - (rows - 1)) by {
      ForwardAt(g, cols, k);
    }
    assert Diagonals(g) == fs + bs;
    assert (fs + bs)[k] == fs[k] by { ConcatLeft(fs, bs, k); }
  }

  /** List `rows + cols - 1 + k` of `get_all_diags` is backward list `k`. */
  lemma {:induction false} DiagonalsBack(g: seq<seq<int>>, rows: nat, cols: nat, k: nat)
    requires rows == |g| > 0 && cols > 0 && Rect(g, cols) && k < rows + cols - 1
    ensures |Diagonals(g)| == 2 * (rows + cols - 1)
    ensures Diagonals(g)[rows + cols - 1 + k] == BackDiag(g, cols, k)
  {
    var fs, bs := Forwards(g), Backs(g);
    assert |fs| == rows + cols - 1 by { ForwardAt(g, cols, 0); }
    assert |bs| == rows + cols - 1 && bs[k] == BackDiag(g, cols, k) by {
      BackAt(g, cols, k);
    }
    assert Diagonals(g) == fs + bs;
    ConcatOffset(fs, bs, k);
  }

  /** `get_all_diags` returns the forward lists, then the backward lists. */
  lemma {:induction false} DiagonalsAll(g: seq<seq<int>>, rows: nat, cols: nat)
    requires rows == |g| > 0 && cols > 0 && Rect(g, cols)
    ensures |Diagonals(g)| == 2 * (rows + cols - 1)
    ensures forall k :: 0 <= k < rows + cols - 1 ==>
      Diagonals(g)[k] == ForwardDiag(g, cols, k - (rows - 1))
    ensures forall k :: 0 <= k < rows + cols - 1 ==>
      Diagonals(g)[rows + cols - 1 + k] == BackDiag(g, cols, k)
  {
    DiagonalsForward(g, rows, cols, 0);
    forall k | 0 <= k < rows + cols - 1
      ensures Diagonals(g)[k] == ForwardDiag(g, cols, k - (rows - 1))
    {
      DiagonalsForward(g, rows, cols, k);
    }
    forall k | 0 <= k < rows + cols - 1
      ensures Diagonals(g)[rows + cols - 1 + k] == BackDiag(g, cols, k)
    {
      DiagonalsBack(g, rows, cols, k);
    }
  }

  /** No list of `get_all_diags` is empty. */
  lemma {:induction false} DiagonalsNonEmpty(g: seq<seq<int>>, rows: nat, cols: nat)
    requires rows == |g| > 0 && cols > 0 && Rect(g, cols)
    ensures forall k :: 0 <= k < |Diagonals(g)| ==> |Diagonals(g)[k]| > 0
  {
    var n := rows + cols - 1;
    var fs, bs := Forwards(g), Backs(g);
    assert |fs| == n by { ForwardAt(g, cols, 0); }
    assert |bs| == n by { BackAt(g, cols, 0); }
    forall k | 0 <= k < |Diagonals(g)| ensures |Diagonals(g)[k]| > 0 {
      if k < n {
        ConcatLeft(fs, bs, k);
        assert |fs[k]| > 0 by { ForwardAt(g, cols, k); DiagBounds(rows, cols, k); }
      } else {
        ConcatRight(fs, bs, k);
        assert |bs[k - n]| > 0 by { BackAt(g, cols, k - n); DiagBounds(rows, cols, k - n); }
      }
    }
  }

  /** Negating the cells negates forward list `k`. */
  lemma {:induction false} DiagonalsNegForward(g: seq<seq<int>>, rows: nat, cols: nat, k: nat)
    requires rows == |g| > 0 && cols > 0 && Rect(g, cols) && k < rows + cols - 1
    ensures |Diagonals(NegGrid(g))| == |Diagonals(g)| == 2 * (rows + cols - 1)
    ensures Diagonals(NegGrid(g))[k] == NegLine(Diagonals(g)[k])
  {
    var h := NegGrid(g);
    var d := k - (rows - 1);
    assert Rect(h, cols) && ForwardDiag(h, cols, d) == NegLine(ForwardDiag(g, cols, d)) by {
      NegLines(g, cols, d, 0);
    }
    DiagonalsForward(g, rows, cols, k);
    DiagonalsForward(h, rows, cols, k);
  }

  /** Negating the cells negates backward list `k`. */
  lemma {:induction false} DiagonalsNegBack(g: seq<seq<int>>, rows: nat, cols: nat, k: nat)
    requires rows == |g| > 0 && cols > 0 && Rect(g, cols) && k < rows + cols - 1
    ensures |Diagonals(NegGrid(g))| == |Diagonals(g)| == 2 * (rows + cols - 1)
    ensures Diagonals(NegGrid(g))[rows + cols - 1 + k] == NegLine(Diagonals(g)[rows + cols - 1 + k])
  {
    var h := NegGrid(g);
    assert Rect(h, cols) && BackDiag(h, cols, k) == NegLine(BackDiag(g, cols, k)) by {
      NegLines(g, cols, 0, k);
    }
    DiagonalsBack(g, rows, cols, k);
    DiagonalsBack(h, rows, cols, k);
  }

  /** Negating the cells negates every list of `get_all_diags`. */
  lemma {:induction false} DiagonalsNeg(g: seq<seq<int>>, rows: nat, cols: nat, k: nat)
    requires rows == |g| > 0 && cols > 0 && Rect(g, cols) && k < 2 * (rows + cols - 1)
    ensures |Diagonals(NegGrid(g))| == |Diagonals(g)| == 2 * (rows + cols - 1)
    ensures Diagonals(NegGrid(g))[k] == NegLine(Diagonals(g)[k])
  {
    var n := rows + cols - 1;
    if k < n {
      DiagonalsNegForward(g, rows, cols, k);
    } else {
      var j := k - n;
      DiagonalsNegBack(g, rows, cols, j);
      assert rows + cols - 1 + j == k;
    }
  }

  // ---------------------------------------------------------------------------
  // Every cell lies on exactly one list of each direction

  /** The cell at position `j` of forward list `k`. */
  function FwdPos(rows: int, k: int, j: int): (int, int)
  {
    var d := k - (rows - 1);
    (FwdLo(d) + j, FwdLo(d) + j + d)
  }

  /** The cell at position `j` of backward list `k`. */
  function BackPos(cols: int, k: int, j: int): (int, int)
  {
    (BackLo(cols, k) + j, k - BackLo(cols, k) - j)
  }

  /** The positions of the forward lists cover the grid exactly once: cell
      `(r, c)` is at position `r - FwdLo(c - r)` of list `c - r + rows - 1`,
      and at no other position of any forward list. */
  lemma {:induction false} ForwardCover(rows: nat, cols: nat, r: int, c: int)
    requires 0 <= r < rows && 0 <= c < cols
    ensures var k0, j0 := c - r + rows - 1, r - FwdLo(c - r);
      0 <= k0 < rows + cols - 1 && 0 <= j0 < FwdLen(rows, cols, k0 - (rows - 1)) &&
      FwdPos(rows, k0, j0) == (r, c)
    ensures forall k, j :: 0 <= k < rows + cols - 1 && 0 <= j && FwdPos(rows, k, j) == (r, c) ==>
      k == c - r + rows - 1 && j == r - FwdLo(c - r)
  {
  }

  /** The positions of the backward lists cover the grid exactly once: cell
      `(r, c)` is at position `r - BackLo(cols, r + c)` of list `r + c`, and at
      no other position of any backward list. */
  lemma {:induction false} BackCover(rows: nat, cols: nat, r: int, c: int)
    requires 0 <= r < rows && 0 <= c < cols
    ensures var k0, j0 := r + c, r - BackLo(cols, r + c);
      0 <= k0 < rows + cols - 1 && 0 <= j0 < BackLen(rows, cols, k0) &&
      BackPos(cols, k0, j0) == (r, c)
    ensures forall k, j :: 0 <= k < rows + cols - 1 && 0 <= j && BackPos(cols, k, j) == (r, c) ==>
      k == r + c && j == r - BackLo(cols, r + c)
  {
  }

  /** Position `j` of the forward list for `d` and of the backward list for `s`
      hold the cells `FwdPos` and `BackPos` name. */
  lemma {:induction false} DiagCells(g: seq<seq<int>>, cols: nat, k: nat, j: nat)
    requires |g| > 0 && Rect(g, cols)
    ensures j < FwdLen(|g|, cols, k - (|g| - 1)) ==>
      var (r, c) := FwdPos(|g|, k, j);
      0 <= r < |g| && 0 <= c < cols && ForwardDiag(g, cols, k - (|g| - 1))[j] == g[r][c]
    ensures j < BackLen(|g|, cols, k) ==>
      var (r, c) := BackPos(cols, k, j);
      0 <= r < |g| && 0 <= c < cols && BackDiag(g, cols, k)[j] == g[r][c]
  {
  }

  // ---------------------------------------------------------------------------
  // Negating every cell

  function NegLine(l: seq<int>): (n: seq<int>)
    ensures |n| == |l| && forall i {:trigger n[i]} :: 0 <= i < |l| ==> n[i] == -l[i]
  {
    seq(|l|, i requires 0 <= i < |l| => -l[i])
  }

  function NegGrid(g: seq<seq<int>>): (n: seq<seq<int>>)
    ensures |n| == |g| && forall r {:trigger n[r]} :: 0 <= r < |g| ==> n[r] == NegLine(g[r])
  {
    seq(|g|, r requires 0 <= r < |g| => NegLine(g[r]))
  }

  /** Line extraction commutes with negating the cells. */
  lemma {:induction false} NegLines(g: seq<seq<int>>, cols: nat, d: int, s: int)
    requires Rect(g, cols)
    ensures Rect(NegGrid(g), cols)
    ensures ForwardDiag(NegGrid(g), cols, d) == NegLine(ForwardDiag(g, cols, d))
    ensures BackDiag(NegGrid(g), cols, s) == NegLine(BackDiag(g, cols, s))
  {
  }

  lemma {:induction false} NegZip(g: seq<seq<int>>, cols: nat)
    requires |g| > 0 && Rect(g, cols)
    ensures |Zip(NegGrid(g))| == |Zip(g)| == cols
    ensures forall c :: 0 <= c < cols ==> Zip(NegGrid(g))[c] == NegLine(Zip(g)[c])
  {
    assert Rect(NegGrid(g), cols);
    forall c | 0 <= c < cols ensures Zip(NegGrid(g))[c] == NegLine(Zip(g)[c]) {
    }
  }
}
