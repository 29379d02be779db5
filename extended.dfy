/** Python's `None` for optional values (a search depth, a chosen move, a padding cell). */
module Options {
  datatype Option<T> = None | Some(value: T)
}

/** Extended integers: the values the agents compute.  A search value is an
    integer score, or one of `-math.inf` / `math.inf`, which the agents use as
    the neutral start of a running maximum / minimum and as the initial
    alpha-beta window. */
module Extended {

  datatype Ext = NegInf | Fin(n: int) | PosInf

  /** The order of the extended integers (`<=` on Python numbers). */
  predicate Le(x: Ext, y: Ext) {
    x.NegInf? || y.PosInf? || (x.Fin? && y.Fin? && x.n <= y.n)
  }

  predicate Lt(x: Ext, y: Ext) {
    Le(x, y) && x != y
  }

  /** Python's `max(x, y)`. */
  function Max(x: Ext, y: Ext): (m: Ext)
    ensures Le(x, m) && Le(y, m)
    ensures m == x || m == y
  {
    if Le(x, y) then y else x
  }

  /** Python's `min(x, y)`. */
  function Min(x: Ext, y: Ext): (m: Ext)
    ensures Le(m, x) && Le(m, y)
    ensures m == x || m == y
  {
    if Le(x, y) then x else y
  }

  /** `x` forced into the window `[lo, hi]`. */
  function Clamp(x: Ext, lo: Ext, hi: Ext): (c: Ext)
    requires Le(lo, hi)
    ensures Le(lo, c) && Le(c, hi)
    ensures Le(lo, x) && Le(x, hi) ==> c == x
    ensures Le(x, lo) ==> c == lo
    ensures Le(hi, x) ==> c == hi
  {
    Max(lo, Min(x, hi))
  }

  /** The running maximum of a loop `v = max(v, x)` over `xs`, started at `v`. */
  function FoldMax(xs: seq<Ext>, v: Ext): (m: Ext)
    ensures Le(v, m)
    ensures forall i :: 0 <= i < |xs| ==> Le(xs[i], m)
    ensures m == v || exists i :: 0 <= i < |xs| && m == xs[i]
  {
    if |xs| == 0 then v else FoldMax(xs[1..], Max(v, xs[0]))
  }

  /** The running minimum of a loop `v = min(v, x)` over `xs`, started at `v`. */
  function FoldMin(xs: seq<Ext>, v: Ext): (m: Ext)
    ensures Le(m, v)
    ensures forall i :: 0 <= i < |xs| ==> Le(m, xs[i])
    ensures m == v || exists i :: 0 <= i < |xs| && m == xs[i]
  {
    if |xs| == 0 then v else FoldMin(xs[1..], Min(v, xs[0]))
  }

  /** Starting the running maximum higher only raises the result: the loop's
      start value can be taken out of the fold. */
  lemma {:induction false} FoldMaxStart(xs: seq<Ext>, x: Ext, y: Ext)
    ensures FoldMax(xs, Max(x, y)) == Max(x, FoldMax(xs, y))
  {
    if |xs| > 0 {
      assert Max(Max(x, y), xs[0]) == Max(x, Max(y, xs[0]));
      FoldMaxStart(xs[1..], x, Max(y, xs[0]));
    }
  }

  /** The mirror image of FoldMaxStart for the running minimum. */
  lemma {:induction false} FoldMinStart(xs: seq<Ext>, x: Ext, y: Ext)
    ensures FoldMin(xs, Min(x, y)) == Min(x, FoldMin(xs, y))
  {
    if |xs| > 0 {
      assert Min(Min(x, y), xs[0]) == Min(x, Min(y, xs[0]));
      FoldMinStart(xs[1..], x, Min(y, xs[0]));
    }
  }

  /** One more step of the running maximum. */
  lemma {:induction false} FoldMaxSnoc(xs: seq<Ext>, x: Ext, v: Ext)
    ensures FoldMax(xs + [x], v) == Max(FoldMax(xs, v), x)
  {
    if |xs| > 0 {
      assert (xs + [x])[1..] == xs[1..] + [x];
      FoldMaxSnoc(xs[1..], x, Max(v, xs[0]));
    }
  }

  /** One more step of the running minimum. */
  lemma {:induction false} FoldMinSnoc(xs: seq<Ext>, x: Ext, v: Ext)
    ensures FoldMin(xs + [x], v) == Min(FoldMin(xs, v), x)
  {
    if |xs| > 0 {
      assert (xs + [x])[1..] == xs[1..] + [x];
      FoldMinSnoc(xs[1..], x, Min(v, xs[0]));
    }
  }

  /** The running maximum over a suffix, one element at a time. */
  lemma {:induction false} FoldMaxSlice(xs: seq<Ext>, i: nat, v: Ext)
    requires i < |xs|
    ensures FoldMax(xs[i..], v) == FoldMax(xs[i + 1..], Max(v, xs[i]))
  {
    assert xs[i..][1..] == xs[i + 1..];
  }

  /** The running minimum over a suffix, one element at a time. */
  lemma {:induction false} FoldMinSlice(xs: seq<Ext>, i: nat, v: Ext)
    requires i < |xs|
    ensures FoldMin(xs[i..], v) == FoldMin(xs[i + 1..], Min(v, xs[i]))
  {
    assert xs[i..][1..] == xs[i + 1..];
  }
}
