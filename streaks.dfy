/** The run-length function `streaks` of connect383.py: the maximal runs of
    equal elements of a line of cells, as `(element, length)` pairs. */
module Streaks {
  import opened Grid

  /** One `(elt, length)` pair. */
  datatype Run = Run(elt: int, len: nat)

  /** `k` copies of `e`. */
  function Repeat(e: int, k: nat): (s: seq<int>)
    ensures |s| == k
    ensures forall i :: 0 <= i < k ==> s[i] == e
  {
    if k == 0 then [] else Repeat(e, k - 1) + [e]
  }

  /** The line a run list stands for: `len` copies of each `elt`, in order. */
  function Expand(rs: seq<Run>): seq<int>
  {
    if |rs| == 0 then [] else Expand(rs[..|rs| - 1]) + Repeat(rs[|rs| - 1].elt, rs[|rs| - 1].len)
  }

  /** The sum of the lengths. */
  function TotalLength(rs: seq<Run>): nat
  {
    if |rs| == 0 then 0 else TotalLength(rs[..|rs| - 1]) + rs[|rs| - 1].len
  }

  /** A run list in normal form: no run is empty and no two neighbours share
      their element, so every run is maximal. */
  ghost predicate Canonical(rs: seq<Run>) {
    (forall i :: 0 <= i < |rs| ==> rs[i].len >= 1) &&
    (forall i, j :: 0 <= i < j < |rs| && j == i + 1 ==> rs[i].elt != rs[j].elt)
  }

  /** The state of the scan of `streaks` once it has read `lst[..n]`: the
      runs already appended to `rets`, and the open run `(prev, curr_len)`. */
  function Scan(lst: seq<int>, n: nat): (seq<Run>, Run)
    requires 1 <= n <= |lst|
  {
    if n == 1 then ([], Run(lst[0], 1))
    else
      var (done, open) := Scan(lst, n - 1);
      if lst[n - 1] == open.elt then (done, Run(open.elt, open.len + 1))
      else (done + [open], Run(lst[n - 1], 1))
  }

  /** What `streaks(lst)` returns.  The source indexes `lst[0]` and so fails
      on an empty line; every line the board produces is non-empty, and the
      empty line is given the empty run list here. */
  function Runs(lst: seq<int>): seq<Run>
  {
    if |lst| == 0 then [] else var (done, open) := Scan(lst, |lst|); done + [open]
  }

  /** `streaks` as written: one left-to-right pass that extends the open run
      or closes it. */
  method ComputeStreaks(lst: seq<int>) returns (rets: seq<Run>)
    requires |lst| > 0
    ensures rets == Runs(lst)
    ensures Expand(rets) == lst && Canonical(rets)
  {
    rets := [];
    var prev := lst[0];
    var currLen: nat := 1;
    for i := 1 to |lst|
      invariant Scan(lst, i) == (rets, Run(prev, currLen))
    {
      var curr := lst[i];
      if curr == prev {
        currLen := currLen + 1;
      } else {
        rets := rets + [Run(prev, currLen)];
        prev := curr;
        currLen := 1;
      }
    }
    rets := rets + [Run(prev, currLen)];
    RunsRoundTrip(lst);
  }

  lemma {:induction false} RepeatSucc(e: int, k: nat)
    ensures Repeat(e, k + 1) == Repeat(e, k) + [e]
  {
  }

  lemma {:induction false} ExpandSnoc(rs: seq<Run>, r: Run)
    ensures Expand(rs + [r]) == Expand(rs) + Repeat(r.elt, r.len)
  {
    assert (rs + [r])[..|rs|] == rs;
  }

  lemma {:induction false} TotalLengthSnoc(rs: seq<Run>, r: Run)
    ensures TotalLength(rs + [r]) == TotalLength(rs) + r.len
  {
    assert (rs + [r])[..|rs|] == rs;
  }

  /** A run with a new element, appended to a canonical list, keeps it canonical. */
  lemma {:induction false} CanonicalSnoc(rs: seq<Run>, r: Run)
    requires Canonical(rs) && r.len >= 1
    requires |rs| > 0 ==> rs[|rs| - 1].elt != r.elt
    ensures Canonical(rs + [r])
  {
    var t := rs + [r];
    assert forall i :: 0 <= i < |rs| ==> t[i] == rs[i];
  }

  /** Lengthening the last run keeps a list canonical. */
  lemma {:induction false} CanonicalGrowLast(d: seq<Run>, o: Run, o': Run)
    requires Canonical(d + [o]) && o'.elt == o.elt && o'.len >= 1
    ensures Canonical(d + [o'])
  {
    var t, t' := d + [o], d + [o'];
    assert forall i :: 0 <= i < |d| ==> t[i] == t'[i];
    assert t[|d|].elt == t'[|d|].elt;
  }

  /** The scan state is an exact, canonical encoding of what it has read, and
      the open run holds the last cell read. */
  ghost predicate Encodes(lst: seq<int>, n: nat)
    requires 1 <= n <= |lst|
  {
    Expand(Scan(lst, n).0 + [Scan(lst, n).1]) == lst[..n] &&
    Canonical(Scan(lst, n).0 + [Scan(lst, n).1]) &&
    Scan(lst, n).1.elt == lst[n - 1]
  }

  lemma {:induction false} EncodesFirst(lst: seq<int>)
    requires 1 <= |lst|
    ensures Encodes(lst, 1)
  {
    var open := Scan(lst, 1).1;
    assert [open] == [] + [open];
    ExpandSnoc([], open);
    assert Repeat(lst[0], 1) == [lst[0]];
    assert lst[..1] == [lst[0]];
  }

  /** A cell equal to the open run's element lengthens it. */
  lemma {:induction false} EncodesSame(lst: seq<int>, n: nat)
    requires 2 <= n <= |lst| && Encodes(lst, n - 1)
    requires lst[n - 1] == Scan(lst, n - 1).1.elt
    ensures Encodes(lst, n)
  {
    var (d, o) := Scan(lst, n - 1);
    var open := Scan(lst, n).1;
    assert Scan(lst, n) == (d, open) && open == Run(o.elt, o.len + 1);
    assert lst[..n] == lst[..n - 1] + [lst[n - 1]];
    ExpandSnoc(d, o);
    ExpandSnoc(d, open);
    RepeatSucc(o.elt, o.len);
    CanonicalGrowLast(d, o, open);
  }

  /** A cell different from the open run's element closes it and opens a new run. */
  lemma {:induction false} EncodesNew(lst: seq<int>, n: nat)
    requires 2 <= n <= |lst| && Encodes(lst, n - 1)
    requires lst[n - 1] != Scan(lst, n - 1).1.elt
    ensures Encodes(lst, n)
  {
    var (d, o) := Scan(lst, n - 1);
    var open := Run(lst[n - 1], 1);
    assert Scan(lst, n) == (d + [o], open);
    assert lst[..n] == lst[..n - 1] + [lst[n - 1]];
    ExpandSnoc(d + [o], open);
    assert Repeat(lst[n - 1], 1) == [lst[n - 1]];
    CanonicalSnoc(d + [o], open);
  }

  /** The scan keeps its state an exact, canonical encoding of what it has read. */
  lemma {:induction false} ScanEncodes(lst: seq<int>, n: nat)
    requires 1 <= n <= |lst|
    ensures Encodes(lst, n)
  {
    if n == 1 {
      EncodesFirst(lst);
    } else {
      ScanEncodes(lst, n - 1);
      if lst[n - 1] == Scan(lst, n - 1).1.elt {
        EncodesSame(lst, n);
      } else {
        EncodesNew(lst, n);
      }
    }
  }

  /** `streaks` round-trips: expanding the run list reproduces the line, and the
      run list is canonical (every length at least 1, neighbours distinct). */
  lemma {:induction false} RunsRoundTrip(lst: seq<int>)
    ensures Expand(Runs(lst)) == lst
    ensures Canonical(Runs(lst))
  {
    if |lst| > 0 {
      ScanEncodes(lst, |lst|);
      assert lst[..|lst|] == lst;
    }
  }

  lemma {:induction false} ExpandLength(rs: seq<Run>)
    ensures |Expand(rs)| == TotalLength(rs)
  {
    if |rs| > 0 {
      ExpandLength(rs[..|rs| - 1]);
    }
  }

  /** The lengths of `streaks(lst)` add up to `len(lst)`, and a non-empty line
      has a non-empty run list. */
  lemma {:induction false} RunsLength(lst: seq<int>)
    ensures TotalLength(Runs(lst)) == |lst|
    ensures |lst| > 0 <==> |Runs(lst)| > 0
  {
    RunsRoundTrip(lst);
    ExpandLength(Runs(lst));
  }

  /** The scan state depends only on what has been read. */
  lemma {:induction false} ScanPrefix(a: seq<int>, b: seq<int>, n: nat)
    requires 1 <= n <= |a| && n <= |b|
    requires a[..n] == b[..n]
    ensures Scan(a, n) == Scan(b, n)
  {
    assert a[n - 1] == a[..n][n - 1] == b[..n][n - 1] == b[n - 1];
    if n > 1 {
      assert a[..n - 1] == a[..n][..n - 1] == b[..n][..n - 1] == b[..n - 1];
      ScanPrefix(a, b, n - 1);
    } else {
      assert a[0] == a[..n][0] == b[..n][0] == b[0];
    }
  }

  /** Reading `j` more copies of the open run's element only lengthens it. */
  lemma {:induction false} ScanRepeat(lst: seq<int>, n: nat, j: nat)
    requires 1 <= n && n + j <= |lst|
    requires forall i :: n <= i < n + j ==> lst[i] == Scan(lst, n).1.elt
    ensures Scan(lst, n + j) == (Scan(lst, n).0, Run(Scan(lst, n).1.elt, Scan(lst, n).1.len + j))
  {
    if j > 0 {
      ScanRepeat(lst, n, j - 1);
    }
  }

  /** Reading a run of `k` copies of a new element `e` closes the open run
      and leaves a run of `e` of length `k` open. */
  lemma {:induction false} ScanNewRun(lst: seq<int>, p: nat, e: int, k: nat)
    requires 1 <= p && 1 <= k && p + k <= |lst|
    requires e != Scan(lst, p).1.elt
    requires forall i :: p <= i < p + k ==> lst[i] == e
    ensures Scan(lst, p + k) == (Scan(lst, p).0 + [Scan(lst, p).1], Run(e, k))
  {
    assert Scan(lst, p + 1) == (Scan(lst, p).0 + [Scan(lst, p).1], Run(e, 1));
    ScanRepeat(lst, p + 1, k - 1);
  }

  /** Appending one more run to the expansion of a run list that `streaks`
      already reproduces appends that run to what `streaks` returns. */
  lemma {:induction false} ExpandRoundTripSnoc(front: seq<Run>, last: Run)
    requires |front| > 0 && Canonical(front + [last])
    requires Runs(Expand(front)) == front
    ensures Runs(Expand(front) + Repeat(last.elt, last.len)) == front + [last]
  {
    var m := |front| - 1;
    var pre := Expand(front);
    var lst := pre + Repeat(last.elt, last.len);
    var p := |pre|;
    assert p > 0;
    assert lst[..p] == pre[..p];
    ScanPrefix(lst, pre, p);
    var (done, open) := Scan(pre, p);
    assert pre[..p] == pre;
    assert done + [open] == front;
    assert open == (done + [open])[m] == front[m];
    assert done == (done + [open])[..m] == front[..m];
    assert (front + [last])[m] == front[m] && (front + [last])[m + 1] == last;
    ScanNewRun(lst, p, last.elt, last.len);
    assert done + [open] + [Run(last.elt, last.len)] == front + [last];
  }

  /** `k` copies of one value are a single run. */
  lemma {:induction false} RunsRepeat(e: int, k: nat)
    requires k >= 1
    ensures Runs(Repeat(e, k)) == [Run(e, k)]
  {
    if k > 1 {
      ScanRepeat(Repeat(e, k), 1, k - 1);
    }
  }

  lemma {:induction false} CanonicalFront(rs: seq<Run>)
    requires |rs| > 0 && Canonical(rs)
    ensures Canonical(rs[..|rs| - 1])
  {
    var f := rs[..|rs| - 1];
    assert forall i :: 0 <= i < |f| ==> f[i] == rs[i];
  }

  /** The other direction of the round trip: a canonical run list is exactly
      what `streaks` returns on its expansion, so the encoding is unique. */
  lemma {:induction false} ExpandRoundTrip(rs: seq<Run>)
    requires Canonical(rs)
    ensures Runs(Expand(rs)) == rs
  {
    if |rs| > 0 {
      var m := |rs| - 1;
      var front, last := rs[..m], rs[m];
      assert rs == front + [last];
      ExpandSnoc(front, last);
      if m == 0 {
        assert Expand(front) == [];
        assert Expand(rs) == Repeat(last.elt, last.len);
        assert rs == [last];
        RunsRepeat(last.elt, last.len);
      } else {
        CanonicalFront(rs);
        ExpandRoundTrip(front);
        ExpandRoundTripSnoc(front, last);
      }
    }
  }

  /** A line holding one value throughout is a single run as long as the line. */
  lemma {:induction false} RunsUniform(lst: seq<int>, e: int)
    requires |lst| > 0 && forall i :: 0 <= i < |lst| ==> lst[i] == e
    ensures Runs(lst) == [Run(e, |lst|)]
  {
    assert lst == Repeat(e, |lst|);
    RunsRepeat(e, |lst|);
  }

  /** The runs with every element negated. */
  function NegRuns(rs: seq<Run>): (n: seq<Run>)
    ensures |n| == |rs| && forall i :: 0 <= i < |rs| ==> n[i] == Run(-rs[i].elt, rs[i].len)
  {
    seq(|rs|, i requires 0 <= i < |rs| => Run(-rs[i].elt, rs[i].len))
  }

  lemma {:induction false} ScanNeg(lst: seq<int>, n: nat)
    requires 1 <= n <= |lst|
    ensures Scan(NegLine(lst), n) ==
      (NegRuns(Scan(lst, n).0), Run(-Scan(lst, n).1.elt, Scan(lst, n).1.len))
  {
    if n > 1 {
      ScanNeg(lst, n - 1);
      var (d, o) := Scan(lst, n - 1);
      if lst[n - 1] != o.elt {
        assert NegRuns(d + [o]) == NegRuns(d) + [Run(-o.elt, o.len)];
      }
    }
  }

  /** Negating a line negates the elements of its runs and keeps their lengths. */
  lemma {:induction false} RunsNeg(lst: seq<int>)
    ensures Runs(NegLine(lst)) == NegRuns(Runs(lst))
  {
    if |lst| > 0 {
      ScanNeg(lst, |lst|);
      var (d, o) := Scan(lst, |lst|);
      assert NegRuns(d + [o]) == NegRuns(d) + [Run(-o.elt, o.len)];
    }
  }
}
