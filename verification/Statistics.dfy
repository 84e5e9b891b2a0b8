/**
  compute_stats: interpolated percentiles over sorted durations, rounded to
  thousandths. Durations are exact reals.
 */
module Statistics {
  import opened OptionType
  import opened StableSorting
  import opened Sequences

  // ---- rounding: round(x, 3), halves to even ----

  function RoundHalfEven(x: real): int {
    var f := x.Floor;
    var d := x - f as real;
    if d < 0.5 then f
    else if d > 0.5 then f + 1
    else if f % 2 == 0 then f else f + 1
  }

  function Round3(x: real): real {
    RoundHalfEven(x * 1000.0) as real / 1000.0
  }

  lemma RoundHalfEvenMonotone(x: real, y: real)
    requires x <= y
    ensures RoundHalfEven(x) <= RoundHalfEven(y)
  {
    assert x.Floor <= y.Floor;
    if x.Floor == y.Floor {
      assert x - x.Floor as real <= y - y.Floor as real;
    }
  }

  lemma Round3Monotone(x: real, y: real)
    requires x <= y
    ensures Round3(x) <= Round3(y)
  {
    RoundHalfEvenMonotone(x * 1000.0, y * 1000.0);
  }

  // Rounding is off by at most half a thousandth and leaves thousandths alone.
  lemma Round3Close(x: real)
    ensures -0.0005 <= Round3(x) - x <= 0.0005
    ensures Round3(Round3(x)) == Round3(x)
  {
    var y := x * 1000.0;
    assert -0.5 <= RoundHalfEven(y) as real - y <= 0.5;
    var k := RoundHalfEven(y);
    assert (k as real / 1000.0) * 1000.0 == k as real;
    assert (k as real).Floor == k;
  }

  // Exactly: the nearest integer, and of two the even one.
  lemma RoundHalfEvenExactly(x: real, r: int)
    ensures r == RoundHalfEven(x) <==>
            && -0.5 <= r as real - x <= 0.5
            && (r as real - x == 0.5 || r as real - x == -0.5 ==> r % 2 == 0)
  {
    var f, k := x.Floor, RoundHalfEven(x);
    assert f as real <= x < (f + 1) as real;
    if r != k && -0.5 <= r as real - x <= 0.5 {
      assert r == f || r == f + 1;
    }
  }

  // The nearest thousandth, and of two the even one.
  lemma Round3Exactly(x: real, k: int)
    ensures Round3(x) == k as real / 1000.0 <==>
            && -0.5 <= k as real - 1000.0 * x <= 0.5
            && (k as real - 1000.0 * x == 0.5 || k as real - 1000.0 * x == -0.5 ==> k % 2 == 0)
  {
    RoundHalfEvenExactly(x * 1000.0, k);
  }

  // ---- sorting ----

  predicate AtMost(a: real, b: real) { a <= b }

  ghost predicate Sorted(s: seq<real>) {
    forall i, j :: 0 <= i <= j < |s| ==> s[i] <= s[j]
  }

  // sorted(durations)
  function SortUp(s: seq<real>): (r: seq<real>)
    ensures |r| == |s|
  {
    Sort(AtMost, s)
  }

  lemma SortUpSorted(s: seq<real>)
    ensures Sorted(SortUp(s)) && multiset(SortUp(s)) == multiset(s)
  {
    SortOrdered(AtMost, s);
    SortMembers(AtMost, s);
    OrderedIsSorted(SortUp(s));
  }

  lemma OrderedIsSorted(s: seq<real>)
    requires Ordered(AtMost, s)
    ensures Sorted(s)
  {
    forall i, j | 0 <= i <= j < |s| ensures s[i] <= s[j] {
      assert i < j ==> AtMost(s[i], s[j]);
    }
  }

  lemma SameLeast(a: seq<real>, b: seq<real>)
    requires Sorted(a) && Sorted(b) && multiset(a) == multiset(b) && a != [] && b != []
    ensures a[0] == b[0] && multiset(a[1..]) == multiset(b[1..])
  {
    assert a[0] in multiset(b) && b[0] in multiset(a);
    assert a[0] in b && b[0] in a;
    TailMultiset(a);
    TailMultiset(b);
  }

  lemma TailMultiset(a: seq<real>)
    requires a != []
    ensures multiset(a[1..]) == multiset(a) - multiset{a[0]}
  {
    HeadTail(a);
  }

  // Whatever algorithm sorts, its result is this one.
  lemma {:induction false} SortedUnique(a: seq<real>, b: seq<real>)
    requires Sorted(a) && Sorted(b) && multiset(a) == multiset(b)
    ensures a == b
  {
    assert |a| == |multiset(a)| == |multiset(b)| == |b|;
    if a != [] {
      SameLeast(a, b);
      SortedUnique(a[1..], b[1..]);
      HeadTail(a);
      HeadTail(b);
    }
  }

  lemma SortOrderFree(a: seq<real>, b: seq<real>)
    requires multiset(a) == multiset(b)
    ensures SortUp(a) == SortUp(b)
  {
    SortUpSorted(a);
    SortUpSorted(b);
    SortedUnique(SortUp(a), SortUp(b));
  }

  // ---- sorting preserves domination ----

  // a is pointwise at most b, give or take e.
  ghost predicate Below(a: seq<real>, b: seq<real>, e: real) {
    |a| == |b| && forall i :: 0 <= i < |a| ==> a[i] <= b[i] + e
  }

  lemma {:induction false} InsertHead(s: seq<real>)
    requires Sorted(s) && s != []
    ensures Insert(AtMost, s[0], s[1..]) == s
  {
    HeadTail(s);
    if |s| > 1 && s[1] <= s[0] {
      assert s[0] == s[1];
      assert s[1..][0] == s[1];
      InsertHead(s[1..]);
    }
  }

  lemma {:induction false} InsertBelow(x: real, a: seq<real>, y: real, b: seq<real>, e: real)
    requires x <= y + e && Sorted(a) && Sorted(b) && Below(a, b, e)
    ensures Below(Insert(AtMost, x, a), Insert(AtMost, y, b), e)
    decreases |a|
  {
    if a != [] {
      if a[0] <= x && b[0] <= y {
        InsertBelow(x, a[1..], y, b[1..], e);
      } else if b[0] <= y {
        InsertBelow(a[0], a[1..], y, b[1..], e);
        InsertHead(a);
      } else if a[0] <= x {
        InsertBelow(x, a[1..], b[0], b[1..], e);
        InsertHead(b);
      }
    }
  }

  lemma {:induction false} SortBelow(a: seq<real>, b: seq<real>, e: real)
    requires Below(a, b, e)
    ensures Below(SortUp(a), SortUp(b), e)
    decreases |a|
  {
    if a != [] {
      var n := |a| - 1;
      SortBelow(a[..n], b[..n], e);
      SortUpSorted(a[..n]);
      SortUpSorted(b[..n]);
      InsertBelow(a[n], SortUp(a[..n]), b[n], SortUp(b[..n]), e);
    }
  }

  // ---- percentiles ----

  ghost predicate Percent(p: real) { 0.0 <= p <= 100.0 }

  function Index(n: nat, p: real): real
    requires n > 0
  {
    (p / 100.0) * (n - 1) as real
  }

  lemma MulMonotone(f: real, x: real, y: real)
    requires 0.0 <= f && x <= y
    ensures f * x <= f * y && x * f <= y * f
  {
    MulMinus(f, y, x);
    assert 0.0 <= f * (y - x);
  }

  lemma MulMinus(f: real, x: real, y: real)
    ensures f * (x - y) == f * x - f * y
  {
  }

  lemma IndexBounds(n: nat, p: real)
    requires n > 0 && Percent(p)
    ensures 0.0 <= Index(n, p) <= (n - 1) as real
    ensures 0 <= Index(n, p).Floor <= n - 1
  {
    var q, m := p / 100.0, (n - 1) as real;
    MulMonotone(m, 0.0, q);
    MulMonotone(m, q, 1.0);
  }

  lemma IndexMonotone(n: nat, p: real, q: real)
    requires n > 0 && Percent(p) && Percent(q) && p <= q
    ensures Index(n, p) <= Index(n, q)
  {
    MulMonotone((n - 1) as real, p / 100.0, q / 100.0);
  }

  function Lo(n: nat, p: real): (r: nat)
    requires n > 0 && Percent(p)
    ensures r <= n - 1
  {
    IndexBounds(n, p);
    Index(n, p).Floor
  }

  function Hi(n: nat, p: real): (r: nat)
    requires n > 0 && Percent(p)
    ensures Lo(n, p) <= r <= n - 1
  {
    if Lo(n, p) + 1 <= n - 1 then Lo(n, p) + 1 else n - 1
  }

  // Interpolation in an already sorted list.
  function At(s: seq<real>, p: real): real
    requires s != [] && Percent(p)
  {
    IndexBounds(|s|, p);
    var lo, hi := Lo(|s|, p), Hi(|s|, p);
    s[lo] + (Index(|s|, p) - lo as real) * (s[hi] - s[lo])
  }

  function Percentile(durations: seq<real>, p: real): real
    requires durations != [] && Percent(p)
  {
    At(SortUp(durations), p)
  }

  lemma Interpolate(a: real, b: real, f: real)
    requires a <= b && 0.0 <= f <= 1.0
    ensures a <= a + f * (b - a) <= b
  {
    MulMonotone(b - a, 0.0, f);
    MulMonotone(b - a, f, 1.0);
  }

  lemma AtBetween(s: seq<real>, p: real)
    requires s != [] && Percent(p) && Sorted(s)
    ensures s[Lo(|s|, p)] <= At(s, p) <= s[Hi(|s|, p)]
  {
    IndexBounds(|s|, p);
    var lo, hi := Lo(|s|, p), Hi(|s|, p);
    Interpolate(s[lo], s[hi], Index(|s|, p) - lo as real);
  }

  // Between neighbouring grid points k/(n-1) and (k+1)/(n-1) of the way the
  // percentile runs linearly from the k-th sorted sample to the next; with one
  // sample it is that sample.
  lemma AtInterpolates(s: seq<real>, k: nat, f: real)
    requires k + 1 < |s| && 0.0 <= f <= 1.0
    ensures var p := GridPercent(|s|, k as real + f);
            Percent(p) && At(s, p) == (1.0 - f) * s[k] + f * s[k + 1]
  {
    GridIndex(|s|, k as real + f);
    var p := GridPercent(|s|, k as real + f);
    if f == 1.0 {
      AtIndex(s, p, k + 1, 0.0);
    } else {
      AtIndex(s, p, k, f);
      Convex(s[k], s[k + 1], f);
    }
  }

  // The percentage at position x of n samples.
  function GridPercent(n: nat, x: real): real
    requires n > 1
  {
    x * 100.0 / (n - 1) as real
  }

  lemma GridIndex(n: nat, x: real)
    requires n > 1 && 0.0 <= x <= (n - 1) as real
    ensures Percent(GridPercent(n, x)) && Index(n, GridPercent(n, x)) == x
  {
    var m := (n - 1) as real;
    DivMonotone(0.0, x * 100.0, m);
    DivMonotone(x * 100.0, m * 100.0, m);
    assert m * 100.0 / m == 100.0;
    assert GridPercent(n, x) / 100.0 == x / m;
  }

  lemma AtIndex(s: seq<real>, p: real, k: nat, f: real)
    requires Percent(p) && k < |s| && 0.0 <= f < 1.0 && Index(|s|, p) == k as real + f
    ensures k + 1 < |s| ==> At(s, p) == s[k] + f * (s[k + 1] - s[k])
    ensures f == 0.0 ==> At(s, p) == s[k]
  {
    assert (k as real + f).Floor == k;
    assert Lo(|s|, p) == k;
    assert f == 0.0 ==> f * (s[Hi(|s|, p)] - s[k]) == 0.0;
  }

  lemma Convex(a: real, b: real, f: real)
    ensures a + f * (b - a) == (1.0 - f) * a + f * b
  {
    MulMinus(f, b, a);
    MulMinus(a, 1.0, f);
  }

  lemma AtSingle(x: real, p: real)
    requires Percent(p)
    ensures At([x], p) == x
  {
  }

  lemma InterpolateMonotone(a: real, b: real, f: real, g: real)
    requires a <= b && f <= g
    ensures a + f * (b - a) <= a + g * (b - a)
  {
    MulMonotone(b - a, f, g);
  }

  lemma SameCell(s: seq<real>, p: real, q: real)
    requires s != [] && Percent(p) && Percent(q) && p <= q && Sorted(s)
    requires Lo(|s|, p) == Lo(|s|, q)
    ensures At(s, p) <= At(s, q)
  {
    IndexMonotone(|s|, p, q);
    var lo, hi := Lo(|s|, p), Hi(|s|, p);
    InterpolateMonotone(s[lo], s[hi], Index(|s|, p) - lo as real, Index(|s|, q) - lo as real);
  }

  // Larger percentages never give smaller percentiles.
  lemma AtMonotone(s: seq<real>, p: real, q: real)
    requires s != [] && Percent(p) && Percent(q) && p <= q && Sorted(s)
    ensures At(s, p) <= At(s, q)
  {
    IndexMonotone(|s|, p, q);
    if Lo(|s|, q) == Lo(|s|, p) {
      SameCell(s, p, q);
    } else {
      AtBetween(s, p);
      AtBetween(s, q);
      assert s[Hi(|s|, p)] <= s[Lo(|s|, q)];
    }
  }

  lemma InterpolateBelow(a: real, b: real, c: real, d: real, f: real)
    requires a <= c && b <= d && 0.0 <= f <= 1.0
    ensures a + f * (b - a) <= c + f * (d - c)
  {
    var u, v := c - a, d - b;
    MulMonotone(f, 0.0, v);
    MulMonotone(u, f, 1.0);
    calc {
      (c + f * (d - c)) - (a + f * (b - a));
      u + (f * (d - c) - f * (b - a));
      { MulMinus(f, d - c, b - a); }
      u + f * ((d - c) - (b - a));
      { assert (d - c) - (b - a) == v - u; }
      u + f * (v - u);
      { MulMinus(f, v, u); }
      u + f * v - f * u;
    }
    assert f * u <= u && f * v >= 0.0;
  }

  lemma AtBelow(a: seq<real>, b: seq<real>, e: real, p: real)
    requires a != [] && Percent(p) && Below(a, b, e)
    ensures At(a, p) <= At(b, p) + e
  {
    IndexBounds(|a|, p);
    var lo, hi := Lo(|a|, p), Hi(|a|, p);
    InterpolateBelow(a[lo], a[hi], b[lo] + e, b[hi] + e, Index(|a|, p) - lo as real);
  }

  // If every duration is no larger, every percentile is no larger.
  lemma PercentileDominates(a: seq<real>, b: seq<real>, p: real)
    requires a != [] && |a| == |b| && Percent(p)
    requires forall i :: 0 <= i < |a| ==> a[i] <= b[i]
    ensures Percentile(a, p) <= Percentile(b, p)
  {
    SortBelow(a, b, 0.0);
    AtBelow(SortUp(a), SortUp(b), 0.0, p);
  }

  // Moving each duration by at most e moves every percentile by at most e.
  lemma PercentileStable(a: seq<real>, b: seq<real>, e: real, p: real)
    requires a != [] && |a| == |b| && Percent(p)
    requires forall i :: 0 <= i < |a| ==> -e <= a[i] - b[i] <= e
    ensures -e <= Percentile(a, p) - Percentile(b, p) <= e
  {
    SortBelow(a, b, e);
    SortBelow(b, a, e);
    AtBelow(SortUp(a), SortUp(b), e, p);
    AtBelow(SortUp(b), SortUp(a), e, p);
  }

  // If every duration is smaller by at least d, so is every percentile.
  lemma PercentileApart(a: seq<real>, b: seq<real>, d: real, p: real)
    requires a != [] && |a| == |b| && Percent(p)
    requires forall i :: 0 <= i < |a| ==> a[i] + d <= b[i]
    ensures Percentile(a, p) + d <= Percentile(b, p)
  {
    SortBelow(a, b, -d);
    AtBelow(SortUp(a), SortUp(b), -d, p);
  }

  // Values more than a thousandth apart stay apart when rounded; a thousandth
  // itself is not enough, since halves go to the even neighbour.
  lemma Round3Strict(x: real, y: real)
    requires x + 0.001 < y
    ensures Round3(x) < Round3(y)
  {
    RoundNear(x * 1000.0);
    RoundNear(y * 1000.0);
    assert RoundHalfEven(x * 1000.0) < RoundHalfEven(y * 1000.0);
  }

  lemma RoundNear(x: real)
    ensures -0.5 <= RoundHalfEven(x) as real - x <= 0.5
  {
  }

  lemma Round3StrictIsTight()
    ensures Round3(0.0015) == Round3(0.0025)
  {
    assert (1.5 as real).Floor == 1 && (2.5 as real).Floor == 2;
  }

  // ---- order statistics ----

  function CountAtMost(s: seq<real>, v: real): nat {
    if s == [] then 0 else (if s[0] <= v then 1 else 0) + CountAtMost(s[1..], v)
  }

  function CountAtLeast(s: seq<real>, v: real): nat {
    if s == [] then 0 else (if s[0] >= v then 1 else 0) + CountAtLeast(s[1..], v)
  }

  lemma {:induction false} CountInsert(x: real, s: seq<real>, v: real)
    ensures CountAtMost(Insert(AtMost, x, s), v) == (if x <= v then 1 else 0) + CountAtMost(s, v)
    ensures CountAtLeast(Insert(AtMost, x, s), v) == (if x >= v then 1 else 0) + CountAtLeast(s, v)
  {
    if s != [] && s[0] <= x {
      CountInsert(x, s[1..], v);
      ConsTail(s[0], Insert(AtMost, x, s[1..]));
    } else {
      ConsTail(x, s);
    }
  }

  lemma {:induction false} CountSnoc(s: seq<real>, x: real, v: real)
    ensures CountAtMost(s + [x], v) == CountAtMost(s, v) + if x <= v then 1 else 0
    ensures CountAtLeast(s + [x], v) == CountAtLeast(s, v) + if x >= v then 1 else 0
  {
    if s == [] {
      Units([x]);
      assert [x][1..] == [];
    } else {
      TailOfAppend(s, [x]);
      CountSnoc(s[1..], x, v);
    }
  }

  lemma {:induction false} CountSort(s: seq<real>, v: real)
    ensures CountAtMost(SortUp(s), v) == CountAtMost(s, v)
    ensures CountAtLeast(SortUp(s), v) == CountAtLeast(s, v)
  {
    if s != [] {
      var n := |s| - 1;
      CountSort(s[..n], v);
      CountInsert(s[n], SortUp(s[..n]), v);
      CountSnoc(s[..n], s[n], v);
      PrefixStep(s, n);
      Units(s);
    }
  }

  lemma {:induction false} SortedAtMost(s: seq<real>, k: nat, v: real)
    requires Sorted(s) && k < |s| && s[k] <= v
    ensures CountAtMost(s, v) >= k + 1
  {
    if k > 0 { SortedAtMost(s[1..], k - 1, v); }
  }

  lemma {:induction false} SortedAtLeast(s: seq<real>, k: nat, v: real)
    requires Sorted(s) && k < |s| && s[k] >= v
    ensures CountAtLeast(s, v) >= |s| - k
  {
    if |s| > 1 { SortedAtLeast(s[1..], if k > 0 then k - 1 else 0, v); }
  }

  // The percentile splits the samples: at least lo+1 lie at or below it, at
  // least n-hi at or above.
  lemma PercentileSplits(durations: seq<real>, p: real)
    requires durations != [] && Percent(p)
    ensures var n, v := |durations|, Percentile(durations, p);
            && CountAtMost(durations, v) >= Lo(n, p) + 1
            && CountAtLeast(durations, v) >= n - Hi(n, p)
  {
    var s, v := SortUp(durations), Percentile(durations, p);
    SortUpSorted(durations);
    AtBetween(s, p);
    IndexBounds(|s|, p);
    SortedAtMost(s, Lo(|s|, p), v);
    SortedAtLeast(s, Hi(|s|, p), v);
    CountSort(durations, v);
  }

  // ---- compute_stats ----

  datatype Stats = Stats(count: nat, mean: real, p50: real, p95: real, p99: real, min: real, max: real)

  function Sum(s: seq<real>): real {
    if s == [] then 0.0 else Sum(s[..|s| - 1]) + s[|s| - 1]
  }

  function Mean(s: seq<real>): real
    requires s != []
  {
    Sum(s) / |s| as real
  }

  function ComputeStats(durations: seq<real>): Option<Stats> {
    if durations == [] then None
    else
      var s := SortUp(durations);
      Some(Stats(|s|, Round3(Mean(durations)), Round3(At(s, 50.0)), Round3(At(s, 95.0)), Round3(At(s, 99.0)),
                 Round3(s[0]), Round3(s[|s| - 1])))
  }

  lemma SumSnoc(s: seq<real>, x: real)
    ensures Sum(s + [x]) == Sum(s) + x
  {
    Snoc(s, x);
  }

  lemma {:induction false} SumCons(x: real, s: seq<real>)
    ensures Sum([x] + s) == x + Sum(s)
  {
    if s == [] {
      Units([x]);
      assert [x][..0] == [];
    } else {
      FrontOfAppend([x], s);
      SumCons(x, s[..|s| - 1]);
    }
  }

  lemma SumSingle(x: real)
    ensures Sum([x]) == x
  {
    assert [x][..0] == [];
  }

  lemma {:induction false} SumAppend(a: seq<real>, b: seq<real>)
    ensures Sum(a + b) == Sum(a) + Sum(b)
  {
    if b == [] {
      Units(a);
    } else {
      FrontOfAppend(a, b);
      SumAppend(a, b[..|b| - 1]);
    }
  }

  lemma {:induction false} SumInsert(x: real, s: seq<real>)
    ensures Sum(Insert(AtMost, x, s)) == x + Sum(s)
  {
    if s != [] && s[0] <= x {
      SumInsert(x, s[1..]);
      SumCons(s[0], Insert(AtMost, x, s[1..]));
      SumCons(s[0], s[1..]);
      HeadTail(s);
    } else {
      SumCons(x, s);
    }
  }

  lemma {:induction false} SumSort(s: seq<real>)
    ensures Sum(SortUp(s)) == Sum(s)
  {
    if s != [] {
      SumSort(s[..|s| - 1]);
      SumInsert(s[|s| - 1], SortUp(s[..|s| - 1]));
    }
  }

  lemma {:induction false} SumBelow(a: seq<real>, b: seq<real>)
    requires Below(a, b, 0.0)
    ensures Sum(a) <= Sum(b)
  {
    if a != [] { SumBelow(a[..|a| - 1], b[..|b| - 1]); }
  }

  lemma OneMore(n: nat, x: real)
    ensures (n + 1) as real * x == n as real * x + x
  {
  }

  lemma {:induction false} SumBounds(s: seq<real>, lo: real, hi: real)
    requires forall i :: 0 <= i < |s| ==> lo <= s[i] <= hi
    ensures |s| as real * lo <= Sum(s) <= |s| as real * hi
  {
    if s != [] {
      SumBounds(s[..|s| - 1], lo, hi);
      OneMore(|s| - 1, lo);
      OneMore(|s| - 1, hi);
    }
  }

  lemma DivMonotone(x: real, y: real, n: real)
    requires x <= y && n > 0.0
    ensures x / n <= y / n
  {
    MulMonotone(1.0 / n, x, y);
    assert x / n == x * (1.0 / n) && y / n == y * (1.0 / n);
  }

  lemma MeanBounds(s: seq<real>, lo: real, hi: real)
    requires s != [] && forall i :: 0 <= i < |s| ==> lo <= s[i] <= hi
    ensures lo <= Mean(s) <= hi
  {
    SumBounds(s, lo, hi);
    var n := |s| as real;
    DivMonotone(n * lo, Sum(s), n);
    DivMonotone(Sum(s), n * hi, n);
    assert (n * lo) / n == lo && (n * hi) / n == hi;
  }

  lemma QuotientTimes(x: real, n: real)
    requires n > 0.0
    ensures (x / n) * n == x
  {
  }

  lemma MeanTimesCount(s: seq<real>)
    requires s != []
    ensures Mean(s) * |s| as real == Sum(s)
  {
    QuotientTimes(Sum(s), |s| as real);
  }

  lemma SameFactor(x: real, y: real, n: real)
    requires x * n == y * n && n != 0.0
    ensures x == y
  {
  }

  lemma MeanIs(s: seq<real>, m: real)
    requires s != [] && m * |s| as real == Sum(s)
    ensures Mean(s) == m
  {
    MeanTimesCount(s);
    SameFactor(m, Mean(s), |s| as real);
  }

  lemma MeanReported(durations: seq<real>)
    requires durations != []
    ensures ComputeStats(durations).value.mean == Round3(Mean(durations))
  {
  }

  // The reported mean is the number, rounded, that times the count gives the sum.
  lemma StatsMean(durations: seq<real>, m: real)
    requires durations != [] && m * |durations| as real == Sum(durations)
    ensures ComputeStats(durations).value.mean == Round3(m)
  {
    MeanReported(durations);
    MeanIs(durations, m);
  }

  // What is reported: the count, the rounded mean, the rounded 50th, 95th and 99th
  // percentiles, and the rounded least and greatest sample.
  lemma StatsReport(durations: seq<real>)
    requires durations != []
    ensures var st := ComputeStats(durations).value;
            && st.count == |durations|
            && st.mean == Round3(Sum(durations) / |durations| as real)
            && st.p50 == Round3(Percentile(durations, 50.0))
            && st.p95 == Round3(Percentile(durations, 95.0))
            && st.p99 == Round3(Percentile(durations, 99.0))
            && (exists i :: 0 <= i < |durations| && st.min == Round3(durations[i]) && forall j :: 0 <= j < |durations| ==> durations[i] <= durations[j])
            && (exists i :: 0 <= i < |durations| && st.max == Round3(durations[i]) && forall j :: 0 <= j < |durations| ==> durations[j] <= durations[i])
  {
    var s := SortUp(durations);
    SortUpSorted(durations);
    var lo := Position(durations, s, 0);
    var hi := Position(durations, s, |s| - 1);
    forall j | 0 <= j < |durations| ensures durations[lo] <= durations[j] <= durations[hi] {
      var k := Position(s, durations, j);
    }
  }

  // Every element of one list is somewhere in any rearrangement of it.
  lemma Position(a: seq<real>, b: seq<real>, k: nat) returns (i: nat)
    requires multiset(a) == multiset(b) && k < |b|
    ensures i < |a| && a[i] == b[k]
  {
    assert b[k] in multiset(a);
    i :| 0 <= i < |a| && a[i] == b[k];
  }

  // The reported numbers are ordered, whatever order the samples came in.
  lemma StatsOrdered(durations: seq<real>)
    ensures ComputeStats(durations) == None <==> durations == []
    ensures var st := ComputeStats(durations);
            st.Some? ==>
              && st.value.count == |durations|
              && st.value.min <= st.value.p50 <= st.value.p95 <= st.value.p99 <= st.value.max
              && st.value.min <= st.value.mean <= st.value.max
  {
    if durations != [] {
      var s := SortUp(durations);
      SortUpSorted(durations);
      AtBetween(s, 50.0);
      AtBetween(s, 99.0);
      AtMonotone(s, 50.0, 95.0);
      AtMonotone(s, 95.0, 99.0);
      Round3Monotone(s[0], At(s, 50.0));
      Round3Monotone(At(s, 50.0), At(s, 95.0));
      Round3Monotone(At(s, 95.0), At(s, 99.0));
      Round3Monotone(At(s, 99.0), s[|s| - 1]);
      MeanBounds(s, s[0], s[|s| - 1]);
      SumSort(durations);
      Round3Monotone(s[0], Mean(durations));
      Round3Monotone(Mean(durations), s[|s| - 1]);
    }
  }

  lemma StatsOrderFree(a: seq<real>, b: seq<real>)
    requires multiset(a) == multiset(b)
    ensures ComputeStats(a) == ComputeStats(b)
  {
    assert |a| == |multiset(a)| == |b|;
    SortOrderFree(a, b);
    SumSort(a);
    SumSort(b);
  }

  // Uniformly faster samples never report a larger number.
  lemma StatsDominate(a: seq<real>, b: seq<real>)
    requires a != [] && |a| == |b| && forall i :: 0 <= i < |a| ==> a[i] <= b[i]
    ensures var x, y := ComputeStats(a).value, ComputeStats(b).value;
            && x.min <= y.min && x.max <= y.max && x.mean <= y.mean
            && x.p50 <= y.p50 && x.p95 <= y.p95 && x.p99 <= y.p99
  {
    var s, t := SortUp(a), SortUp(b);
    SortBelow(a, b, 0.0);
    SumBelow(a, b);
    DivMonotone(Sum(a), Sum(b), |a| as real);
    AtBelow(s, t, 0.0, 50.0);
    AtBelow(s, t, 0.0, 95.0);
    AtBelow(s, t, 0.0, 99.0);
    Round3Monotone(At(s, 50.0), At(t, 50.0));
    Round3Monotone(At(s, 95.0), At(t, 95.0));
    Round3Monotone(At(s, 99.0), At(t, 99.0));
    Round3Monotone(s[0], t[0]);
    Round3Monotone(s[|s| - 1], t[|t| - 1]);
    Round3Monotone(Mean(a), Mean(b));
  }
}
