/** Latency percentiles from the histogram (stat.c). */
module Percentiles {
  import opened Words
  import opened LatencyBuckets
  import opened Bytes

  const LIST_MAX_LEN: nat := 20

  // ---- the histogram ----

  /** The samples in the first i buckets. */
  function Cum(counts: seq<nat>, i: nat): nat
    requires i <= |counts|
  {
    if i == 0 then 0 else Cum(counts, i - 1) + counts[i - 1]
  }

  /** How many samples have an index below i. */
  function Below(samples: seq<nat>, i: nat): nat
  {
    if samples == [] then 0
    else Below(samples[..|samples| - 1], i) + if ValToIdx(samples[|samples| - 1]) < i then 1 else 0
  }

  function Histogram(samples: seq<nat>): (h: seq<nat>)
    ensures |h| == PLAT_NR
  {
    if samples == [] then Repeat(0, PLAT_NR)
    else
      var h, i := Histogram(samples[..|samples| - 1]), ValToIdx(samples[|samples| - 1]);
      h[i := h[i] + 1]
  }

  lemma {:induction false} CumUpdate(counts: seq<nat>, i: nat, k: nat)
    requires k < |counts| && i <= |counts|
    ensures Cum(counts[k := counts[k] + 1], i) == Cum(counts, i) + if k < i then 1 else 0
  {
    if i > 0 {
      CumUpdate(counts, i - 1, k);
    }
  }

  lemma {:induction false} CumZero(n: nat, i: nat)
    requires i <= n
    ensures Cum(Repeat(0, n), i) == 0
  {
    if i > 0 {
      CumZero(n, i - 1);
    }
  }

  /** The histogram counts what it says. */
  lemma {:induction false} CumIsBelow(samples: seq<nat>, i: nat)
    requires i <= PLAT_NR
    ensures Cum(Histogram(samples), i) == Below(samples, i)
  {
    if samples == [] {
      CumZero(PLAT_NR, i);
    } else {
      var init := samples[..|samples| - 1];
      CumIsBelow(init, i);
      CumUpdate(Histogram(init), i, ValToIdx(samples[|samples| - 1]));
    }
  }

  lemma {:induction false} AllBelow(samples: seq<nat>)
    ensures Below(samples, PLAT_NR) == |samples|
  {
    if samples != [] {
      AllBelow(samples[..|samples| - 1]);
    }
  }

  lemma {:induction false} CumMonotone(counts: seq<nat>, i: nat, j: nat)
    requires i <= j <= |counts|
    ensures Cum(counts, i) <= Cum(counts, j)
  {
    if i < j {
      CumMonotone(counts, i, j - 1);
    }
  }

  // ---- percentiles ----

  /** How many samples are at most t. */
  function Rank(samples: seq<nat>, t: nat): nat
  {
    if samples == [] then 0
    else Rank(samples[..|samples| - 1], t) + if samples[|samples| - 1] <= t then 1 else 0
  }

  /** The number of samples that percentile p asks for. */
  function Threshold(p: real, nr: nat): real
  {
    p / 100.0 * nr as real
  }

  /** At least p percent of the samples are at most t. */
  ghost predicate Reaches(samples: seq<nat>, p: real, t: nat)
  {
    100.0 * Rank(samples, t) as real >= p * |samples| as real
  }

  /** s is the smallest sample that at least p percent of the samples do not exceed. */
  ghost predicate IsPercentile(samples: seq<nat>, p: real, s: nat)
  {
    s in samples && Reaches(samples, p, s) && forall t <- samples :: t < s ==> !Reaches(samples, p, t)
  }

  /** The loop compares with the number of samples that is p percent of them. */
  lemma ThresholdIsPercent(samples: seq<nat>, p: real, t: nat)
    ensures Rank(samples, t) as real >= Threshold(p, |samples|) <==> Reaches(samples, p, t)
  {
    var k, n := Rank(samples, t) as real, |samples| as real;
    Percent(p, n);
    assert Threshold(p, |samples|) == p / 100.0 * n;
  }

  lemma Percent(p: real, n: real)
    ensures 100.0 * (p / 100.0 * n) == p * n
  {
    assert 100.0 * (p / 100.0) == p;
    assert 100.0 * (p / 100.0 * n) == 100.0 * (p / 100.0) * n;
  }

  /** b is the first bucket at which the running sum reaches thr. */
  ghost predicate IsFirst(counts: seq<nat>, thr: real, b: nat)
  {
    b < |counts| && Cum(counts, b + 1) as real >= thr && (b == 0 || (Cum(counts, b) as real) < thr)
  }

  lemma FirstUnique(counts: seq<nat>, thr: real, b: nat, c: nat)
    requires IsFirst(counts, thr, b) && IsFirst(counts, thr, c)
    ensures b == c
  {
    if b < c {
      CumMonotone(counts, b + 1, c);
    } else if c < b {
      CumMonotone(counts, c + 1, b);
    }
  }

  lemma {:induction false} RankOfBucket(samples: seq<nat>, s: nat)
    ensures Rank(samples, s) <= Below(samples, ValToIdx(s) + 1)
  {
    if samples != [] {
      RankOfBucket(samples[..|samples| - 1], s);
      var x := samples[|samples| - 1];
      if x <= s {
        IndexMonotone(x, s);
      }
    }
  }

  /** If every sample of the buckets below i is at most t, their number is at most the rank of t. */
  lemma {:induction false} BelowRank(samples: seq<nat>, i: nat, t: nat)
    requires forall x <- samples :: ValToIdx(x) < i ==> x <= t
    ensures Below(samples, i) <= Rank(samples, t)
  {
    if samples != [] {
      BelowRank(samples[..|samples| - 1], i, t);
    }
  }

  lemma {:induction false} NoneBelow(samples: seq<nat>, i: nat)
    requires forall x <- samples :: ValToIdx(x) >= i
    ensures Below(samples, i) == 0
  {
    if samples != [] {
      NoneBelow(samples[..|samples| - 1], i);
    }
  }

  /** The largest sample of the buckets below i, if there is one. */
  lemma {:induction false} LargestBelow(samples: seq<nat>, i: nat) returns (any: bool, t: nat)
    ensures any ==> t in samples && ValToIdx(t) < i && forall x <- samples :: ValToIdx(x) < i ==> x <= t
    ensures !any ==> forall x <- samples :: ValToIdx(x) >= i
  {
    if samples == [] {
      return false, 0;
    }
    var x := samples[|samples| - 1];
    any, t := LargestBelow(samples[..|samples| - 1], i);
    assert samples == samples[..|samples| - 1] + [x];
    if ValToIdx(x) < i && (!any || t < x) {
      any, t := true, x;
    }
  }

  /** The bucket of the percentile is the first one to reach the threshold. */
  lemma PercentileBucket(samples: seq<nat>, p: real, s: nat)
    requires IsPercentile(samples, p, s) && p > 0.0
    ensures IsFirst(Histogram(samples), Threshold(p, |samples|), ValToIdx(s))
  {
    var i, thr := ValToIdx(s), Threshold(p, |samples|);
    CumIsBelow(samples, i);
    CumIsBelow(samples, i + 1);
    RankOfBucket(samples, s);
    ThresholdIsPercent(samples, p, s);
    Positive(p, |samples|);
    var any, t := LargestBelow(samples, i);
    if any {
      BelowRank(samples, i, t);
      ThresholdIsPercent(samples, p, t);
      if s <= t {
        IndexMonotone(s, t);
      }
    } else {
      NoneBelow(samples, i);
    }
  }

  lemma Positive(p: real, n: nat)
    requires p > 0.0 && n > 0
    ensures Threshold(p, n) > 0.0
  {}

  lemma {:induction false} RankOfMax(samples: seq<nat>, m: nat)
    requires forall i | 0 <= i < |samples| :: samples[i] <= m
    ensures Rank(samples, m) == |samples|
  {
    if samples != [] {
      RankOfMax(samples[..|samples| - 1], m);
    }
  }

  /** Every percentile up to 100 has its sample. */
  lemma PercentileExists(samples: seq<nat>, p: real) returns (s: nat)
    requires samples != [] && p <= 100.0
    ensures IsPercentile(samples, p, s)
  {
    var n := |samples|;
    s := samples[0];
    for k := 1 to n
      invariant s in samples && forall j | 0 <= j < k :: samples[j] <= s
    {
      if s < samples[k] {
        s := samples[k];
      }
    }
    RankOfMax(samples, s);
    AtMostAll(p, n);
    ThresholdIsPercent(samples, p, s);
    var more := true;
    while more
      invariant s in samples && Reaches(samples, p, s)
      invariant !more ==> IsPercentile(samples, p, s)
      decreases more, s
    {
      if t :| t in samples && t < s && Reaches(samples, p, t) {
        s := t;
      } else {
        more := false;
      }
    }
  }

  lemma AtMostAll(p: real, n: nat)
    requires p <= 100.0
    ensures Threshold(p, n) <= n as real
  {
    assert p / 100.0 <= 1.0;
  }

  /** All samples are small enough to have a bucket of their own size. */
  ghost predicate Tracked(samples: seq<nat>)
  {
    forall x <- samples :: x < Pow2(24)
  }

  /** The value reported for a percentile is within 1/128 of the sample it stands for. */
  lemma PercentileAccurate(samples: seq<nat>, p: real, b: nat) returns (s: nat)
    requires samples != [] && 0.0 < p <= 100.0 && Tracked(samples)
    requires IsFirst(Histogram(samples), Threshold(p, |samples|), b)
    ensures IsPercentile(samples, p, s) && Close(IdxToVal(b), s)
  {
    s := PercentileExists(samples, p);
    PercentileBucket(samples, p, s);
    FirstUnique(Histogram(samples), Threshold(p, |samples|), b, ValToIdx(s));
    WithinOnePart128(s);
  }

  // ---- the loops ----

  ghost predicate Ascending(s: seq<real>)
  {
    forall i | 0 < i < |s| :: s[i - 1] <= s[i]
  }

  function InsertReal(s: seq<real>, x: real): (r: seq<real>)
    ensures multiset(r) == multiset(s) + multiset{x}
    ensures r != [] && (r[0] == x || (s != [] && r[0] == s[0]))
  {
    if s == [] || x <= s[0] then [x] + s
    else
      assert s == [s[0]] + s[1..];
      [s[0]] + InsertReal(s[1..], x)
  }

  lemma {:induction false} InsertAscending(s: seq<real>, x: real)
    requires Ascending(s)
    ensures Ascending(InsertReal(s, x))
  {
    if s != [] && s[0] < x {
      var t := InsertReal(s[1..], x);
      assert Ascending(s[1..]) by {
        forall i | 0 < i < |s[1..]| ensures s[1..][i - 1] <= s[1..][i] {
          assert s[i] <= s[i + 1];
        }
      }
      InsertAscending(s[1..], x);
      var r := [s[0]] + t;
      forall i | 0 < i < |r| ensures r[i - 1] <= r[i] {
        assert i > 1 ==> t[i - 2] <= t[i - 1];
        assert |s| > 1 ==> s[0] <= s[1];
      }
    } else if s != [] {
      var r := [x] + s;
      forall i | 0 < i < |r| ensures r[i - 1] <= r[i] {
        assert i > 1 ==> s[i - 2] <= s[i - 1];
      }
    }
  }

  /** qsort of the percentile list */
  function SortReals(s: seq<real>): (r: seq<real>)
    ensures multiset(r) == multiset(s) && Ascending(r)
  {
    if s == [] then []
    else
      assert s == s[..|s| - 1] + [s[|s| - 1]];
      InsertAscending(SortReals(s[..|s| - 1]), s[|s| - 1]);
      InsertReal(SortReals(s[..|s| - 1]), s[|s| - 1])
  }

  /** add_clat_percentile_sample */
  method AddClatPercentileSample(plat: array<nat>, usec: nat, ghost samples: seq<nat>)
    requires plat.Length == PLAT_NR && plat[..] == Histogram(samples)
    modifies plat
    ensures plat[..] == Histogram(samples + [usec])
  {
    var idx := ValToIdx(usec);
    plat[idx] := plat[idx] + 1;
    assert (samples + [usec])[..|samples|] == samples;
  }

  /** The entries of a percentile list before its end. */
  function Listed(plist: seq<real>): (r: seq<real>)
    ensures r <= plist && |r| <= 20 && (forall p <- r :: p != 0.0)
    ensures |r| == 20 || |r| == |plist| || plist[|r|] == 0.0
  {
    UpToZero(plist, LIST_MAX_LEN)
  }

  function UpToZero(plist: seq<real>, n: nat): (r: seq<real>)
    ensures r <= plist && |r| <= n && (forall p <- r :: p != 0.0)
    ensures |r| == n || |r| == |plist| || plist[|r|] == 0.0
  {
    if n == 0 || plist == [] || plist[0] == 0.0 then [] else [plist[0]] + UpToZero(plist[1..], n - 1)
  }

  lemma {:induction false} ListedLength(plist: seq<real>, n: nat, len: nat)
    requires len <= |plist| && len <= n && (forall i | 0 <= i < len :: plist[i] != 0.0)
    requires len == n || len == |plist| || plist[len] == 0.0
    ensures UpToZero(plist, n) == plist[..len]
  {
    if len > 0 {
      ListedLength(plist[1..], n - 1, len - 1);
    }
  }

  lemma SortedSame(s: seq<real>)
    ensures |SortReals(s)| == |s| && forall j | 0 <= j < |s| :: SortReals(s)[j] in s
  {
    var r := SortReals(s);
    assert |multiset(r)| == |r| && |multiset(s)| == |s|;
    forall j | 0 <= j < |s| ensures r[j] in s {
      assert r[j] in multiset(r);
    }
  }

  lemma ThresholdMonotone(p: real, q: real, n: nat)
    requires p <= q
    ensures Threshold(p, n) <= Threshold(q, n)
  {}

  lemma TwoTo17()
    ensures Pow2(17) == 131072
  {
    Pow2Add(8, 9);
    assert Pow2(8) == 256;
  }

  lemma IdxToValSmall(i: nat)
    requires i < PLAT_NR
    ensures IdxToVal(i) < 0xffffffff
  {
    hide IdxToVal, Pow2;
    MiddleOfBucket(i);
    if i >= 2 * PLAT_VAL {
      var e := i / PLAT_VAL - 1;
      Pow2Monotone(e, 17);
      TwoTo17();
      TimesMonotone(Pow2(e), PLAT_VAL + i % PLAT_VAL, 127);
    }
  }

  /** Each reported value is that of the first bucket to reach its percentile. */
  ghost predicate Reported(counts: seq<nat>, nr: nat, ps: seq<real>, bs: seq<nat>, ovals: seq<nat>)
  {
    |bs| == |ovals| <= |ps| && forall j | 0 <= j < |bs| ::
      IsFirst(counts, Threshold(ps[j], nr), bs[j]) && ovals[j] == IdxToVal(bs[j])
  }

  /** calc_clat_percentiles; sorted is the list as it leaves it. */
  method CalcClatPercentiles(plat: array<nat>, nr: nat, plist: seq<real>)
      returns (ovals: seq<nat>, sorted: seq<real>, maxv: nat, minv: nat, ghost bs: seq<nat>)
    requires plat.Length == PLAT_NR && Cum(plat[..], PLAT_NR) == nr && forall p <- Listed(plist) :: p <= 100.0
    ensures sorted == SortReals(Listed(plist)) && |ovals| == |sorted| && Reported(plat[..], nr, sorted, bs, ovals)
    ensures Extremes(ovals, minv, maxv)
  {
    hide IdxToVal, Threshold, SortReals, UpToZero, IsFirst;
    minv, maxv, ovals, bs := 0xffffffff, 0, [], [];
    var len := 0;
    while len < LIST_MAX_LEN && len < |plist| && plist[len] != 0.0
      invariant len <= LIST_MAX_LEN && len <= |plist| && forall i | 0 <= i < len :: plist[i] != 0.0
    {
      len := len + 1;
    }
    ListedLength(plist, LIST_MAX_LEN, len);
    sorted := SortReals(plist[..len]);
    SortedSame(plist[..len]);
    if len == 0 {
      return;
    }
    var sum: nat, i: nat, j: nat, last := 0, 0, 0, false;
    while i < PLAT_NR && !last
      invariant i <= PLAT_NR && j < len && sum == Cum(plat[..], i)
      invariant |ovals| == if last then len else j
      invariant Reported(plat[..], nr, sorted, bs, ovals)
      invariant !last && i > 0 ==> (sum as real) < Threshold(sorted[j], nr)
      invariant Extremes(ovals, minv, maxv)
    {
      sum := sum + plat[i];
      ovals, bs, j, last, minv, maxv := Bucket(plat[..], i, sum, nr, sorted, j, ovals, bs, minv, maxv);
      i := i + 1;
    }
    assert sorted[j] in Listed(plist);
    AtMostAll(sorted[j], nr);
  }

  /** The smallest and the largest of the values, with the values they have while there are none. */
  ghost predicate Extremes(ovals: seq<nat>, minv: nat, maxv: nat)
  {
    && (forall v <- ovals :: minv <= v <= maxv)
    && if ovals == [] then minv == 0xffffffff && maxv == 0 else minv in ovals && maxv in ovals
  }

  lemma ExtremesStep(ovals: seq<nat>, minv: nat, maxv: nat, v: nat)
    requires Extremes(ovals, minv, maxv) && v < 0xffffffff
    ensures Extremes(ovals + [v], if v < minv then v else minv, if v > maxv then v else maxv)
  {}

  lemma ReportedStep(counts: seq<nat>, nr: nat, ps: seq<real>, bs: seq<nat>, ovals: seq<nat>, i: nat)
    requires Reported(counts, nr, ps, bs, ovals) && |ovals| < |ps| && i < |counts|
    requires Cum(counts, i + 1) as real >= Threshold(ps[|ovals|], nr)
             && (i == 0 || (Cum(counts, i) as real) < Threshold(ps[|ovals|], nr))
    ensures Reported(counts, nr, ps, bs + [i], ovals + [IdxToVal(i)])
  {}

  /** All percentiles that bucket i reaches. */
  method Bucket(counts: seq<nat>, i: nat, sum: nat, nr: nat, ps: seq<real>, j0: nat, ovals0: seq<nat>,
                ghost bs0: seq<nat>, min0: nat, max0: nat)
      returns (ovals: seq<nat>, ghost bs: seq<nat>, j: nat, last: bool, minv: nat, maxv: nat)
    requires |counts| == PLAT_NR && i < PLAT_NR && sum == Cum(counts, i + 1) && j0 == |ovals0| < |ps| && Ascending(ps)
    requires Reported(counts, nr, ps, bs0, ovals0) && Extremes(ovals0, min0, max0)
    requires i > 0 ==> (Cum(counts, i) as real) < Threshold(ps[j0], nr)
    ensures Reported(counts, nr, ps, bs, ovals) && Extremes(ovals, minv, maxv) && j < |ps|
    ensures |ovals| == if last then |ps| else j
    ensures !last ==> (sum as real) < Threshold(ps[j], nr)
  {
    hide IdxToVal, Threshold, Cum, Extremes, Reported, IsFirst;
    ovals, bs, j, last, minv, maxv := ovals0, bs0, j0, false, min0, max0;
    while sum as real >= Threshold(ps[j], nr)
      invariant j < |ps| && !last && |ovals| == j
      invariant Reported(counts, nr, ps, bs, ovals) && Extremes(ovals, minv, maxv)
      invariant i > 0 ==> (Cum(counts, i) as real) < Threshold(ps[j], nr)
      decreases |ps| - j
    {
      var v := IdxToVal(i);
      IdxToValSmall(i);
      ReportedStep(counts, nr, ps, bs, ovals, i);
      ExtremesStep(ovals, minv, maxv, v);
      ovals, bs := ovals + [v], bs + [i];
      if v < minv {
        minv := v;
      }
      if v > maxv {
        maxv := v;
      }
      last := j == |ps| - 1;
      if last {
        break;
      }
      ThresholdMonotone(ps[j], ps[j + 1], nr);
      j := j + 1;
    }
  }

  /** Every value reported is within 1/128 of the sample at its percentile. */
  ghost predicate Accurate(samples: seq<nat>, ps: seq<real>, ovals: seq<nat>, exact: seq<nat>)
  {
    |ps| == |ovals| == |exact| && forall j | 0 <= j < |ps| ::
      IsPercentile(samples, ps[j], exact[j]) && Close(ovals[j], exact[j])
  }

  lemma {:induction false} ReportAccurate(samples: seq<nat>, ps: seq<real>, bs: seq<nat>,
                                          ovals: seq<nat>) returns (exact: seq<nat>)
    requires samples != [] && Tracked(samples) && (forall j | 0 <= j < |ps| :: 0.0 < ps[j] <= 100.0)
    requires |ovals| == |ps| && Reported(Histogram(samples), |samples|, ps, bs, ovals)
    ensures Accurate(samples, ps, ovals, exact)
    decreases |ps|
  {
    hide IdxToVal, IsPercentile, IsFirst, Threshold, Close, Histogram;
    exact := [];
    for j := 0 to |ps|
      invariant |exact| == j && forall i | 0 <= i < j ::
                  IsPercentile(samples, ps[i], exact[i]) && Close(ovals[i], exact[i])
    {
      var s := PercentileAccurate(samples, ps[j], bs[j]);
      exact := exact + [s];
    }
  }

  /** From the samples to the report. */
  method ReportPercentiles(samples: seq<nat>, plist: seq<real>)
      returns (ovals: seq<nat>, sorted: seq<real>, ghost exact: seq<nat>)
    requires samples != [] && Tracked(samples) && forall p <- Listed(plist) :: 0.0 < p <= 100.0
    ensures sorted == SortReals(Listed(plist)) && Accurate(samples, sorted, ovals, exact)
  {
    hide IdxToVal, SortReals, UpToZero, Accurate, Tracked, Reported, Extremes, Histogram, Cum, Below;
    var plat := CountSamples(samples);
    CumIsBelow(samples, PLAT_NR);
    AllBelow(samples);
    var maxv, minv;
    ghost var bs;
    ovals, sorted, maxv, minv, bs := CalcClatPercentiles(plat, |samples|, plist);
    SortedSame(Listed(plist));
    assert forall j | 0 <= j < |sorted| :: sorted[j] in Listed(plist);
    exact := ReportAccurate(samples, sorted, bs, ovals);
  }

  method CountSamples(samples: seq<nat>) returns (plat: array<nat>)
    ensures fresh(plat) && plat.Length == PLAT_NR && plat[..] == Histogram(samples)
  {
    hide ValToIdx;
    plat := new nat[PLAT_NR](_ => 0);
    assert plat[..] == Histogram(samples[..0]);
    for k := 0 to |samples|
      invariant plat[..] == Histogram(samples[..k])
    {
      AddClatPercentileSample(plat, samples[k], samples[..k]);
      assert samples[..k] + [samples[k]] == samples[..k + 1];
    }
    assert samples[..|samples|] == samples;
  }
}
