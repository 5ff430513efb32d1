/** Running mean and variance of samples, and merging the statistics of several threads (stat.c). */
module IoStats {

  /** ULONG_MAX of a 32-bit long: the minimum of no samples. */
  const NO_MIN: nat := 0xffff_ffff

  function Sum(xs: seq<nat>): real
  {
    if xs == [] then 0.0 else Sum(xs[..|xs| - 1]) + xs[|xs| - 1] as real
  }

  function SumSq(xs: seq<nat>): real
  {
    if xs == [] then 0.0 else SumSq(xs[..|xs| - 1]) + xs[|xs| - 1] as real * xs[|xs| - 1] as real
  }

  /** The sum of the squared deviations from m. */
  function SqDev(xs: seq<nat>, m: real): real
  {
    if xs == [] then 0.0 else SqDev(xs[..|xs| - 1], m) + (xs[|xs| - 1] as real - m) * (xs[|xs| - 1] as real - m)
  }

  function Mean(xs: seq<nat>): real
    requires xs != []
  {
    Sum(xs) / |xs| as real
  }

  lemma {:induction false} SqDevForm(xs: seq<nat>, m: real)
    ensures SqDev(xs, m) == SumSq(xs) - 2.0 * m * Sum(xs) + |xs| as real * (m * m)
  {
    if xs != [] {
      SqDevForm(xs[..|xs| - 1], m);
      var v, n := xs[|xs| - 1] as real, (|xs| - 1) as real;
      assert (v - m) * (v - m) == v * v - 2.0 * m * v + m * m;
      assert (n + 1.0) * (m * m) == n * (m * m) + m * m;
      assert 2.0 * m * (Sum(xs[..|xs| - 1]) + v) == 2.0 * m * Sum(xs[..|xs| - 1]) + 2.0 * m * v;
    }
  }

  lemma {:induction false} SumConcat(xs: seq<nat>, ys: seq<nat>)
    ensures Sum(xs + ys) == Sum(xs) + Sum(ys) && SumSq(xs + ys) == SumSq(xs) + SumSq(ys)
  {
    if ys == [] {
      assert xs + ys == xs;
    } else {
      var n := |xs + ys| - 1;
      assert (xs + ys)[..n] == xs + ys[..|ys| - 1];
      SumConcat(xs, ys[..|ys| - 1]);
    }
  }

  /** mean and s are those of samples with n elements, sum and sum of squares. */
  ghost predicate Moments(n: real, sum: real, sq: real, mean: real, s: real)
  {
    n * mean == sum && s == sq - n * (mean * mean)
  }

  /** The moments kept are the mean and the sum of squared deviations. */
  lemma MomentsMean(xs: seq<nat>, mean: real, s: real)
    requires xs != [] && Moments(|xs| as real, Sum(xs), SumSq(xs), mean, s)
    ensures mean == Mean(xs) && s == SqDev(xs, Mean(xs))
  {
    hide Sum, SumSq, SqDev;
    var n := |xs| as real;
    Quotient(n, mean, Sum(xs));
    SqDevForm(xs, mean);
    Doubled(n, mean, Sum(xs));
  }

  lemma Doubled(n: real, m: real, sum: real)
    requires n * m == sum
    ensures 2.0 * m * sum == 2.0 * (n * (m * m))
  {}

  function AddedMean(n: real, mean: real, v: real): real
    requires n >= 0.0
  {
    mean + (v - mean) / (n + 1.0)
  }

  function AddedS(n: real, mean: real, s: real, v: real): real
    requires n >= 0.0
  {
    s + (v - mean) * (v - AddedMean(n, mean, v))
  }

  function MergedMean(n: real, m: real, n': real, m': real): real
    requires n >= 0.0 && n' > 0.0
  {
    (m' * n' + m * n) / (n + n')
  }

  function MergedS(n: real, m: real, s: real, n': real, m': real, s': real): real
    requires n >= 0.0 && n' > 0.0
  {
    s' + s + (m' - m) * (m' - m) * (n * n') / (n + n')
  }

  /** One more sample: the update of add_stat_sample. */
  lemma MomentsAdd(n: real, sum: real, sq: real, mean: real, s: real, v: real)
    requires n >= 0.0 && Moments(n, sum, sq, mean, s)
    ensures Moments(n + 1.0, sum + v, sq + v * v, AddedMean(n, mean, v), AddedS(n, mean, s, v))
    ensures v == mean ==> AddedMean(n, mean, v) == mean && AddedS(n, mean, s, v) == s
  {
    var d := v - mean;
    var e := d / (n + 1.0);
    assert (n + 1.0) * e == d;
    assert (n + 1.0) * (mean + e) == n * mean + mean + d;
    AddIdentity(n, mean, e, v);
  }

  lemma AddIdentity(n: real, m: real, e: real, v: real)
    requires v == m + (n + 1.0) * e
    ensures (v - m) * (v - (m + e)) == v * v + n * (m * m) - (n + 1.0) * ((m + e) * (m + e))
  {
    var d := (n + 1.0) * e;
    assert v == m + d && d == n * e + e;
    assert (v - m) * (v - (m + e)) == d * d - d * e;
    assert v * v == m * m + 2.0 * (m * d) + d * d;
    assert (m + e) * (m + e) == m * m + 2.0 * (m * e) + e * e;
    assert (n + 1.0) * ((m + e) * (m + e)) == n * (m * m) + m * m + 2.0 * (m * d) + d * e by {
      assert (n + 1.0) * (m * m) == n * (m * m) + m * m;
      assert (n + 1.0) * (m * e) == m * d;
      assert (n + 1.0) * (e * e) == d * e;
    }
  }

  /** Two lots of samples: the merge of sum_stat. */
  lemma MomentsMerge(n: real, sum: real, sq: real, m: real, s: real, n': real, sum': real, sq': real, m': real,
                     s': real)
    requires n >= 0.0 && n' > 0.0 && Moments(n, sum, sq, m, s) && Moments(n', sum', sq', m', s')
    ensures Moments(n + n', sum + sum', sq + sq', MergedMean(n, m, n', m'), MergedS(n, m, s, n', m', s'))
  {
    hide Moments;
    var t, d := n + n', m' - m;
    TimesQuotient(t, m' * n' + m * n);
    TimesQuotient(t, d * d * (n * n'));
    MergeCore(n, sum, sq, m, s, n', sum', sq', m', s', (m' * n' + m * n) / t, d * d * (n * n') / t);
  }

  lemma MergeCore(n: real, sum: real, sq: real, m: real, s: real, n': real, sum': real, sq': real, m': real, s': real,
                  mean: real, y: real)
    requires n >= 0.0 && n' > 0.0 && Moments(n, sum, sq, m, s) && Moments(n', sum', sq', m', s')
    requires (n + n') * mean == m' * n' + m * n && (n + n') * y == (m' - m) * (m' - m) * (n * n')
    ensures Moments(n + n', sum + sum', sq + sq', mean, s' + s + y)
  {
    MergeIdentity(n, m, n', m', mean);
    Cancel(n + n', n * (m * m) + n' * (m' * m') - (n + n') * (mean * mean), y);
  }

  lemma TimesQuotient(t: real, x: real)
    requires t > 0.0
    ensures t * (x / t) == x
  {}

  lemma Quotient(t: real, a: real, x: real)
    requires t > 0.0 && t * a == x
    ensures a == x / t
  {
    TimesQuotient(t, x);
    Cancel(t, a, x / t);
  }

  lemma Cancel(t: real, a: real, b: real)
    requires t > 0.0 && t * a == t * b
    ensures a == b
  {
    assert t * (a - b) == 0.0;
  }

  lemma MergeIdentity(n: real, m: real, n': real, m': real, mean: real)
    requires (n + n') * mean == m' * n' + m * n
    ensures (n + n') * (n * (m * m) + n' * (m' * m') - (n + n') * (mean * mean)) == (m' - m) * (m' - m) * (n * n')
  {
    var t, a, b := n + n', n * m, n' * m';
    assert t * (t * (mean * mean)) == (t * mean) * (t * mean);
    assert (t * mean) * (t * mean) == (a + b) * (a + b);
    assert (a + b) * (a + b) == a * a + 2.0 * (a * b) + b * b;
    assert t * (n * (m * m)) == a * a + n * n' * (m * m) by {
      assert n * (n * (m * m)) == a * a;
    }
    assert t * (n' * (m' * m')) == b * b + n * n' * (m' * m') by {
      assert n' * (n' * (m' * m')) == b * b;
    }
    assert a * b == n * n' * (m * m');
    assert (m' - m) * (m' - m) == m' * m' - 2.0 * (m * m') + m * m;
  }

  // ---- struct io_stat ----

  ghost predicate Extremes(xs: seq<nat>, lo: nat, hi: nat)
  {
    && (forall x <- xs :: lo <= x <= hi)
    && if xs == [] then lo == 0xffff_ffff && hi == 0 else lo in xs && hi in xs
  }

  /** No sample is larger than the type of the samples allows. */
  ghost predicate Samples(xs: seq<nat>)
  {
    forall x <- xs :: x <= NO_MIN
  }

  class IoStat {
    var minVal: nat
    var maxVal: nat
    var samples: nat
    var mean: real
    var S: real

    constructor ()
      ensures Stands([])
    {
      minVal, maxVal, samples, mean, S := NO_MIN, 0, 0, 0.0, 0.0;
    }

    /** The record is that of the samples xs. */
    ghost predicate Stands(xs: seq<nat>)
      reads this
    {
      samples == |xs| && Samples(xs) && Extremes(xs, minVal, maxVal)
        && Moments(|xs| as real, Sum(xs), SumSq(xs), mean, S)
    }

    /** A record holds the exact count, extremes, mean and sum of squared deviations of its samples. */
    lemma StandsExactly(xs: seq<nat>)
      requires Stands(xs) && xs != []
      ensures samples == |xs| && mean == Mean(xs) && S == SqDev(xs, Mean(xs))
      ensures minVal in xs && maxVal in xs && forall x <- xs :: minVal <= x <= maxVal
    {
      MomentsMean(xs, mean, S);
    }

    /** add_stat_sample */
    method AddStatSample(data: nat, ghost xs: seq<nat>)
      requires Stands(xs) && data <= NO_MIN
      modifies this
      ensures Stands(xs + [data])
    {
      hide Moments, Extremes, Samples, AddedMean, AddedS, Sum, SumSq;
      var val := data as real;
      ExtremesStep(xs, data, minVal, maxVal);
      MomentsStep(xs, data, mean, S);
      if data > maxVal {
        maxVal := data;
      }
      if data < minVal {
        minVal := data;
      }
      var delta := val - mean;
      if delta != 0.0 {
        var was := mean;
        mean := AddedMean(samples as real, was, val);
        S := AddedS(samples as real, was, S, val);
      }
      samples := samples + 1;
    }

    /** sum_stat: the statistics of the samples of both records. nr is 1 for the first record of a fold. */
    method SumStat(src: IoStat, nr: nat, ghost xs: seq<nat>, ghost ys: seq<nat>)
      requires Stands(xs) && src.Stands(ys) && src != this && (nr == 1 ==> xs == [])
      modifies this
      ensures Stands(xs + ys)
    {
      hide Moments, Extremes, Samples, MergedMean, MergedS, Sum, SumSq;
      SumConcat(xs, ys);
      if src.samples == 0 {
        assert xs + ys == xs;
        return;
      }
      MomentsMerge(|xs| as real, Sum(xs), SumSq(xs), mean, S, |ys| as real, Sum(ys), SumSq(ys), src.mean, src.S);
      ExtremesMerge(xs, ys, minVal, maxVal, src.minVal, src.maxVal);
      minVal := if minVal < src.minVal then minVal else src.minVal;
      maxVal := if maxVal > src.maxVal then maxVal else src.maxVal;
      if nr == 1 {
        assert xs + ys == ys;
        mean, S := src.mean, src.S;
      } else {
        var was := mean;
        mean := MergedMean(samples as real, was, src.samples as real, src.mean);
        S := MergedS(samples as real, was, S, src.samples as real, src.mean, src.S);
      }
      samples := samples + src.samples;
    }
  }

  lemma ExtremesMerge(xs: seq<nat>, ys: seq<nat>, lo: nat, hi: nat, lo': nat, hi': nat)
    requires Extremes(xs, lo, hi) && Extremes(ys, lo', hi') && Samples(xs) && Samples(ys)
    ensures Extremes(xs + ys, if lo < lo' then lo else lo', if hi > hi' then hi else hi') && Samples(xs + ys)
  {}

  lemma ExtremesStep(xs: seq<nat>, x: nat, lo: nat, hi: nat)
    requires Extremes(xs, lo, hi) && Samples(xs) && x <= NO_MIN
    ensures Extremes(xs + [x], if x < lo then x else lo, if x > hi then x else hi) && Samples(xs + [x])
  {}

  lemma MomentsStep(xs: seq<nat>, x: nat, mean: real, s: real)
    requires Moments(|xs| as real, Sum(xs), SumSq(xs), mean, s)
    ensures Moments(|xs + [x]| as real, Sum(xs + [x]), SumSq(xs + [x]), AddedMean(|xs| as real, mean, x as real),
                    AddedS(|xs| as real, mean, s, x as real))
    ensures x as real == mean ==>
              AddedMean(|xs| as real, mean, x as real) == mean && AddedS(|xs| as real, mean, s, x as real) == s
  {
    hide Moments, AddedMean, AddedS;
    var n, v := |xs| as real, x as real;
    SumStep(xs, x);
    assert |xs + [x]| as real == n + 1.0;
    MomentsAdd(n, Sum(xs), SumSq(xs), mean, s, v);
    var sum, sq := Sum(xs + [x]), SumSq(xs + [x]);
    assert sum == Sum(xs) + v;
    assert sq == SumSq(xs) + v * v;
    assert Moments(n + 1.0, sum, sq, AddedMean(n, mean, v), AddedS(n, mean, s, v));
  }

  lemma SumStep(xs: seq<nat>, x: nat)
    ensures Sum(xs + [x]) == Sum(xs) + x as real && SumSq(xs + [x]) == SumSq(xs) + x as real * x as real
  {
    assert (xs + [x])[..|xs|] == xs;
  }

  function Flatten(xss: seq<seq<nat>>): seq<nat>
  {
    if xss == [] then [] else Flatten(xss[..|xss| - 1]) + xss[|xss| - 1]
  }

  /** The fold of show_run_stats: one fresh record, the records of all threads in turn. */
  method MergeAll(threads: seq<IoStat>, ghost xss: seq<seq<nat>>) returns (total: IoStat)
    requires |threads| == |xss| && forall i | 0 <= i < |xss| :: threads[i].Stands(xss[i])
    ensures total.Stands(Flatten(xss))
  {
    total := new IoStat();
    assert xss[..0] == [];
    for i := 0 to |threads|
      invariant fresh(total) && total.Stands(Flatten(xss[..i]))
    {
      assert xss[..i + 1][..i] == xss[..i];
      total.SumStat(threads[i], i + 1, Flatten(xss[..i]), xss[i]);
    }
    assert xss[..|xss|] == xss;
  }

  /** One thread: its samples, one at a time. */
  method Collect(xs: seq<nat>) returns (stat: IoStat)
    requires Samples(xs)
    ensures fresh(stat) && stat.Stands(xs)
  {
    stat := new IoStat();
    assert xs[..0] == [];
    for i := 0 to |xs|
      invariant fresh(stat) && stat.Stands(xs[..i])
    {
      assert xs[i] in xs;
      stat.AddStatSample(xs[i], xs[..i]);
      assert xs[..i] + [xs[i]] == xs[..i + 1];
    }
    assert xs[..|xs|] == xs;
  }
}
