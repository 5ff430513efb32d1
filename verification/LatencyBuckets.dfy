/** The buckets of the latency histogram: index of a value, value of an index (stat.c). */
module LatencyBuckets {
  import opened Words
  import opened Bytes

  const PLAT_BITS: nat := 6
  const PLAT_VAL: nat := 64
  const PLAT_NR: nat := 1216

  /** The most significant bit; 0 for 0. */
  function Msb(v: nat): (m: nat)
    ensures v < Pow2(m + 1) && (v > 0 ==> Pow2(m) <= v)
  {
    if v < 2 then 0 else 1 + Msb(v / 2)
  }

  /** plat_val_to_idx */
  function ValToIdx(v: nat): (i: nat)
    ensures i < PLAT_NR
  {
    var m := Msb(v);
    if m <= PLAT_BITS then
      SmallMsb(v);
      v
    else
      var e := m - PLAT_BITS;
      var at := (e + 1) * PLAT_VAL + v / Pow2(e) % PLAT_VAL;
      if at < PLAT_NR - 1 then at else PLAT_NR - 1
  }

  /** plat_idx_to_val; (k + 0.5) * 2^e is a whole number from group 2 on. */
  function IdxToVal(i: nat): nat
  {
    if i < 2 * PLAT_VAL then i
    else
      var e := i / PLAT_VAL - 1;
      Pow2(e + PLAT_BITS) + (2 * (i % PLAT_VAL) + 1) * Pow2(e) / 2
  }

  lemma SmallMsb(v: nat)
    requires Msb(v) <= PLAT_BITS
    ensures v < 2 * PLAT_VAL
  {
    Pow2Monotone(Msb(v) + 1, 7);
    assert Pow2(7) == 128;
  }

  /** The error bits of a value: how many of its low bits its bucket ignores. */
  function ErrorBits(v: nat): nat
  {
    if Msb(v) <= PLAT_BITS then 0 else Msb(v) - PLAT_BITS
  }

  /** Up to the last tracked value the index is 64 for each error bit, plus the leading bits. */
  lemma IdxForm(v: nat)
    ensures var e := ErrorBits(v);
            && (e > 0 ==> PLAT_VAL <= v / Pow2(e) < 2 * PLAT_VAL) && v / Pow2(e) < 2 * PLAT_VAL
            && ValToIdx(v) == if e <= 17 then PLAT_VAL * e + v / Pow2(e) else PLAT_NR - 1
  {
    var m := Msb(v);
    var e := ErrorBits(v);
    if m <= PLAT_BITS {
      SmallMsb(v);
      assert Pow2(0) == 1;
    } else {
      LeadingBits(v, m, e);
    }
  }

  lemma LeadingBits(v: nat, m: nat, e: nat)
    requires Pow2(m) <= v < Pow2(m + 1) && m == e + PLAT_BITS
    ensures PLAT_VAL <= v / Pow2(e) < 2 * PLAT_VAL
  {
    Pow2Add(PLAT_BITS, e);
    Pow2Add(PLAT_BITS + 1, e);
    assert Pow2(6) == 64 && Pow2(7) == 128;
    QuotientBounds(v, Pow2(e), 64, 128);
  }

  lemma QuotientBounds(v: nat, p: nat, lo: nat, hi: nat)
    requires p > 0 && lo * p <= v < hi * p
    ensures lo <= v / p < hi
  {
    DivideBounds(v, p);
    if v / p < lo {
      BlockBounds(p, v / p, lo);
    } else if hi <= v / p {
      TimesMonotone(p, hi, v / p);
    }
  }

  // ---- the bucket of an index ----

  /** The smallest value of a bucket. */
  function Low(i: nat): nat
  {
    if i < 2 * PLAT_VAL then i else (PLAT_VAL + i % PLAT_VAL) * Pow2(i / PLAT_VAL - 1)
  }

  /** The number of values in a bucket. */
  function Width(i: nat): (w: nat)
    ensures w > 0
  {
    if i < 2 * PLAT_VAL then 1 else Pow2(i / PLAT_VAL - 1)
  }

  /** The value that stands for a bucket lies in its middle. */
  lemma MiddleOfBucket(i: nat)
    ensures IdxToVal(i) == Low(i) + Width(i) / 2
  {
    hide Pow2;
    if i >= 2 * PLAT_VAL {
      var e, k := i / PLAT_VAL - 1, i % PLAT_VAL;
      Halved(e);
      SixBits(e);
      HalfSteps(Pow2(e - 1), k);
    }
  }

  lemma Halved(e: nat)
    requires e > 0
    ensures Pow2(e) == 2 * Pow2(e - 1)
  {}

  lemma SixBits(e: nat)
    ensures Pow2(e + PLAT_BITS) == PLAT_VAL * Pow2(e)
  {
    Pow2Add(PLAT_BITS, e);
    assert Pow2(6) == 64;
  }

  lemma HalfSteps(p: nat, k: nat)
    ensures (2 * k + 1) * (2 * p) / 2 == (2 * k + 1) * p
    ensures 64 * (2 * p) + (2 * k + 1) * p == (64 + k) * (2 * p) + p
  {
    assert (2 * k + 1) * (2 * p) == 2 * ((2 * k + 1) * p);
  }

  /** A value below 2^24 lies in the bucket of its index. */
  lemma InBucket(v: nat)
    requires v < Pow2(24)
    ensures var i := ValToIdx(v); Low(i) <= v < Low(i) + Width(i)
  {
    hide ValToIdx, Msb;
    IdxForm(v);
    TrackedBits(v);
    var e, i := ErrorBits(v), ValToIdx(v);
    if e == 0 {
      assert Pow2(0) == 1;
    } else {
      var q := v / Pow2(e);
      assert i / PLAT_VAL == e + 1 && i % PLAT_VAL == q - PLAT_VAL;
      DivideBounds(v, Pow2(e));
      assert Low(i) == q * Pow2(e);
    }
  }

  lemma TrackedBits(v: nat)
    requires v < Pow2(24)
    ensures ErrorBits(v) <= 17
  {
    if Msb(v) >= 24 {
      Pow2Monotone(24, Msb(v));
    }
  }

  /** A value in bucket i, clear of the last one, has index i. */
  lemma IndexOfBucket(v: nat, i: nat)
    requires i < PLAT_NR && Low(i) <= v < Low(i) + Width(i)
    ensures ValToIdx(v) == i
  {
    hide Msb, ValToIdx, Pow2, ErrorBits;
    IdxForm(v);
    if i < 2 * PLAT_VAL {
      SmallIndex(v);
    } else {
      var e, k := i / PLAT_VAL - 1, i % PLAT_VAL;
      MsbOfBucket(v, e, k);
      var p, r := Pow2(e), v - Low(i);
      DivideBlocks(PLAT_VAL + k, p, r);
    }
  }

  lemma SmallIndex(v: nat)
    requires v < 2 * PLAT_VAL
    ensures ErrorBits(v) == 0 && ValToIdx(v) == v
  {
    assert Pow2(7) == 128;
    if Msb(v) >= 7 {
      Pow2Monotone(7, Msb(v));
    }
  }

  lemma MsbOfBucket(v: nat, e: nat, k: nat)
    requires 0 < e && k < PLAT_VAL && (PLAT_VAL + k) * Pow2(e) <= v < (PLAT_VAL + k) * Pow2(e) + Pow2(e)
    ensures ErrorBits(v) == e
  {
    Pow2Add(PLAT_BITS, e);
    Pow2Add(PLAT_BITS + 1, e);
    assert Pow2(6) == 64 && Pow2(7) == 128;
    TimesMonotone(Pow2(e), PLAT_VAL, PLAT_VAL + k);
    BlockBounds(Pow2(e), PLAT_VAL + k, 128);
    MsbIs(v, e + PLAT_BITS);
  }

  lemma MsbIs(v: nat, m: nat)
    requires Pow2(m) <= v < Pow2(m + 1)
    ensures Msb(v) == m
  {
    if Msb(v) < m {
      Pow2Monotone(Msb(v) + 1, m);
    } else if m < Msb(v) {
      Pow2Monotone(m + 1, Msb(v));
    }
  }

  /** Every index is the index of the value that stands for it. */
  lemma IndexRoundTrip(i: nat)
    requires i < PLAT_NR
    ensures ValToIdx(IdxToVal(i)) == i
  {
    MiddleOfBucket(i);
    IndexOfBucket(IdxToVal(i), i);
  }

  /** Larger values have larger indexes. */
  lemma IndexMonotone(v: nat, w: nat)
    requires v <= w
    ensures ValToIdx(v) <= ValToIdx(w)
  {
    hide ValToIdx, Msb;
    IdxForm(v);
    IdxForm(w);
    var e, f := ErrorBits(v), ErrorBits(w);
    BitsMonotone(v, w);
    if e == f {
      QuotientMonotone(v, w, Pow2(e));
    }
  }

  lemma BitsMonotone(v: nat, w: nat)
    requires v <= w
    ensures ErrorBits(v) <= ErrorBits(w)
  {
    if Msb(w) < Msb(v) {
      Pow2Monotone(Msb(w) + 1, Msb(v));
    }
  }

  lemma QuotientMonotone(v: nat, w: nat, p: nat)
    requires v <= w && p > 0
    ensures v / p <= w / p
  {
    DivideBounds(v, p);
    DivideBounds(w, p);
    if w / p < v / p {
      BlockBounds(p, w / p, v / p);
    }
  }

  /** v is off from s by at most 1/128 of s. */
  predicate Close(v: int, s: int)
  {
    128 * (v - s) <= s && 128 * (s - v) <= s
  }

  /** The value reported for a sample is off by at most 1/128 of it. */
  lemma WithinOnePart128(v: nat)
    requires v < Pow2(24)
    ensures Close(IdxToVal(ValToIdx(v)), v)
  {
    hide ValToIdx, IdxToVal;
    var i := ValToIdx(v);
    InBucket(v);
    MiddleOfBucket(i);
    if i >= 2 * PLAT_VAL {
      var e := i / PLAT_VAL - 1;
      assert Pow2(e) == 2 * Pow2(e - 1);
      TimesMonotone(Pow2(e), PLAT_VAL, PLAT_VAL + i % PLAT_VAL);
    }
  }
}
