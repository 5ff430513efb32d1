/** Which run of free blocks the search of smalloc.c comes to, and which runs it passes by. */
module SmallocSearch {
  import opened Words
  import opened BitMaps
  import opened Basics

  /** The first clear bit at or after p, or the end. */
  ghost function NextClear(bits: seq<bool>, p: nat): (c: nat)
    ensures p <= c && (forall b | p <= b < c :: b < |bits| && bits[b]) && (c < |bits| ==> !bits[c])
    decreases |bits| - p
  {
    if p >= |bits| || !bits[p] then p else NextClear(bits, p + 1)
  }

  /** Where to go on when nr blocks from c on are not all free: past them, or at the start of the word they end in. */
  function Jump(c: nat, nr: nat): (q: nat)
    ensures q <= c + nr && (nr > 0 ==> c < q)
  {
    if c % WORD_BITS + nr < WORD_BITS then c + nr else (c + nr) / WORD_BITS * WORD_BITS
  }

  /** The search for nr free blocks from block p on. */
  ghost function Search(bits: seq<bool>, p: nat, nr: nat): Option<nat>
    decreases |bits| - p
  {
    var c := NextClear(bits, p);
    if c >= |bits| then None
    else if AllAre(bits, c, c + nr, false) then Some(c)
    else Search(bits, Jump(c, nr), nr)
  }

  /** next_non_full after the search: the word behind the last full word that it came to, if it came to any. */
  ghost function Hint(bits: seq<bool>, p: nat, nr: nat, hint: nat): nat
    decreases |bits| - p
  {
    var c := NextClear(bits, p);
    var h := Passed(p, c, hint);
    if c >= |bits| || AllAre(bits, c, c + nr, false) then h else Hint(bits, Jump(c, nr), nr, h)
  }

  /** Every word from p on that ends by c is full. */
  function Passed(p: nat, c: nat, hint: nat): nat
  {
    if p + WORD_BITS <= c / WORD_BITS * WORD_BITS then c / WORD_BITS else hint
  }

  /** What the search finds is free. */
  lemma {:induction false} SearchSound(bits: seq<bool>, p: nat, nr: nat)
    ensures var r := Search(bits, p, nr);
            r.Some? ==> p <= r.value < |bits| && AllAre(bits, r.value, r.value + nr, false)
    decreases |bits| - p
  {
    var c := NextClear(bits, p);
    if c < |bits| && !AllAre(bits, c, c + nr, false) {
      SearchSound(bits, Jump(c, nr), nr);
    }
  }

  /** The search succeeds if some free run is nearly twice as long as needed; a shorter one it may jump over. */
  lemma {:induction false} LongRunFound(bits: seq<bool>, p: nat, nr: nat, a: nat, n: nat)
    requires p <= a && 0 < nr <= n && 2 * nr <= n + 2 && AllAre(bits, a, a + n, false)
    ensures Search(bits, p, nr).Some?
    decreases |bits| - p
  {
    var c := NextClear(bits, p);
    assert !bits[a];
    if !AllAre(bits, c, c + nr, false) {
      var q := Jump(c, nr);
      if q <= a {
        LongRunFound(bits, q, nr, a, n);
      } else {
        var b :| c <= b < c + nr && bits[b];
        assert b < a;
        assert NextClear(bits, q) == q;
        assert AllAre(bits, q, q + nr, false);
      }
    }
  }

  /** A single block is found exactly if one is free at or after the place where the search starts. */
  lemma OneBlockFound(bits: seq<bool>, p: nat)
    ensures Search(bits, p, 1).Some? <==> exists b | p <= b < |bits| :: !bits[b]
  {
    SearchSound(bits, p, 1);
    if b :| p <= b < |bits| && !bits[b] {
      LongRunFound(bits, p, 1, b, 1);
    }
  }

  /** Three free blocks that are passed by: the search tries block 0, then block 3, in the middle of the run. */
  lemma ShortRunMissed(bits: seq<bool>)
    requires bits == [false, true, false, false, false] + Repeat(true, 27)
    ensures AllAre(bits, 2, 5, false) && BitMaps.Clear(bits) >= 3 && Search(bits, 0, 3) == None
  {
    assert bits[1] && bits[5] && forall b | 5 <= b < 32 :: bits[b];
    assert NextClear(bits, 0) == 0 && Jump(0, 3) == 3;
    assert NextClear(bits, 3) == 3 && Jump(3, 3) == 6;
    assert NextClear(bits, 6) >= |bits|;
    assert Search(bits, 6, 3) == None;
    assert Search(bits, 3, 3) == Search(bits, 6, 3);
    FreeBound(bits, 2, 3);
  }

  /** A free run is counted among the clear bits. */
  lemma FreeBound(bits: seq<bool>, a: nat, n: nat)
    requires AllAre(bits, a, a + n, false)
    ensures n <= BitMaps.Clear(bits)
  {
    ClearWith(bits, a, n, true);
  }

  // ---- steps of the loop ----

  lemma {:induction false} SkipBusy(bits: seq<bool>, p: nat, q: nat, nr: nat)
    requires p <= q && forall b | p <= b < q :: b < |bits| && bits[b]
    ensures Search(bits, p, nr) == Search(bits, q, nr) && NextClear(bits, p) == NextClear(bits, q)
    decreases q - p
  {
    if p < q {
      assert NextClear(bits, p) == NextClear(bits, p + 1);
      SkipBusy(bits, p + 1, q, nr);
    }
  }

  /** The rest of a word is busy: the search goes on in the next word, and knows if the word was full. */
  lemma SkipWord(bits: seq<bool>, i: nat, last: nat, nr: nat, hint: nat)
    requires last < WORD_BITS && WORD_BITS * (i + 1) <= |bits|
    requires forall b | WORD_BITS * i + last <= b < WORD_BITS * (i + 1) :: bits[b]
    ensures Search(bits, WORD_BITS * i + last, nr) == Search(bits, WORD_BITS * (i + 1), nr)
    ensures Hint(bits, WORD_BITS * i + last, nr, hint)
            == Hint(bits, WORD_BITS * (i + 1), nr, if last == 0 then i + 1 else hint)
  {
    var p, q := WORD_BITS * i + last, WORD_BITS * (i + 1);
    SkipBusy(bits, p, q, nr);
    PassedWord(i, last, NextClear(bits, p), hint);
  }

  lemma PassedWord(i: nat, last: nat, c: nat, hint: nat)
    requires last < WORD_BITS && WORD_BITS * (i + 1) <= c
    ensures Passed(WORD_BITS * i + last, c, hint) == Passed(WORD_BITS * (i + 1), c, if last == 0 then i + 1 else hint)
  {}

  /** One probe: block c is the first free one from p on. */
  lemma Probe(bits: seq<bool>, p: nat, c: nat, nr: nat)
    requires p <= c < |bits| && !bits[c] && forall b | p <= b < c :: bits[b]
    ensures NextClear(bits, p) == c
    ensures Search(bits, p, nr) == if AllAre(bits, c, c + nr, false) then Some(c) else Search(bits, Jump(c, nr), nr)
    ensures forall hint: nat ::
              Hint(bits, p, nr, hint)
              == if AllAre(bits, c, c + nr, false) then Passed(p, c, hint)
                 else Hint(bits, Jump(c, nr), nr, Passed(p, c, hint))
  {}

  lemma SameWord(i: nat, last: nat, c: nat, hint: nat)
    requires last <= c < WORD_BITS
    ensures Passed(WORD_BITS * i + last, WORD_BITS * i + c, hint) == hint
  {}

  /** Nothing is left to search. */
  lemma AtEnd(bits: seq<bool>, p: nat, nr: nat, hint: nat)
    requires p >= |bits|
    ensures Search(bits, p, nr) == None && Hint(bits, p, nr, hint) == hint
  {}
}
