/** One bit per block, packed into words: the allocator's bitmap and the random map of a file. */
module BitMaps {
  import opened Words

  ghost predicate AllAre(bits: seq<bool>, lo: nat, hi: nat, v: bool)
  {
    hi <= |bits| && forall b | lo <= b < hi :: bits[b] == v
  }

  /** The bits with lo, ..., lo + n - 1 set to v. */
  function With(bits: seq<bool>, lo: nat, n: nat, v: bool): (r: seq<bool>)
    requires lo + n <= |bits|
    ensures |r| == |bits|
    ensures forall b | 0 <= b < |bits| :: r[b] == if lo <= b < lo + n then v else bits[b]
  {
    bits[..lo] + Repeat(v, n) + bits[lo + n..]
  }

  lemma WithWith(bits: seq<bool>, lo: nat, n: nat, m: nat, v: bool)
    requires lo + n + m <= |bits|
    ensures With(With(bits, lo, n, v), lo + n, m, v) == With(bits, lo, n + m, v)
  {}

  // ---- counting ----

  function Clear(bits: seq<bool>): nat
  {
    if bits == [] then 0 else (if bits[0] then 0 else 1) + Clear(bits[1..])
  }

  lemma {:induction false} ClearConcat(a: seq<bool>, b: seq<bool>)
    ensures Clear(a + b) == Clear(a) + Clear(b)
  {
    if a == [] {
      assert a + b == b;
    } else {
      assert (a + b)[1..] == a[1..] + b;
      ClearConcat(a[1..], b);
    }
  }

  lemma {:induction false} ClearRepeat(v: bool, n: nat)
    ensures Clear(Repeat(v, n)) == if v then 0 else n
  {
    if n > 0 {
      ClearRepeat(v, n - 1);
      ClearConcat(Repeat(v, n - 1), [v]);
      assert Clear([v]) == if v then 0 else 1;
    }
  }

  /** Flipping a uniform run of n bits changes the number of clear bits by n. */
  lemma ClearWith(bits: seq<bool>, lo: nat, n: nat, v: bool)
    requires lo + n <= |bits| && AllAre(bits, lo, lo + n, !v)
    ensures Clear(With(bits, lo, n, v)) == if v then Clear(bits) - n else Clear(bits) + n
  {
    var a, c := bits[..lo], bits[lo + n..];
    assert bits == a + Repeat(!v, n) + c;
    ClearConcat(a + Repeat(!v, n), c);
    ClearConcat(a, Repeat(!v, n));
    ClearConcat(a + Repeat(v, n), c);
    ClearConcat(a, Repeat(v, n));
    ClearRepeat(v, n);
    ClearRepeat(!v, n);
  }

  // ---- masks ----

  lemma MaskTest(w: Word, n: nat, i: nat)
    requires n + i <= WORD_BITS
    ensures And(w, Mask(n, i)) == ZERO <==> forall j | i <= j < i + n :: !w[j]
    ensures And(w, Mask(n, i)) == Mask(n, i) <==> forall j | i <= j < i + n :: w[j]
  {
    var m, a := Mask(n, i), And(w, Mask(n, i));
    assert forall j | 0 <= j < WORD_BITS :: a[j] == (w[j] && i <= j < i + n);
    assert a == ZERO ==> forall j | 0 <= j < WORD_BITS :: !a[j];
    assert a == m ==> forall j | 0 <= j < WORD_BITS :: a[j] == (i <= j < i + n);
  }

  lemma MaskEffect(w: Word, n: nat, i: nat, j: nat)
    requires n + i <= WORD_BITS && j < WORD_BITS
    ensures Or(w, Mask(n, i))[j] == if i <= j < i + n then true else w[j]
    ensures And(w, Not(Mask(n, i)))[j] == if i <= j < i + n then false else w[j]
  {}

  class BitMap {
    const words: array<Word>
    ghost var bits: seq<bool>

    ghost predicate Valid()
      reads this, words
    {
      && |bits| == WORD_BITS * words.Length
      && forall i, j {:trigger words[i][j]} ::
           0 <= i < words.Length && 0 <= j < WORD_BITS ==> words[i][j] == bits[WORD_BITS * i + j]
    }

    /** num words, all clear. */
    constructor (num: nat)
      ensures Valid() && fresh(words) && words.Length == num && bits == Repeat(false, WORD_BITS * num)
    {
      words := new Word[num](_ => ZERO);
      bits := Repeat(false, WORD_BITS * num);
    }

    method ClearAll()
      requires Valid()
      modifies this, words
      ensures Valid() && bits == Repeat(false, |old(bits)|)
    {
      for i := 0 to words.Length
        invariant |bits| == |old(bits)| && forall k | 0 <= k < i :: words[k] == ZERO
      {
        words[i] := ZERO;
      }
      bits := Repeat(false, |bits|);
    }

    /** Whether none of the n bits from bit i of a word on is set. */
    method MaskClear(idx: nat, n: nat, i: nat) returns (clear: bool)
      requires Valid() && idx < words.Length && n + i <= WORD_BITS
      ensures clear <==> AllAre(bits, WORD_BITS * idx + i, WORD_BITS * idx + i + n, false)
    {
      clear := And(words[idx], Mask(n, i)) == ZERO;
      MaskTest(words[idx], n, i);
      InWord(idx, n, i, false);
    }

    lemma InWord(idx: nat, n: nat, i: nat, v: bool)
      requires Valid() && idx < words.Length && n + i <= WORD_BITS
      ensures (forall j | i <= j < i + n :: words[idx][j] == v)
              <==> AllAre(bits, WORD_BITS * idx + i, WORD_BITS * idx + i + n, v)
    {
      if AllAre(bits, WORD_BITS * idx + i, WORD_BITS * idx + i + n, v) {
        forall j | i <= j < i + n ensures words[idx][j] == v {
          assert bits[WORD_BITS * idx + j] == v;
        }
      }
      if forall j | i <= j < i + n :: words[idx][j] == v {
        forall b | WORD_BITS * idx + i <= b < WORD_BITS * idx + i + n ensures bits[b] == v {
          assert words[idx][b - WORD_BITS * idx] == v;
        }
      }
    }

    method SetMask(idx: nat, n: nat, i: nat)
      requires Valid() && idx < words.Length && n + i <= WORD_BITS
      modifies this, words
      ensures Valid() && bits == With(old(bits), WORD_BITS * idx + i, n, true)
    {
      ghost var w := words[idx];
      words[idx] := Or(words[idx], Mask(n, i));
      bits := With(bits, WORD_BITS * idx + i, n, true);
      forall k, j | 0 <= k < words.Length && 0 <= j < WORD_BITS ensures words[k][j] == bits[WORD_BITS * k + j] {
        if k == idx {
          MaskEffect(w, n, i, j);
        }
      }
    }

    method ClearMask(idx: nat, n: nat, i: nat)
      requires Valid() && idx < words.Length && n + i <= WORD_BITS
      modifies this, words
      ensures Valid() && bits == With(old(bits), WORD_BITS * idx + i, n, false)
    {
      ghost var w := words[idx];
      words[idx] := And(words[idx], Not(Mask(n, i)));
      bits := With(bits, WORD_BITS * idx + i, n, false);
      forall k, j | 0 <= k < words.Length && 0 <= j < WORD_BITS ensures words[k][j] == bits[WORD_BITS * k + j] {
        if k == idx {
          MaskEffect(w, n, i, j);
        }
      }
    }
  }

  /** The first clear bit of a word at or after start, or WORD_BITS. */
  method FirstClear(w: Word, start: nat) returns (z: nat)
    requires start <= WORD_BITS
    ensures start <= z <= WORD_BITS && (forall j | start <= j < z :: w[j]) && (z < WORD_BITS ==> !w[z])
  {
    z := start;
    while z < WORD_BITS && w[z]
      invariant start <= z <= WORD_BITS && forall j | start <= j < z :: w[j]
    {
      z := z + 1;
    }
  }
}
