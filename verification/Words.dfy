/**
  The 32-bit machine words behind the block maps and the allocator bitmap.

  A word is the sequence of its bits, least significant first, and the bitwise operators of C act
  on it position by position. `MaskValue` ties the masks the loops build with `(1 << n) - 1` to
  their numeric value.
 */
module Words {

  const WORD_BITS: nat := 32

  type Word = w: seq<bool> | |w| == WORD_BITS witness Repeat(false, WORD_BITS)

  function Repeat<T>(x: T, n: nat): (r: seq<T>)
    ensures |r| == n && forall j | 0 <= j < n :: r[j] == x
  {
    if n == 0 then [] else Repeat(x, n - 1) + [x]
  }

  const ZERO: Word := Repeat(false, WORD_BITS)

  /** The word `-1U`. */
  const ALL_ONES: Word := Repeat(true, WORD_BITS)

  function And(a: Word, b: Word): (r: Word)
    ensures forall j | 0 <= j < WORD_BITS :: r[j] == (a[j] && b[j])
  {
    seq(WORD_BITS, j requires 0 <= j < WORD_BITS => a[j] && b[j])
  }

  function Or(a: Word, b: Word): (r: Word)
    ensures forall j | 0 <= j < WORD_BITS :: r[j] == (a[j] || b[j])
  {
    seq(WORD_BITS, j requires 0 <= j < WORD_BITS => a[j] || b[j])
  }

  function Not(a: Word): (r: Word)
    ensures forall j | 0 <= j < WORD_BITS :: r[j] == !a[j]
  {
    seq(WORD_BITS, j requires 0 <= j < WORD_BITS => !a[j])
  }

  function ShiftLeft(a: Word, n: nat): (r: Word)
    ensures forall j | 0 <= j < WORD_BITS :: r[j] == (n <= j && a[j - n])
  {
    seq(WORD_BITS, j requires 0 <= j < WORD_BITS => n <= j && a[j - n])
  }

  function ShiftRight(a: Word, n: nat): (r: Word)
    ensures forall j | 0 <= j < WORD_BITS :: r[j] == (j + n < WORD_BITS && a[j + n])
  {
    seq(WORD_BITS, j requires 0 <= j < WORD_BITS => j + n < WORD_BITS && a[j + n])
  }

  /** `(1 << n) - 1`: the n low bits. */
  function LowMask(n: nat): (r: Word)
    requires n <= WORD_BITS
    ensures forall j | 0 <= j < WORD_BITS :: r[j] == (j < n)
  {
    seq(WORD_BITS, j => j < n)
  }

  /** n ones from bit i up, with the full-word case written apart as in the loops that build it. */
  function Mask(n: nat, i: nat): (r: Word)
    requires n + i <= WORD_BITS
    ensures forall j | 0 <= j < WORD_BITS :: r[j] == (i <= j < i + n)
  {
    if n == WORD_BITS then ALL_ONES else ShiftLeft(LowMask(n), i)
  }

  // ---- numeric value ----

  function Pow2(n: nat): (r: nat)
    ensures r >= 1
  {
    if n == 0 then 1 else 2 * Pow2(n - 1)
  }

  lemma {:induction false} Pow2Add(a: nat, b: nat)
    ensures Pow2(a + b) == Pow2(a) * Pow2(b)
  {
    if a > 0 {
      Pow2Add(a - 1, b);
      assert Pow2(a + b) == 2 * Pow2(a - 1 + b);
      assert Pow2(a) * Pow2(b) == 2 * (Pow2(a - 1) * Pow2(b));
    }
  }

  lemma {:induction false} Pow2Monotone(a: nat, b: nat)
    requires a <= b
    ensures Pow2(a) <= Pow2(b)
  {
    if a < b {
      Pow2Monotone(a, b - 1);
    }
  }

  lemma TwoTo32()
    ensures Pow2(32) == 0x1_0000_0000
  {
    Pow2Add(16, 16);
    Pow2Add(8, 8);
    assert Pow2(8) == 256;
  }

  /** The number that a run of bits, least significant first, stands for. */
  function Value(bits: seq<bool>): nat
  {
    if bits == [] then 0 else (if bits[0] then 1 else 0) + 2 * Value(bits[1..])
  }

  lemma {:induction false} ValueOfRun(bits: seq<bool>, i: nat, n: nat)
    requires i + n <= |bits|
    requires forall j | 0 <= j < |bits| :: bits[j] == (i <= j < i + n)
    ensures Value(bits) == (Pow2(n) - 1) * Pow2(i)
    decreases |bits|
  {
    if |bits| == 0 {
    } else if i > 0 {
      ValueOfRun(bits[1..], i - 1, n);
    } else if n > 0 {
      ValueOfRun(bits[1..], 0, n - 1);
    } else {
      ValueOfRun(bits[1..], 0, 0);
    }
  }

  /** The masks of the map loops are the numbers `((1 << n) - 1) << i`. */
  lemma MaskValue(n: nat, i: nat)
    requires n + i <= WORD_BITS
    ensures Value(Mask(n, i)) == (Pow2(n) - 1) * Pow2(i)
  {
    ValueOfRun(Mask(n, i), i, n);
  }
}
