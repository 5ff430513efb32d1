/** Byte sequences: little-endian fields, slices and overwriting. */
module Bytes {

  newtype byte = x: int | 0 <= x < 256

  function Pow256(n: nat): (r: nat)
    ensures r >= 1
  {
    if n == 0 then 1 else 256 * Pow256(n - 1)
  }

  /** The n low bytes of v, least significant first. */
  function Encode(v: nat, n: nat): (r: seq<byte>)
    ensures |r| == n
  {
    if n == 0 then [] else [(v % 256) as byte] + Encode(v / 256, n - 1)
  }

  function Decode(s: seq<byte>): (v: nat)
    ensures v < Pow256(|s|)
  {
    if s == [] then 0 else s[0] as nat + 256 * Decode(s[1..])
  }

  lemma {:induction false} DecodeEncode(v: nat, n: nat)
    requires v < Pow256(n)
    ensures Decode(Encode(v, n)) == v
  {
    if n > 0 {
      DecodeEncode(v / 256, n - 1);
      assert Encode(v, n)[1..] == Encode(v / 256, n - 1);
    }
  }

  lemma {:induction false} EncodeDecode(s: seq<byte>)
    ensures Encode(Decode(s), |s|) == s
  {
    if s != [] {
      EncodeDecode(s[1..]);
      assert Decode(s) % 256 == s[0] as nat && Decode(s) / 256 == Decode(s[1..]);
    }
  }

  /** A field reads as v exactly if its bytes are those of v. */
  lemma FieldIs(s: seq<byte>, v: nat)
    ensures Decode(s) == v <==> v < Pow256(|s|) && s == Encode(v, |s|)
  {
    EncodeDecode(s);
    if v < Pow256(|s|) {
      DecodeEncode(v, |s|);
    }
  }

  /** Byte i of an encoded number is its digit i to base 256: least significant first. */
  lemma {:induction false} EncodeDigit(v: nat, n: nat, i: nat)
    requires i < n
    ensures Encode(v, n)[i] as nat == v / Pow256(i) % 256
  {
    if i > 0 {
      EncodeDigit(v / 256, n - 1, i - 1);
      DivideTwice(v, 256, Pow256(i - 1));
    }
  }

  lemma DivideTwice(v: nat, a: nat, b: nat)
    requires a > 0 && b > 0
    ensures v / a / b == v / (a * b)
  {
    var q, x := v / a, v % a;
    var r, y := q / b, q % b;
    Quotient(v, a);
    Quotient(q, b);
    BlockBounds(a, y, b);
    assert (r * b + y) * a + x == r * (a * b) + (y * a + x) by {
      assert (r * b + y) * a == r * b * a + y * a;
      assert r * b * a == r * (a * b);
    }
    DivideBlocks(r, a * b, y * a + x);
  }

  lemma Quotient(v: nat, a: nat)
    requires a > 0
    ensures v == v / a * a + v % a
  {}

  /** The n bytes of s from position i on. */
  function Slice(s: seq<byte>, i: nat, n: nat): (r: seq<byte>)
    requires i + n <= |s|
    ensures |r| == n
    ensures forall j | 0 <= j < n :: r[j] == s[i + j]
  {
    s[i..i + n]
  }

  /** s with the bytes d written at position i. */
  function Splice(s: seq<byte>, i: nat, d: seq<byte>): (r: seq<byte>)
    requires i + |d| <= |s|
    ensures |r| == |s|
    ensures forall j | 0 <= j < |s| :: r[j] == if i <= j < i + |d| then d[j - i] else s[j]
  {
    s[..i] + d + s[i + |d|..]
  }

  lemma SliceSplice(s: seq<byte>, i: nat, d: seq<byte>, k: nat, n: nat)
    requires i + |d| <= |s| && k + n <= |s|
    ensures k == i && n == |d| ==> Slice(Splice(s, i, d), k, n) == d
    ensures k + n <= i || i + |d| <= k ==> Slice(Splice(s, i, d), k, n) == Slice(s, k, n)
  {}

  lemma SpliceNested(base: seq<byte>, p: nat, b: seq<byte>, i: nat, d: seq<byte>)
    requires p + |b| <= |base| && i + |d| <= |b|
    ensures Splice(Splice(base, p, b), p + i, d) == Splice(base, p, Splice(b, i, d))
  {}

  lemma SliceNested(s: seq<byte>, p: nat, n: nat, i: nat, m: nat)
    requires p + n <= |s| && i + m <= n
    ensures Slice(Slice(s, p, n), i, m) == Slice(s, p + i, m)
  {}

  lemma SpliceOfSlice(s: seq<byte>, p: nat, n: nat)
    requires p + n <= |s|
    ensures Splice(s, p, Slice(s, p, n)) == s
  {}

  /** memcpy into a buffer. */
  method Put(buf: array<byte>, p: nat, d: seq<byte>)
    requires p + |d| <= buf.Length
    modifies buf
    ensures buf[..] == Splice(old(buf[..]), p, d)
  {
    for i := 0 to |d|
      invariant forall j | 0 <= j < buf.Length :: buf[j] == if p <= j < p + i then d[j - p] else old(buf[j])
    {
      buf[p + i] := d[i];
    }
  }

  // ---- buffers as rows of equal blocks ----

  lemma BlockBounds(inc: nat, j: nat, k: nat)
    requires j < k
    ensures j * inc + inc <= k * inc
  {
    assert (j + 1) * inc <= k * inc;
  }

  lemma TimesMonotone(inc: nat, j: nat, k: nat)
    requires j <= k
    ensures j * inc <= k * inc
  {}

  lemma DivideBlocks(b: nat, m: nat, r: nat)
    requires r < m
    ensures (b * m + r) / m == b
  {
    var q := (b * m + r) / m;
    DivideBounds(b * m + r, m);
    if q < b {
      BlockBounds(m, q, b);
    } else if b < q {
      BlockBounds(m, b, q);
    }
  }

  lemma DivideBounds(x: nat, m: nat)
    requires m > 0
    ensures (x / m) * m <= x < (x / m) * m + m
  {
    assert x == m * (x / m) + x % m;
  }

  lemma NextBlock(inc: nat, k: nat, n: nat)
    requires k * inc < n * inc
    ensures k < n && (k + 1) * inc == k * inc + inc <= n * inc
  {
    if n <= k {
      TimesMonotone(inc, n, k);
    } else {
      BlockBounds(inc, k, n);
    }
  }

  lemma LastBlock(inc: nat, k: nat, n: nat)
    requires 0 < inc && k <= n && n * inc <= k * inc
    ensures k == n
  {
    if k < n {
      BlockBounds(inc, k, n);
    }
  }

  /** The number of blocks that len bytes take up, the last one perhaps in part. */
  function BlockCount(len: nat, bs: nat): (n: nat)
    requires bs > 0
    ensures len > 0 ==> n > 0
  {
    (len + bs - 1) / bs
  }

  lemma CountBounds(len: nat, bs: nat)
    requires bs > 0
    ensures len <= BlockCount(len, bs) * bs < len + bs
  {
    DivideBounds(len + bs - 1, bs);
  }

  /** The blocks from the one that pos lies in on end no later than those of any size the range fits into. */
  lemma RangeCount(pos: nat, len: nat, size: nat, bs: nat)
    requires bs > 0 && pos + len <= size
    ensures pos / bs + BlockCount(len, bs) <= BlockCount(size, bs)
  {
    hide BlockCount;
    var q, n, m := pos / bs, BlockCount(len, bs), BlockCount(size, bs);
    DivideBounds(pos, bs);
    CountBounds(len, bs);
    CountBounds(size, bs);
    assert (q + n) * bs == q * bs + n * bs;
    if m < q + n {
      BlockBounds(bs, m, q + n);
    }
  }

  /** Block k of a buffer of n blocks. */
  function BlockOf(s: seq<byte>, inc: nat, n: nat, k: nat): (r: seq<byte>)
    requires k < n && |s| == n * inc
    ensures |r| == inc
  {
    BlockBounds(inc, k, n);
    Slice(s, k * inc, inc)
  }

  lemma BlockOfSplice(s: seq<byte>, inc: nat, n: nat, k: nat, d: seq<byte>, j: nat)
    requires k < n && j < n && |s| == n * inc && |d| == inc && k * inc + inc <= |s|
    ensures BlockOf(Splice(s, k * inc, d), inc, n, j) == if j == k then d else BlockOf(s, inc, n, j)
  {
    BlockBounds(inc, j, n);
    if j < k {
      BlockBounds(inc, j, k);
    } else if k < j {
      BlockBounds(inc, k, j);
    }
    SliceSplice(s, k * inc, d, j * inc, inc);
  }
}
