/** The ring buffer of fifo.c: free-running 32-bit counters over a buffer whose size is a power of two. */
module Fifo {
  import opened Bytes
  import opened Words
  import opened Basics

  // ---- positions ----

  /** i places on from start, around the ring. */
  function Pos(start: nat, i: nat, size: nat): (p: nat)
    requires start < size && i <= size
    ensures p < size
  {
    if start + i < size then start + i else start + i - size
  }

  /** The position a counter stands for: counter & (size - 1). */
  function Slot(counter: nat, size: nat): (p: nat)
    requires size > 0
    ensures p < size
  {
    counter % size
  }

  lemma ModTimes(c: nat, s: nat, x: nat)
    requires s > 0
    ensures (c * s + x) % s == x % s
  {
    Quotient(x, s);
    Remainder(c + x / s, s, x % s);
    assert (c + x / s) * s == c * s + x / s * s;
  }

  lemma Remainder(q: nat, s: nat, r: nat)
    requires r < s
    ensures (q * s + r) % s == r
  {
    DivideBlocks(q, s, r);
    Quotient(q * s + r, s);
  }

  lemma PowersDivide(k: nat)
    requires k <= 32
    ensures Pow2(32 - k) * Pow2(k) == U32
  {
    TwoTo32();
    Pow2Add(32 - k, k);
  }

  /** A counter may wrap around at 2^32: the size divides 2^32, so the position it stands for moves on all the same. */
  lemma CounterMoves(counter: nat, n: nat, k: nat)
    requires k <= 32 && n <= Pow2(k) && counter < U32
    ensures Slot((counter + n) % U32, Pow2(k)) == Pos(Slot(counter, Pow2(k)), n, Pow2(k))
  {
    hide Pow2;
    PowersDivide(k);
    MovesIn(counter, n, Pow2(k), Pow2(32 - k));
  }

  lemma MovesIn(counter: nat, n: nat, size: nat, m: nat)
    requires size > 0 && m * size == U32 && n <= size && counter < U32 && size <= U32
    ensures (counter + n) % U32 % size == Pos(counter % size, n, size)
  {
    var x := counter + n;
    WrapMod(x, size, m);
    var q, r := counter / size, counter % size;
    DivideBounds(counter, size);
    assert counter == q * size + r;
    ModTimes(q, size, r + n);
    PosMod(r, n, size);
  }

  lemma WrapMod(x: nat, size: nat, m: nat)
    requires size > 0 && m * size == U32 && x < 2 * U32
    ensures x % U32 % size == x % size
  {
    if x < U32 {
      SmallMod(x, U32);
    } else {
      ModSub(x);
      ModTimes(m, size, x - U32);
    }
  }

  lemma ModSub(x: nat)
    requires U32 <= x < 2 * U32
    ensures x % U32 == x - U32
  {}

  lemma PosMod(r: nat, n: nat, size: nat)
    requires r < size && n <= size
    ensures (r + n) % size == Pos(r, n, size)
  {
    if r + n >= size {
      ModTimes(1, size, r + n - size);
      SmallMod(r + n - size, size);
    } else {
      SmallMod(r + n, size);
    }
  }

  lemma SmallMod(x: nat, s: nat)
    requires x < s
    ensures x % s == x
  {}

  // ---- what is in the ring ----

  function Ring(b: seq<byte>, start: nat, n: nat): (r: seq<byte>)
    requires start < |b| && n <= |b|
    ensures |r| == n
  {
    seq(n, i requires 0 <= i < n => b[Pos(start, i, |b|)])
  }

  /** d written behind n bytes from start on, in two parts. */
  function Written(b: seq<byte>, start: nat, n: nat, d: seq<byte>): (r: seq<byte>)
    requires start < |b| && n + |d| <= |b|
    ensures |r| == |b|
  {
    var p := Pos(start, n, |b|);
    var l := Min(|d|, |b| - p);
    Splice(Splice(b, p, d[..l]), 0, d[l..])
  }

  lemma WrittenAt(b: seq<byte>, start: nat, n: nat, d: seq<byte>, i: nat)
    requires start < |b| && n + |d| <= |b| && i < n + |d|
    ensures Written(b, start, n, d)[Pos(start, i, |b|)] == if i < n then b[Pos(start, i, |b|)] else d[i - n]
  {
    hide Splice;
    var p, x := Pos(start, n, |b|), Pos(start, i, |b|);
    var l := Min(|d|, |b| - p);
    var c := Splice(b, p, d[..l]);
    assert i >= n ==> x == if i - n < l then p + (i - n) else i - n - l;
    assert Splice(c, 0, d[l..])[x] == if x < |d| - l then d[l..][x] else c[x];
  }

  /** Bytes written in two parts behind the contents follow them in the ring. */
  lemma PutRing(b: seq<byte>, start: nat, n: nat, d: seq<byte>)
    requires start < |b| && n + |d| <= |b|
    ensures Ring(Written(b, start, n, d), start, n + |d|) == Ring(b, start, n) + d
  {
    hide Written;
    forall i | 0 <= i < n + |d| ensures Ring(Written(b, start, n, d), start, n + |d|)[i] == (Ring(b, start, n) + d)[i] {
      WrittenAt(b, start, n, d, i);
    }
  }

  /** Bytes read in two parts are the first of the contents. */
  lemma GetRing(b: seq<byte>, start: nat, n: nat, k: nat)
    requires start < |b| && k <= n <= |b|
    ensures var l := Min(k, |b| - start);
            b[start..start + l] + b[..k - l] == Ring(b, start, n)[..k]
    ensures Ring(b, Pos(start, k, |b|), n - k) == Ring(b, start, n)[k..]
  {
    var l := Min(k, |b| - start);
    var r := b[start..start + l] + b[..k - l];
    forall i | 0 <= i < k ensures r[i] == Ring(b, start, n)[i] {}
    var s := Pos(start, k, |b|);
    var rest := Ring(b, start, n)[k..];
    forall i | 0 <= i < n - k ensures Ring(b, s, n - k)[i] == rest[i] {
      assert Pos(s, i, |b|) == Pos(start, k + i, |b|);
    }
  }

  class Fifo {
    const buffer: array<byte>
    const size: nat
    /** The exponent of the size. */
    ghost const k: nat
    var inCount: nat
    var outCount: nat
    ghost var contents: seq<byte>

    ghost predicate Valid()
      reads this, buffer
    {
      && k < 32 && size == Pow2(k) == buffer.Length && inCount < U32 && outCount < U32
      && |contents| <= size && size > 0 && inCount == (outCount + |contents|) % U32
      && contents == Ring(buffer[..], Slot(outCount, size), |contents|)
    }

    /** fifo_alloc of a power of two */
    constructor (size: nat, ghost k: nat)
      requires k < 32 && size == Pow2(k)
      ensures Valid() && contents == [] && this.size == size && fresh(buffer)
    {
      this.size, this.k, inCount, outCount, contents := size, k, 0, 0, [];
      buffer := new byte[size](_ => 0);
    }

    /** fifo_len */
    method Len() returns (n: nat)
      requires Valid()
      ensures n == |contents|
    {
      Counters();
      n := (inCount - outCount) % U32;
    }

    /** fifo_room */
    method Room() returns (n: nat)
      requires Valid()
      ensures n == size - |contents|
    {
      Counters();
      n := (size - inCount + outCount) % U32;
    }

    lemma Counters()
      requires Valid()
      ensures size < U32 && (inCount - outCount) % U32 == |contents|
              && (size - inCount + outCount) % U32 == size - |contents|
    {
      hide Ring, Slot, Pow2;
      SmallPower();
      if outCount + |contents| < U32 {
        assert inCount == outCount + |contents|;
      } else {
        ModSub(outCount + |contents|);
      }
    }

    lemma SmallPower()
      requires k < 32 && size == Pow2(k)
      ensures size < U32
    {
      TwoTo32();
      Pow2Monotone(k, 31);
      assert Pow2(32) == 2 * Pow2(31);
    }

    /** fifo_put: as many of the bytes as there is room for, in order, behind what is there. */
    method PutBytes(data: seq<byte>, len: nat) returns (n: nat)
      requires Valid() && len <= |data|
      modifies this, buffer
      ensures Valid() && n == Min(len, size - |old(contents)|) && contents == old(contents) + data[..n]
    {
      hide Ring, Pow2, Pos, Slot, Written;
      var room := Room();
      n := Min(len, room);
      ghost var start, c := Slot(outCount, size), |contents|;
      CounterMoves(outCount, c, k);
      PutRing(buffer[..], start, c, data[..n]);
      CopyIn(data[..n], start, c);
      AddCounters(outCount, c, n);
      inCount := (inCount + n) % U32;
      contents := contents + data[..n];
    }

    /** First up to the end of the buffer, then from its beginning. */
    method CopyIn(d: seq<byte>, ghost start: nat, ghost c: nat)
      requires size == buffer.Length > 0 && start < size && c + |d| <= size
               && Slot(inCount, size) == Pos(start, c, size)
      modifies buffer
      ensures buffer[..] == Written(old(buffer[..]), start, c, d)
    {
      hide Pos, Slot, Splice;
      var p := Slot(inCount, size);
      var l := Min(|d|, size - p);
      Put(buffer, p, d[..l]);
      Put(buffer, 0, d[l..]);
    }

    /** fifo_get; with no buffer the bytes are dropped. */
    method GetBytes(wanted: bool, len: nat) returns (data: seq<byte>, n: nat)
      requires Valid()
      modifies this
      ensures Valid() && n == Min(len, |old(contents)|) && contents == old(contents)[n..]
      ensures data == if wanted then old(contents)[..n] else []
      ensures contents == [] ==> inCount == outCount == 0
    {
      hide Ring, Pow2, Pos, Slot;
      var avail := Len();
      n := Min(len, avail);
      ghost var start := Slot(outCount, size);
      data := [];
      if wanted {
        data := CopyOut(n);
      }
      GetRing(buffer[..], start, |contents|, n);
      CounterMoves(outCount, n, k);
      AddCounters(outCount, n, |contents| - n);
      outCount := (outCount + n) % U32;
      contents := contents[n..];
      Drained();
      if inCount == outCount {
        Reset();
      }
    }

    method CopyOut(n: nat) returns (data: seq<byte>)
      requires Valid() && n <= |contents|
      ensures data == contents[..n]
    {
      hide Ring, Pow2, Pos, Slot;
      GetRing(buffer[..], Slot(outCount, size), |contents|, n);
      var p := Slot(outCount, size);
      var l := Min(n, size - p);
      data := buffer[p..p + l] + buffer[..n - l];
    }

    method Reset()
      requires Valid() && contents == []
      modifies `inCount, `outCount
      ensures Valid() && inCount == outCount == 0
    {
      inCount, outCount := 0, 0;
    }

    lemma Drained()
      requires Valid()
      ensures contents == [] <==> inCount == outCount
    {
      Counters();
    }
  }

  lemma AddCounters(a: nat, b: nat, c: nat)
    ensures ((a + b) % U32 + c) % U32 == (a + b + c) % U32
  {}
}
