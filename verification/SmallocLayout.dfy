/** Where smalloc.c puts an allocation: sizes in 32-bit arithmetic, blocks, header, user bytes and redzones. */
module SmallocLayout {
  import opened Words
  import opened BitMaps
  import opened Bytes
  import opened Basics

  const BLOCK: nat := 32
  const HEADER: nat := 8
  const REDZONE: nat := 4
  const PRE_RED: nat := 0xdeadbeef
  const POST_RED: nat := 0x5aa55aa5

  // ---- sizes, as 32-bit unsigned numbers ----

  function SizeToBlocks(size: nat): nat
  {
    (size + BLOCK - 1) % U32 / BLOCK
  }

  /** Header, user bytes and post-redzone word, rounded up to int alignment. */
  function AllocSize(size: nat): nat
  {
    ((size + HEADER + REDZONE) % U32 + 3) % U32 / 4 * 4
  }

  function Blocks(size: nat): nat
  {
    SizeToBlocks(AllocSize(size))
  }

  /** The sizes whose bookkeeping does not wrap around. */
  predicate Fits(size: nat)
  {
    size <= U32 - 44
  }

  /** The blocks taken for a request hold all of it exactly if nothing wraps around. */
  lemma LayoutFits(size: nat)
    requires size < U32
    ensures size + HEADER + REDZONE <= AllocSize(size) <= BLOCK * Blocks(size) <==> Fits(size)
    ensures Fits(size) ==>
              AllocSize(size) < size + 16 && BLOCK * Blocks(size) < AllocSize(size) + BLOCK && Blocks(size) > 0
    ensures AllocSize(size) % 4 == 0 && AllocSize(size) < U32
  {
    hide AllocSize, SizeToBlocks;
    if size + 15 < U32 {
      AllocPlain(size);
      if Fits(size) {
        BlocksPlain(AllocSize(size));
      } else {
        NoBlocks(AllocSize(size));
      }
    } else {
      AllocWraps(size);
    }
  }

  lemma AllocPlain(size: nat)
    requires size + 15 < U32
    ensures AllocSize(size) % 4 == 0 && size + 12 <= AllocSize(size) < size + 16
  {
    var a := size + HEADER + REDZONE;
    assert a % U32 == a && (a + 3) % U32 == a + 3;
    assert AllocSize(size) == (a + 3) / 4 * 4;
  }

  lemma AllocWraps(size: nat)
    requires size < U32 <= size + 15
    ensures AllocSize(size) % 4 == 0 && AllocSize(size) <= 12
  {}

  lemma BlocksPlain(alloc: nat)
    requires alloc + 31 < U32
    ensures alloc <= BLOCK * SizeToBlocks(alloc) < alloc + BLOCK
  {
    assert SizeToBlocks(alloc) == (alloc + 31) / 32;
  }

  lemma NoBlocks(alloc: nat)
    requires alloc < U32 <= alloc + 31
    ensures SizeToBlocks(alloc) == 0
  {}

  /** Sizes that wrap around: requests for almost 4 GB are answered with no block, or with one that is too small. */
  lemma HugeRequestWraps()
    ensures Blocks(U32 - 43) == 0 && AllocSize(U32 - 4) == 8
  {}

  // ---- blocks ----

  datatype Owner = Nobody | Of(s: nat)

  /** owner gives each busy block the first block of its allocation, live each first block the size asked for. */
  ghost predicate Owned(bits: seq<bool>, owner: seq<Owner>, live: map<nat, nat>)
  {
    && |owner| == |bits|
    && (forall b | 0 <= b < |bits| :: bits[b] == owner[b].Of?)
    && (forall b | 0 <= b < |bits| && owner[b].Of? ::
         owner[b].s in live && owner[b].s <= b < owner[b].s + Blocks(live[owner[b].s]))
    && (forall s <- live :: Fits(live[s]) && s + Blocks(live[s]) <= |bits|)
    && (forall s, b | s in live && s <= b < s + Blocks(live[s]) :: b < |owner| && owner[b] == Of(s))
  }

  /** Live allocations occupy disjoint blocks. */
  lemma LiveApart(bits: seq<bool>, owner: seq<Owner>, live: map<nat, nat>, s: nat, t: nat)
    requires Owned(bits, owner, live) && s in live && t in live && s < t
    ensures s + Blocks(live[s]) <= t
  {
    hide Blocks;
    LayoutFits(live[t]);
    assert owner[t] == Of(t);
  }

  /** A block is busy exactly if it belongs to a live allocation. */
  lemma BusyIffLive(bits: seq<bool>, owner: seq<Owner>, live: map<nat, nat>, b: nat)
    requires Owned(bits, owner, live) && b < |bits|
    ensures bits[b] <==> exists s <- live :: s <= b < s + Blocks(live[s])
  {
    if bits[b] {
      assert owner[b].s in live;
    }
  }

  /** The owners with n blocks from s on given to v. */
  ghost function WithRun(owner: seq<Owner>, s: nat, n: nat, v: Owner): (r: seq<Owner>)
    requires s + n <= |owner|
    ensures |r| == |owner| && forall b | 0 <= b < |r| :: r[b] == if s <= b < s + n then v else owner[b]
  {
    seq(|owner|, b requires 0 <= b < |owner| => if s <= b < s + n then v else owner[b])
  }

  lemma OwnedAfterAlloc(bits: seq<bool>, owner: seq<Owner>, live: map<nat, nat>, s: nat, size: nat)
    requires Owned(bits, owner, live) && Fits(size) && AllAre(bits, s, s + Blocks(size), false)
    ensures s !in live && Owned(With(bits, s, Blocks(size), true), WithRun(owner, s, Blocks(size), Of(s)),
                                live[s := size])
  {
    hide Blocks;
    LayoutFits(size);
    assert !bits[s];
    if s in live {
      LayoutFits(live[s]);
    }
    var owner' := WithRun(owner, s, Blocks(size), Of(s));
    forall t, b | t in live && t <= b < t + Blocks(live[t]) ensures owner'[b] == Of(t) {
      assert owner[b] == Of(t) && bits[b];
    }
  }

  lemma OwnedAfterFree(bits: seq<bool>, owner: seq<Owner>, live: map<nat, nat>, s: nat)
    requires Owned(bits, owner, live) && s in live
    ensures s + Blocks(live[s]) <= |bits| && AllAre(bits, s, s + Blocks(live[s]), true)
    ensures Owned(With(bits, s, Blocks(live[s]), false), WithRun(owner, s, Blocks(live[s]), Nobody), live - {s})
  {
    hide Blocks;
    var owner' := WithRun(owner, s, Blocks(live[s]), Nobody);
    forall t, b | t in live - {s} && t <= b < t + Blocks(live[t]) ensures owner'[b] == Of(t) {
      assert owner[b] == Of(t);
    }
  }

  /** Freeing what was just allocated gives the bitmap back as it was. */
  lemma FreeUndoesAlloc(bits: seq<bool>, s: nat, n: nat)
    requires AllAre(bits, s, s + n, false)
    ensures With(With(bits, s, n, true), s, n, false) == bits
  {}

  // ---- bytes ----

  /** The distance of the post-redzone word from the start of the pool, as postred_ptr finds it. */
  function PostRed(base: nat, s: nat, alloc: nat): int
  {
    (base + BLOCK * s + alloc - REDZONE + 3) / 4 * 4 - base
  }

  /** Header, user bytes and post-redzone word follow each other inside the blocks of the allocation. */
  lemma PartsApart(base: nat, s: nat, size: nat)
    requires base % 4 == 0 && Fits(size)
    ensures var p := PostRed(base, s, AllocSize(size));
            BLOCK * s + HEADER + size <= p && p + REDZONE == BLOCK * s + AllocSize(size) <= BLOCK * (s + Blocks(size))
  {
    hide AllocSize, SizeToBlocks;
    LayoutFits(size);
    RoundedAlready(base, s, AllocSize(size));
  }

  lemma RoundedAlready(base: nat, s: nat, alloc: nat)
    requires base % 4 == 0 && alloc % 4 == 0 && alloc >= 4
    ensures PostRed(base, s, alloc) == BLOCK * s + alloc - REDZONE
  {
    var a, b := alloc / 4, base / 4;
    assert alloc == 4 * a && base == 4 * b;
    var y := b + 8 * s + a - 1;
    assert base + BLOCK * s + alloc - REDZONE == 4 * y;
    assert (4 * y + 3) / 4 == y;
  }

  function WordAt(mem: seq<byte>, at: nat): nat
    requires at + 4 <= |mem|
  {
    Decode(Slice(mem, at, 4))
  }

  /** What smalloc_pool wrote around the user bytes is still there. */
  ghost predicate Stamped(mem: seq<byte>, base: nat, s: nat, size: nat)
  {
    var p := PostRed(base, s, AllocSize(size));
    && Fits(size) && BLOCK * s + HEADER <= p && p + REDZONE <= |mem|
    && WordAt(mem, BLOCK * s) == AllocSize(size)
    && WordAt(mem, BLOCK * s + 4) == 0xdeadbeef && WordAt(mem, p) == 0x5aa55aa5
  }

  lemma WordWritten(mem: seq<byte>, at: nat, v: nat, k: nat)
    requires at + 4 <= |mem| && k + 4 <= |mem| && v < U32
    ensures k == at ==> WordAt(Splice(mem, at, Encode(v, 4)), k) == v
    ensures k + 4 <= at || at + 4 <= k ==> WordAt(Splice(mem, at, Encode(v, 4)), k) == WordAt(mem, k)
  {
    assert Pow256(4) == U32;
    DecodeEncode(v, 4);
    SliceSplice(mem, at, Encode(v, 4), k, 4);
  }

  /** Writes outside the header and the redzone leave the stamps alone. */
  lemma StampsKept(mem: seq<byte>, base: nat, s: nat, size: nat, at: nat, d: seq<byte>)
    requires Stamped(mem, base, s, size) && at + |d| <= |mem| && base % 4 == 0
    requires (BLOCK * s + HEADER <= at && at + |d| <= PostRed(base, s, AllocSize(size))) || at + |d| <= BLOCK * s
             || BLOCK * (s + Blocks(size)) <= at
    ensures Stamped(Splice(mem, at, d), base, s, size)
  {
    hide PostRed, AllocSize, Blocks;
    PartsApart(base, s, size);
    var p := PostRed(base, s, AllocSize(size));
    SliceSplice(mem, at, d, BLOCK * s, 4);
    SliceSplice(mem, at, d, BLOCK * s + 4, 4);
    SliceSplice(mem, at, d, p, 4);
  }

  function Zeroes(n: nat): seq<byte>
  {
    Repeat(0 as byte, n)
  }

  /** The memory after smalloc_pool has filled in header, redzones and zeroes. */
  ghost function Prepared(mem: seq<byte>, base: nat, s: nat, size: nat): seq<byte>
    requires base % 4 == 0 && Fits(size) && BLOCK * (s + Blocks(size)) <= |mem|
  {
    PartsApart(base, s, size);
    var a := AllocSize(size);
    var p: nat := PostRed(base, s, a);
    Splice(Splice(Splice(Splice(mem, BLOCK * s, Encode(a, 4)), BLOCK * s + 4, Encode(PRE_RED, 4)), p,
                  Encode(POST_RED, 4)),
           BLOCK * s + HEADER, Zeroes(size))
  }

  lemma PreparedStamped(mem: seq<byte>, base: nat, s: nat, size: nat)
    requires base % 4 == 0 && Fits(size) && BLOCK * (s + Blocks(size)) <= |mem|
    ensures |Prepared(mem, base, s, size)| == |mem| && Stamped(Prepared(mem, base, s, size), base, s, size)
    ensures BLOCK * s + HEADER + size <= |mem|
            && Slice(Prepared(mem, base, s, size), BLOCK * s + HEADER, size) == Zeroes(size)
  {
    hide PostRed, AllocSize, Blocks, WordAt;
    PartsApart(base, s, size);
    LayoutFits(size);
    var a := AllocSize(size);
    var p: nat := PostRed(base, s, a);
    var h, q := BLOCK * s, BLOCK * s + 4;
    var m1 := Splice(mem, h, Encode(a, 4));
    var m2 := Splice(m1, q, Encode(PRE_RED, 4));
    var m3 := Splice(m2, p, Encode(POST_RED, 4));
    WordWritten(mem, h, a, h);
    WordWritten(m1, q, PRE_RED, h);
    WordWritten(m1, q, PRE_RED, q);
    WordWritten(m2, p, POST_RED, h);
    WordWritten(m2, p, POST_RED, q);
    WordWritten(m2, p, POST_RED, p);
    assert Stamped(m3, base, s, size);
    StampsKept(m3, base, s, size, h + HEADER, Zeroes(size));
    SliceSplice(m3, h + HEADER, Zeroes(size), h + HEADER, size);
  }

  /** Only the blocks of the new allocation are written to. */
  lemma PreparedElsewhere(mem: seq<byte>, base: nat, s: nat, size: nat, i: nat)
    requires base % 4 == 0 && Fits(size) && BLOCK * (s + Blocks(size)) <= |mem| && i < |mem|
    requires i < BLOCK * s || BLOCK * (s + Blocks(size)) <= i
    ensures Prepared(mem, base, s, size)[i] == mem[i]
  {
    hide PostRed, AllocSize, Blocks;
    PartsApart(base, s, size);
  }

  ghost predicate AllStamped(mem: seq<byte>, base: nat, live: map<nat, nat>)
  {
    forall s <- live :: Stamped(mem, base, s, live[s])
  }

  lemma StampsSame(mem: seq<byte>, other: seq<byte>, base: nat, s: nat, size: nat)
    requires Stamped(mem, base, s, size) && |mem| == |other| && base % 4 == 0 && BLOCK * (s + Blocks(size)) <= |mem|
    requires forall i | BLOCK * s <= i < BLOCK * (s + Blocks(size)) :: other[i] == mem[i]
    ensures Stamped(other, base, s, size)
  {
    hide PostRed, AllocSize, Blocks;
    PartsApart(base, s, size);
    var p: nat := PostRed(base, s, AllocSize(size));
    assert Slice(mem, BLOCK * s, 4) == Slice(other, BLOCK * s, 4);
    assert Slice(mem, BLOCK * s + 4, 4) == Slice(other, BLOCK * s + 4, 4);
    assert Slice(mem, p, 4) == Slice(other, p, 4);
  }

  /** No byte of a live allocation differs. */
  ghost predicate Untouched(live: map<nat, nat>, before: seq<byte>, after: seq<byte>)
  {
    |before| == |after| && forall t <- live :: forall i | BLOCK * t <= i < BLOCK * (t + Blocks(live[t])) ::
      i < |after| && after[i] == before[i]
  }

  lemma AllStampedAfterAlloc(mem: seq<byte>, base: nat, bits: seq<bool>, owner: seq<Owner>, live: map<nat, nat>, s: nat,
                             size: nat)
    requires AllStamped(mem, base, live) && Owned(bits, owner, live) && base % 4 == 0 && Fits(size)
    requires AllAre(bits, s, s + Blocks(size), false) && |mem| == BLOCK * |bits|
    ensures AllStamped(Prepared(mem, base, s, size), base, live[s := size])
    ensures Untouched(live, mem, Prepared(mem, base, s, size))
  {
    hide Blocks, Prepared, Stamped;
    OwnedAfterAlloc(bits, owner, live, s, size);
    PreparedStamped(mem, base, s, size);
    var bits', owner', live' := With(bits, s, Blocks(size), true), WithRun(owner, s, Blocks(size), Of(s)),
        live[s := size];
    forall t | t in live
      ensures Stamped(Prepared(mem, base, s, size), base, t, live[t])
      ensures forall i | BLOCK * t <= i < BLOCK * (t + Blocks(live[t])) ::
                i < |mem| && Prepared(mem, base, s, size)[i] == mem[i]
    {
      if t < s {
        LiveApart(bits', owner', live', t, s);
      } else {
        LiveApart(bits', owner', live', s, t);
      }
      forall i | BLOCK * t <= i < BLOCK * (t + Blocks(live[t]))
        ensures i < |mem| && Prepared(mem, base, s, size)[i] == mem[i]
      {
        PreparedElsewhere(mem, base, s, size, i);
      }
      StampsSame(mem, Prepared(mem, base, s, size), base, t, live[t]);
    }
  }

  /** What a pool holds, seen from outside. */
  datatype View = View(live: map<nat, nat>, bits: seq<bool>, bytes: seq<byte>)

  /** From block s on, v got a new zeroed allocation of the size asked for, and nothing else changed. */
  ghost predicate Took(v: View, w: View, s: nat, size: nat)
  {
    && s !in v.live && w.live == v.live[s := size]
    && s + Blocks(size) <= |v.bits| && AllAre(v.bits, s, s + Blocks(size), false)
    && w.bits == With(v.bits, s, Blocks(size), true)
    && BLOCK * s + HEADER + size <= |w.bytes| && Slice(w.bytes, BLOCK * s + HEADER, size) == Zeroes(size)
    && Untouched(v.live, v.bytes, w.bytes)
  }

  /** v with byte i of the allocation at block s written. */
  ghost predicate Wrote(v: View, w: View, s: nat, i: nat, x: byte)
  {
    && s in v.live && i < v.live[s] && w.live == v.live && w.bits == v.bits
    && BLOCK * s + HEADER + i < |v.bytes| && w.bytes == v.bytes[BLOCK * s + HEADER + i := x]
  }

  /** v without the allocation at block s. */
  ghost predicate Gave(v: View, w: View, s: nat)
  {
    && s in v.live && w.live == v.live - {s} && w.bytes == v.bytes
    && s + Blocks(v.live[s]) <= |v.bits| && w.bits == With(v.bits, s, Blocks(v.live[s]), false)
  }

  /** Freeing what was just allocated gives back the bitmap and the live allocations as they were. */
  lemma GaveUndoesTook(v: View, w: View, x: View, s: nat, size: nat)
    requires Took(v, w, s, size) && Gave(w, x, s)
    ensures x.live == v.live && x.bits == v.bits
  {
    FreeUndoesAlloc(v.bits, s, Blocks(size));
  }
}
