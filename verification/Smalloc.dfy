/** The allocator of smalloc.c over all its pools. */
module Smalloc {
  import opened Words
  import opened BitMaps
  import opened Bytes
  import opened SmallocLayout
  import opened SmallocPool
  import opened SmallocSearch
  import opened Basics

  const INITIAL_SIZE: nat := 8192 * 1024
  const MAX_POOLS: nat := 128
  /** The bytes that one word of the bitmap describes. */
  const WORD_SPAN: nat := 1024

  // ---- the size of a new pool ----

  /** The memory that add_pool asks for, without its bitmap. */
  function PoolBytes(size: nat): nat
  {
    var a := ((size + REDZONE) % U32 + HEADER) % U32;
    ((if a < INITIAL_SIZE then INITIAL_SIZE else a) + WORD_SPAN - 1) % U32 / WORD_SPAN * WORD_SPAN
  }

  function PoolWords(size: nat): nat
  {
    PoolBytes(size) / WORD_SPAN
  }

  /** The size add_pool maps, memory and bitmap together. */
  function MmapSize(size: nat): nat
  {
    (PoolBytes(size) + 4 * PoolWords(size)) % U32
  }

  /** The sizes for which the size of a new pool does not wrap around. */
  predicate PoolFits(size: nat)
  {
    size <= 4278254580
  }

  /** A new pool maps what it uses, and has room for the request it is made for, exactly if nothing wraps around. */
  lemma NewPoolHolds(size: nat)
    requires size < U32
    ensures Fits(size) && Blocks(size) <= WORD_BITS * PoolWords(size)
            && MmapSize(size) == (WORD_SPAN + 4) * PoolWords(size)
            <==> PoolFits(size)
  {
    hide PoolBytes, Blocks, AllocSize;
    LayoutFits(size);
    var b := PoolBytes(size);
    if size + 12 + 1023 < U32 {
      RoundedUp(size);
      PoolSpan(size, b);
    } else if size + 12 < U32 {
      BytesWrap(size);
    }
  }

  lemma RoundedUp(size: nat)
    requires size + 12 + 1023 < U32
    ensures var b := PoolBytes(size);
            && b % 1024 == 0 && b < U32
            && if size + 12 < INITIAL_SIZE then b == INITIAL_SIZE else size + 12 <= b < size + 12 + 1024
  {
    var a := if size + 12 < INITIAL_SIZE then INITIAL_SIZE else size + 12;
    assert (size + REDZONE) % U32 == size + 4 && (size + 4 + HEADER) % U32 == size + 12;
    assert PoolBytes(size) == (a + 1023) / 1024 * 1024;
  }

  lemma BytesWrap(size: nat)
    requires size + 12 < U32 <= size + 12 + 1023
    ensures PoolBytes(size) == 0
  {}

  lemma PoolSpan(size: nat, b: nat)
    requires size + 12 <= b && b % 1024 == 0
    requires Fits(size) && b < U32 && (b < size + 12 + 1024 || b == INITIAL_SIZE)
    ensures Blocks(size) <= WORD_BITS * (b / WORD_SPAN)
    ensures b + 4 * (b / WORD_SPAN) < U32 <==> PoolFits(size)
  {
    hide Blocks, AllocSize;
    LayoutFits(size);
    var q, m := b / WORD_SPAN, AllocSize(size) / 4;
    assert b == 1024 * q && AllocSize(size) == 4 * m;
    assert m <= 256 * q;
    RoundedBlocks(AllocSize(size), Blocks(size), q);
    Wraps(size, q);
  }

  lemma Wraps(size: nat, q: nat)
    requires size + 12 <= 1024 * q < U32 && (1024 * q < size + 12 + 1024 || 1024 * q == INITIAL_SIZE)
    ensures 1024 * q + 4 * q < U32 <==> PoolFits(size)
  {
    assert 1028 * q < U32 <==> q <= 4177983;
  }

  lemma RoundedBlocks(alloc: nat, blocks: nat, q: nat)
    requires alloc <= 1024 * q && BLOCK * blocks < alloc + BLOCK
    ensures blocks <= WORD_BITS * q
  {}

  lemma SpanOf(size: nat)
    ensures BLOCK * WORD_BITS * PoolWords(size) == PoolBytes(size)
  {}

  lemma HugePoolWraps()
    ensures MmapSize(4278254581) < (WORD_SPAN + 4) * PoolWords(4278254581)
  {
    hide PoolBytes;
    RoundedUp(4278254581);
    assert PoolBytes(4278254581) == 4278255616;
  }

  // ---- all pools ----

  ghost predicate Apart(p: Pool, q: Pool)
  {
    && p != q && p.bitmap != q.bitmap && p.bitmap.words != q.bitmap.words && p.mem != q.mem
    && (p.base + p.mem.Length <= q.base || q.base + q.mem.Length <= p.base)
  }

  function Parts(ps: seq<Pool>): set<object>
  {
    (set p <- ps :: p as object) + (set p <- ps :: p.bitmap as object) + (set p <- ps :: p.bitmap.words as object)
      + (set p <- ps :: p.mem as object)
  }

  /** The bytes of two live allocations never overlap, whichever pools they are in. */
  lemma PointersApart(p: Pool, q: Pool, s: nat, t: nat)
    requires p.Valid() && q.Valid() && s in p.live && t in q.live && (p == q ==> s != t) && (p != q ==> Apart(p, q))
    ensures var a, b := p.base + BLOCK * s, q.base + BLOCK * t;
            a + BLOCK * Blocks(p.live[s]) <= b || b + BLOCK * Blocks(q.live[t]) <= a
  {
    hide BitMap.Valid, SizeToBlocks, AllocSize, BitMaps.Clear, AllStamped;
    p.FitsLive(s);
    q.FitsLive(t);
    if p == q && s < t {
      LiveApart(p.bitmap.bits, p.owner, p.live, s, t);
    } else if p == q {
      LiveApart(p.bitmap.bits, p.owner, p.live, t, s);
    }
  }

  lemma PartOf(ps: seq<Pool>, i: nat)
    requires i < |ps|
    ensures {ps[i] as object, ps[i].bitmap as object, ps[i].bitmap.words as object, ps[i].mem as object} <= Parts(ps)
  {
    assert ps[i] in ps;
  }

  lemma PartsOne(p: Pool)
    ensures Parts([p]) == {p, p.bitmap, p.bitmap.words, p.mem}
  {
    PartOf([p], 0);
  }

  lemma PartsPlus(ps: seq<Pool>, qs: seq<Pool>)
    requires |qs| == |ps| + 1 && qs[..|ps|] == ps
    ensures Parts(qs) == Parts(ps) + Parts([qs[|ps|]])
  {
    var p := qs[|ps|];
    assert qs == ps + [p];
    assert forall q :: q in qs <==> q in ps || q in [p];
  }

  /** A view of that many bytes, all of them free. */
  ghost predicate Wholly(v: View, bytes: nat)
  {
    v.live == map[] && AllAre(v.bits, 0, |v.bits|, false) && BLOCK * |v.bits| == bytes
  }

  lemma EmptyBits(p: Pool)
    requires p.Valid() && p.live == map[]
    ensures Wholly(p.Seen(), p.mem.Length)
  {}

  class Allocator {
    var mp: seq<Pool>
    var lastPool: nat
    /** Ghost: what each pool holds. */
    ghost var views: seq<View>

    ghost predicate Valid()
      reads this, Parts(mp)
    {
      && |mp| <= MAX_POOLS && lastPool <= |mp|
      && |views| == |mp| && (forall i | 0 <= i < |mp| :: PartOf(mp, i); mp[i].Valid() && views[i] == mp[i].Seen())
      && (forall i, j | 0 <= i < j < |mp| :: Apart(mp[i], mp[j]))
    }

    /** Some pool from one on can serve the request. */
    ghost predicate CanServe(from: nat, size: nat)
      reads `mp, Parts(mp)
    {
      exists i | from <= i < |mp| :: PartOf(mp, i); mp[i].Finds(size)
    }

    /** sinit, with the address that mmap returned. */
    constructor (base: nat)
      requires base % 4 == 0
      ensures Valid() && |mp| == 1 && views[0].live == map[] && lastPool == 0 && mp[0].nextNonFull == 0
      ensures mp[0].base == base && mp[0].mem.Length == PoolBytes(INITIAL_SIZE)
              && Wholly(views[0], PoolBytes(INITIAL_SIZE))
      ensures fresh(Parts(mp))
    {
      hide PoolBytes;
      SpanOf(INITIAL_SIZE);
      var p := new Pool(base, PoolWords(INITIAL_SIZE));
      EmptyBits(p);
      mp, lastPool, views := [p], 0, [p.Seen()];
    }

    /** smalloc_pool on one of the pools. */
    method TryPool(i: nat, size: nat) returns (ptr: Option<nat>)
      requires Valid() && i < |mp| && Fits(size)
      modifies `views, mp[i], mp[i].bitmap, mp[i].bitmap.words, mp[i].mem
      ensures Valid() && (ptr.None? ==> views == old(views)) && (ptr.Some? <==> old(mp[i].Finds(size)))
      ensures ptr.Some? ==> ptr.value >= mp[i].base + HEADER && (ptr.value - mp[i].base - HEADER) % BLOCK == 0
      ensures ptr.Some? ==> views == old(views)[i := views[i]]
                            && Took(old(views)[i], views[i], (ptr.value - mp[i].base - HEADER) / BLOCK, size)
      ensures forall j | 0 <= j < |mp| && j != i :: mp[j].Finds(size) == old(mp[j].Finds(size))
    {
      hide Pool.Valid, Took, Blocks, Fits, Pool.Room;
      ptr := mp[i].Alloc(size);
      views := views[i := mp[i].Seen()];
      forall j | 0 <= j < |mp| ensures mp[j].Valid() && views[j] == mp[j].Seen() {
        if j < i {
          assert Apart(mp[j], mp[i]);
        } else if i < j {
          assert Apart(mp[i], mp[j]);
        }
      }
    }

    /** add_pool, with the address that mmap returned. */
    method AddPool(size: nat, base: nat)
      requires Valid() && |mp| < MAX_POOLS && PoolFits(size) && base % 4 == 0
      requires forall p <- mp :: p.base + p.mem.Length <= base || base + PoolBytes(size) <= p.base
      modifies `mp, `views
      ensures Valid() && |mp| == |old(mp)| + 1 && mp[..|old(mp)|] == old(mp) && fresh(Parts([mp[|old(mp)|]]))
      ensures views[..|old(mp)|] == old(views) && Wholly(views[|old(mp)|], PoolBytes(size))
      ensures mp[|old(mp)|].Finds(size)
      ensures mp[|old(mp)|].base == base && mp[|old(mp)|].mem.Length == PoolBytes(size)
    {
      hide Pool.Valid, PoolBytes, Blocks, Fits, AllAre, Parts, Pool.Finds;
      NewPoolHolds(size);
      SpanOf(size);
      var p := new Pool(base, PoolWords(size));
      EmptyPool(p, size);
      EmptyBits(p);
      PartsOne(p);
      assert forall i | 0 <= i < |mp| :: mp[i].Valid() && views[i] == mp[i].Seen();
      mp, views := mp + [p], views + [p.Seen()];
    }

    /** The loop over the pools from one on: the first that can serve the request does. */
    method ScanPools(from: nat, size: nat) returns (ptr: Option<nat>, i: nat)
      requires Valid() && from <= |mp| && Fits(size)
      modifies `lastPool, `views, Parts(mp)
      ensures Valid() && mp == old(mp) && from <= i <= |mp| && (ptr.Some? <==> old(CanServe(from, size)))
      ensures ptr.None? ==> i == |mp| && views == old(views) && lastPool == old(lastPool)
      ensures ptr.Some? ==> i < |mp| && lastPool == i && Found(ptr.value, i, old(views), size) && old(mp[i].Finds(size))
      ensures forall j | from <= j < i :: !old(mp[j].Finds(size))
    {
      hide Valid, Pool.Valid, Took, AllAre, Blocks, Fits, Parts, Pool.Finds;
      PoolCount();
      i := from;
      while i < |mp|
        invariant mp == old(mp) && Valid() && from <= i <= |mp| == |views| && views == old(views)
                  && lastPool == old(lastPool)
        invariant forall j | i <= j < |mp| :: mp[j].Finds(size) == old(mp[j].Finds(size))
        invariant forall j | from <= j < i :: !old(mp[j].Finds(size))
      {
        PartOf(mp, i);
        ptr := TryPool(i, size);
        if ptr.Some? {
          SetLast(i);
          return;
        }
        i := i + 1;
      }
      ptr := None;
    }

    /** The pointer is that of a new allocation in pool i; the other pools have not changed. */
    ghost predicate Found(ptr: nat, i: nat, was: seq<View>, size: nat)
      reads this
    {
      && i < |was| == |mp| == |views| && views == was[i := views[i]]
      && ptr >= mp[i].base + HEADER && (ptr - mp[i].base - HEADER) % BLOCK == 0
      && Took(was[i], views[i], (ptr - mp[i].base - HEADER) / BLOCK, size)
    }

    /**
      smalloc; mapped is what mmap returns if a pool has to be added. The first pool from lastPool on that can
      serve the request does, else a new one; the request fails exactly if there is neither. Pools before lastPool
      are not looked at.
     */
    method Alloc(size: nat, mapped: Option<nat>) returns (ptr: Option<nat>, ghost k: nat, ghost was: seq<View>)
      requires Valid() && PoolFits(size)
      requires mapped.Some? ==> mapped.value % 4 == 0
      requires mapped.Some? ==> forall p <- mp ::
                 p.base + p.mem.Length <= mapped.value || mapped.value + PoolBytes(size) <= p.base
      modifies this, Parts(mp)
      ensures Valid() && old(mp) <= mp && fresh(Parts(mp) - old(Parts(mp)))
      ensures ptr.Some? <==> old(CanServe(lastPool, size)) || (|old(mp)| < 128 && mapped.Some?)
      ensures ptr.None? ==> views == was == old(views) && mp == old(mp) && lastPool == 0
      ensures ptr.Some? ==> lastPool == k && Found(ptr.value, k, was, size)
      ensures old(CanServe(lastPool, size))
              ==> mp == old(mp) && was == old(views) && old(lastPool) <= k < |mp| && old(mp[k].Finds(size))
      ensures old(CanServe(lastPool, size)) ==> forall j | old(lastPool) <= j < k :: !old(mp[j].Finds(size))
      ensures ptr.Some? && !old(CanServe(lastPool, size))
              ==> k == |old(mp)| && Added(old(mp), old(views), was, size) && mp[k].base == mapped.value
    {
      hide Valid, Took, PoolBytes, Blocks, Fits, Found, Pool.Valid, Parts, Pool.Finds, CanServe;
      NewPoolHolds(size);
      PoolCount();
      was := views;
      var i: nat := lastPool;
      k := i;
      ghost var scanned := false;
      while true
        invariant Valid() && views == was && |was| == |mp| && |old(mp)| <= |mp|
        invariant !scanned ==> i == lastPool == old(lastPool) && mp == old(mp) && was == old(views)
        invariant !scanned ==> CanServe(i, size) == old(CanServe(lastPool, size))
        invariant !scanned ==> forall j | 0 <= j < |mp| :: mp[j].Finds(size) == old(mp[j].Finds(size))
        invariant scanned ==> !old(CanServe(lastPool, size)) && lastPool == 0 && i == |old(mp)|
        invariant |mp| > |old(mp)| ==> scanned && |old(mp)| < MAX_POOLS && mapped.Some?
        invariant scanned ==> if |mp| == |old(mp)| then mp == old(mp) && was == old(views) else
                                && Added(old(mp), old(views), was, size) && mp[i].base == mapped.value
                                && mp[i].Finds(size)
                                && Parts(mp) == old(Parts(mp)) + Parts([mp[i]]) && fresh(Parts([mp[i]]))
        decreases |mp| == |old(mp)|, lastPool
      {
        ServedBy(i, size);
        ptr, i := ScanPools(i, size);
        k := i;
        if ptr.Some? {
          return;
        }
        scanned := true;
        if lastPool != 0 {
          SetLast(0);
          continue;
        }
        PoolCount();
        if |mp| + 1 > MAX_POOLS {
          return;
        }
        i := |mp|;
        if mapped.None? {
          return;
        }
        AddPool(size, mapped.value);
        PoolCount();
        PartsPlus(old(mp), mp);
        was := views;
      }
    }

    /** The pools are the old ones and an empty new one, made for a request. */
    ghost predicate Added(mp0: seq<Pool>, views0: seq<View>, was: seq<View>, size: nat)
      reads `mp
    {
      && |was| == |mp| == |mp0| + 1 == |views0| + 1 && mp0 <= mp && views0 <= was
      && Wholly(was[|mp0|], PoolBytes(size))
    }

    lemma EmptyServes(size: nat)
      requires Valid() && |mp| == 1 && views[0].live == map[] && mp[0].nextNonFull == 0 && Fits(size)
               && Blocks(size) <= |views[0].bits|
      ensures CanServe(0, size)
    {
      hide Blocks;
      EmptyPool(mp[0], size);
    }

    /** Without enough free blocks the last pool cannot serve a request. */
    lemma NoRoom(size: nat)
      requires Valid() && |mp| > 0 && BitMaps.Clear(views[|mp| - 1].bits) < Blocks(size)
      ensures !CanServe(|mp| - 1, size)
    {
      hide Pool.Valid;
    }

    lemma ServedBy(i: nat, size: nat)
      ensures i < |mp| && mp[i].Finds(size) ==> CanServe(i, size)
    {}

    /** The one pool whose address range a pointer to an allocation, or into its user bytes, lies in. */
    method PoolOf(ptr: nat, ghost k: nat, ghost s: nat, ghost byte: nat) returns (i: nat)
      requires Valid() && k < |mp| && s in views[k].live && ptr == mp[k].base + BLOCK * s + HEADER + byte
      requires byte == 0 || byte < views[k].live[s]
      ensures Valid() && i == k
    {
      hide Valid, Pool.Valid;
      i := 0;
      InPool(k, s);
      PoolCount();
      while !(mp[i].base <= ptr < mp[i].base + mp[i].mem.Length)
        invariant i <= k
        decreases k - i
      {
        i := i + 1;
      }
      SamePool(i, k, ptr);
    }

    /** sfree: the pool is found by its address range, and gets back exactly the blocks of the allocation. */
    method Free(ptr: Option<nat>, ghost k: nat, ghost s: nat)
      requires Valid()
      requires ptr.Some? ==> k < |mp| && s in views[k].live && ptr.value == mp[k].base + BLOCK * s + HEADER
      modifies `views, Parts(mp)
      ensures Valid() && mp == old(mp) && lastPool == old(lastPool) && (ptr.None? ==> views == old(views))
      ensures ptr.Some? ==> views == old(views)[k := views[k]] && Gave(old(views)[k], views[k], s)
    {
      hide Valid, Pool.Valid, Gave, Parts;
      if ptr.None? {
        return;
      }
      var i := PoolOf(ptr.value, k, s, 0);
      PoolCount();
      PartOf(mp, i);
      FreeIn(i, ptr.value, s);
    }

    /** The user writes byte i of an allocation: that byte changes, and everything stays in order. */
    method UserWrite(ptr: nat, i: nat, v: byte, ghost k: nat, ghost s: nat)
      requires Valid() && k < |mp| && s in views[k].live && ptr == mp[k].base + BLOCK * s + HEADER
      requires i < views[k].live[s]
      modifies `views, Parts(mp)
      ensures Valid() && mp == old(mp) && views == old(views)[k := views[k]] && Wrote(old(views)[k], views[k], s, i, v)
    {
      hide Valid, Pool.Valid, Wrote, Parts;
      var j := PoolOf(ptr + i, k, s, i);
      PoolCount();
      PartOf(mp, j);
      WriteIn(j, ptr + i - mp[j].base, s, i, v);
    }

    method WriteIn(j: nat, at: nat, ghost s: nat, ghost i: nat, v: byte)
      requires Valid() && j < |mp| && s in views[j].live && i < views[j].live[s] && at == BLOCK * s + HEADER + i
      modifies `views, mp[j].mem
      ensures Valid() && views == old(views)[j := views[j]] && Wrote(old(views)[j], views[j], s, i, v)
    {
      hide Pool.Valid;
      InPool(j, s);
      mp[j].UserWrite(at, s, i, v);
      views := views[j := mp[j].Seen()];
      forall k | 0 <= k < |mp| ensures mp[k].Valid() && views[k] == mp[k].Seen() {
        if k < j {
          assert Apart(mp[k], mp[j]);
        } else if j < k {
          assert Apart(mp[j], mp[k]);
        }
      }
    }

    /** The user reads byte i of an allocation. */
    method UserRead(ptr: nat, i: nat, ghost k: nat, ghost s: nat) returns (v: byte)
      requires Valid() && k < |mp| && s in views[k].live && ptr == mp[k].base + BLOCK * s + HEADER
      requires i < views[k].live[s]
      ensures BLOCK * s + HEADER + i < |views[k].bytes| && v == views[k].bytes[BLOCK * s + HEADER + i]
    {
      hide Pool.Valid;
      var j := PoolOf(ptr + i, k, s, i);
      InPool(k, s);
      v := mp[j].mem[ptr + i - mp[j].base];
    }

    method FreeIn(i: nat, ptr: nat, ghost s: nat)
      requires Valid() && i < |mp| && s in views[i].live && ptr == mp[i].base + BLOCK * s + HEADER
      modifies `views, mp[i], mp[i].bitmap, mp[i].bitmap.words
      ensures Valid() && views == old(views)[i := views[i]] && Gave(old(views)[i], views[i], s)
    {
      hide Pool.Valid, Gave;
      mp[i].Free(ptr, s);
      views := views[i := mp[i].Seen()];
      forall j | 0 <= j < |mp| ensures mp[j].Valid() && views[j] == mp[j].Seen() {
        if j < i {
          assert Apart(mp[j], mp[i]);
        } else if i < j {
          assert Apart(mp[i], mp[j]);
        }
      }
    }

    lemma InPool(k: nat, s: nat)
      requires Valid() && k < |mp| && s in views[k].live
      ensures BLOCK * s + HEADER + views[k].live[s] < mp[k].mem.Length
    {
      mp[k].FitsLive(s);
      LayoutFits(mp[k].live[s]);
    }

    lemma SamePool(i: nat, k: nat, ptr: nat)
      requires Valid() && i < |mp| && k < |mp|
      requires mp[i].base <= ptr < mp[i].base + mp[i].mem.Length && mp[k].base <= ptr < mp[k].base + mp[k].mem.Length
      ensures i == k
    {
      assert i < k ==> Apart(mp[i], mp[k]);
      assert k < i ==> Apart(mp[k], mp[i]);
    }

    method SetLast(i: nat)
      requires Valid() && i <= |mp|
      modifies `lastPool
      ensures Valid() && lastPool == i
    {
      lastPool := i;
    }

    lemma PoolCount()
      requires Valid()
      ensures |mp| <= MAX_POOLS && lastPool <= |mp| == |views|
    {}

    lemma EmptyPool(p: Pool, size: nat)
      requires p.Valid() && p.live == map[] && p.nextNonFull == 0 && Fits(size) && Blocks(size) <= |p.bitmap.bits|
      ensures p.Finds(size)
    {
      hide Blocks;
      LayoutFits(size);
      var nr := Blocks(size);
      assert AllAre(p.bitmap.bits, 0, nr, false);
      FreeBound(p.bitmap.bits, 0, nr);
      Probe(p.bitmap.bits, 0, 0, nr);
    }
  }

  // ---- room that is not looked for ----

  /** A request that leaves no block of a pool made for it. */
  const BIG: nat := 8388596

  lemma BigSizes()
    ensures Fits(BIG) && PoolFits(BIG) && Blocks(BIG) == 262144 && PoolBytes(BIG) == 8388608
            && PoolBytes(INITIAL_SIZE) == 8389632
    ensures PoolFits(1) && Blocks(1) == 1
  {
    hide PoolBytes;
    RoundedUp(BIG);
    RoundedUp(INITIAL_SIZE);
  }

  lemma TookFree(v: View, w: View, s: nat, size: nat)
    requires Took(v, w, s, size) && AllAre(v.bits, 0, |v.bits|, false)
    ensures BitMaps.Clear(w.bits) == |v.bits| - Blocks(size)
  {
    hide Blocks, Untouched;
    ClearWith(v.bits, s, Blocks(size), true);
    assert v.bits == Repeat(false, |v.bits|);
    ClearRepeat(false, |v.bits|);
  }

  /** A run that ends with a request for one byte turned down, while the first of the two pools is wholly free. */
  method FreePoolPassedBy() returns (a: Allocator, ptr: Option<nat>)
    ensures a.Valid() && |a.mp| == 2 && ptr == None && Wholly(a.views[0], 8389632)
  {
    hide Blocks, PoolBytes, Fits, Took, Gave, AllAre, Allocator.Valid, Pool.Valid, Pool.Finds, Allocator.CanServe,
         Parts;
    BigSizes();
    a := new Allocator(4096);
    a.PoolCount();
    ghost var v := a.views[0];
    a.EmptyServes(BIG);
    var first, k0, was0 := a.Alloc(BIG, None);
    ghost var s0: nat := (first.value - 4096 - HEADER) / BLOCK;
    ghost var w := a.views[0];
    TookFree(v, w, s0, BIG);
    a.NoRoom(BIG);
    var second, k1, was1 := a.Alloc(BIG, Some(16777216));
    TookFree(was1[1], a.views[1], (second.value - 16777216 - HEADER) / BLOCK, BIG);
    TookLive(v, w, s0, BIG);
    a.Free(first, 0, s0);
    a.PoolCount();
    GaveUndoesTook(v, w, a.views[0], s0, BIG);
    a.NoRoom(1);
    ptr, k1, was1 := a.Alloc(1, None);
  }

  lemma TookLive(v: View, w: View, s: nat, size: nat)
    requires Took(v, w, s, size)
    ensures s in w.live
  {}
}
