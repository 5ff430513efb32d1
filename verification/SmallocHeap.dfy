/** What smalloc.c is to its users: a map from pointers to the bytes they hold. */
module SmallocHeap {
  import opened BitMaps
  import opened Bytes
  import opened SmallocLayout
  import opened SmallocPool
  import opened Smalloc
  import opened Basics

  type Contents = map<nat, seq<byte>>

  function Ptr(base: nat, s: nat): nat
  {
    base + BLOCK * s + HEADER
  }

  /** p is the pointer of the allocation at block s of pool k. */
  ghost predicate Stands(ps: seq<Pool>, views: seq<View>, k: int, s: nat, p: nat)
  {
    0 <= k < |ps| == |views| && s in views[k].live && p == Ptr(ps[k].base, s)
  }

  /** The user bytes of the allocation at block s. */
  ghost predicate Carries(v: View, s: nat, data: seq<byte>)
  {
    s in v.live && BLOCK * s + HEADER + v.live[s] <= |v.bytes| && data == Slice(v.bytes, BLOCK * s + HEADER, v.live[s])
  }

  /** The live allocations are exactly the pointers of c, and hold its bytes. */
  ghost predicate Mirrors(ps: seq<Pool>, views: seq<View>, c: Contents)
  {
    && (forall k, s, p :: Stands(ps, views, k, s, p) ==> p in c && Carries(views[k], s, c[p]))
    && (forall p <- c :: exists k, s :: Stands(ps, views, k, s, p))
  }

  /** No two allocations have the same pointer. */
  ghost predicate Distinct(ps: seq<Pool>, views: seq<View>)
  {
    forall k, s, l, t, p :: Stands(ps, views, k, s, p) && Stands(ps, views, l, t, p) ==> k == l && s == t
  }

  /** All allocations lie inside their pools, as many blocks as they need. */
  ghost predicate Roomy(views: seq<View>)
  {
    forall k, s :: 0 <= k < |views| && s in views[k].live ==>
      && HEADER + views[k].live[s] <= BLOCK * Blocks(views[k].live[s])
      && BLOCK * (s + Blocks(views[k].live[s])) <= |views[k].bytes|
  }

  /** The allocations of a pool follow each other. */
  ghost predicate Spread(v: View)
  {
    forall s, t :: s in v.live && t in v.live && s < t ==> s + Blocks(v.live[s]) <= t
  }

  lemma PoolSpread(a: Allocator, k: nat)
    requires a.Valid() && k < |a.mp|
    ensures Spread(a.views[k])
  {
    hide Blocks, Owned, AllStamped, BitMap.Valid;
    var p, v := a.mp[k], a.views[k];
    forall s, t | s in v.live && t in v.live && s < t
      ensures s + Blocks(v.live[s]) <= t
    {
      LiveApart(p.bitmap.bits, p.owner, p.live, s, t);
    }
  }

  lemma PointersDistinct(a: Allocator)
    requires a.Valid()
    ensures |a.mp| == |a.views| && Distinct(a.mp, a.views) && Roomy(a.views)
  {
    hide Blocks, Owned, AllStamped, BitMap.Valid;
    forall k, s | 0 <= k < |a.views| && s in a.views[k].live
      ensures HEADER + a.views[k].live[s] <= BLOCK * Blocks(a.views[k].live[s])
      ensures BLOCK * (s + Blocks(a.views[k].live[s])) <= |a.views[k].bytes|
    {
      a.mp[k].FitsLive(s);
      LayoutFits(a.views[k].live[s]);
    }
    forall k, s, l, t, p | Stands(a.mp, a.views, k, s, p) && Stands(a.mp, a.views, l, t, p)
      ensures k == l && s == t
    {
      a.InPool(k, s);
      a.InPool(l, t);
      a.SamePool(k, l, p);
    }
  }

  /** A pool with nothing in it adds no pointer. */
  lemma EmptyPoolMirrors(ps: seq<Pool>, views: seq<View>, qs: seq<Pool>, was: seq<View>, c: Contents)
    requires Mirrors(ps, views, c) && |ps| == |views|
    requires |qs| == |was| == |ps| + 1 && ps <= qs && views <= was && was[|ps|].live == map[]
    ensures Mirrors(qs, was, c)
  {
    forall p <- c
      ensures exists k, s :: Stands(qs, was, k, s, p)
    {
      var k, s :| Stands(ps, views, k, s, p);
      assert Stands(qs, was, k, s, p);
    }
    forall k, s, p | Stands(qs, was, k, s, p)
      ensures p in c && Carries(was[k], s, c[p])
    {
      assert Stands(ps, views, k, s, p);
    }
  }

  /** The allocations of was other than that of p are those of views, and hold what they held. */
  ghost predicate OthersKept(ps: seq<Pool>, was: seq<View>, views: seq<View>, p: nat)
  {
    && (forall k, s, q :: Stands(ps, was, k, s, q) && q != p ==> Stands(ps, views, k, s, q))
    && (forall k, s, q :: Stands(ps, views, k, s, q) && q != p ==>
          Stands(ps, was, k, s, q) && forall data :: Carries(was[k], s, data) ==> Carries(views[k], s, data))
  }

  /** An allocation comes, or changes what it holds. */
  lemma MirrorsWith(ps: seq<Pool>, was: seq<View>, views: seq<View>, k: nat, s: nat, p: nat, data: seq<byte>,
                    c: Contents)
    requires Mirrors(ps, was, c) && OthersKept(ps, was, views, p) && Distinct(ps, views)
    requires Stands(ps, views, k, s, p) && Carries(views[k], s, data)
    ensures Mirrors(ps, views, c[p := data])
  {
    hide Carries;
    var d := c[p := data];
    forall q <- d
      ensures exists l, t :: Stands(ps, views, l, t, q)
    {
      if q != p {
        var l, t :| Stands(ps, was, l, t, q);
        assert Stands(ps, views, l, t, q);
      }
    }
  }

  /** An allocation goes. */
  lemma MirrorsWithout(ps: seq<Pool>, was: seq<View>, views: seq<View>, p: nat, c: Contents)
    requires Mirrors(ps, was, c) && OthersKept(ps, was, views, p)
    requires forall k, s :: !Stands(ps, views, k, s, p)
    ensures Mirrors(ps, views, c - {p})
  {
    hide Carries;
    forall q <- c - {p}
      ensures exists l, t :: Stands(ps, views, l, t, q)
    {
      var l, t :| Stands(ps, was, l, t, q);
      assert Stands(ps, views, l, t, q);
    }
  }

  lemma TookMirrors(ps: seq<Pool>, was: seq<View>, views: seq<View>, k: nat, s: nat, size: nat, c: Contents)
    requires Mirrors(ps, was, c) && k < |ps| == |was| == |views| && views == was[k := views[k]]
    requires Took(was[k], views[k], s, size) && Distinct(ps, views) && Roomy(views)
    ensures Ptr(ps[k].base, s) !in c && Mirrors(ps, views, c[Ptr(ps[k].base, s) := Zeroes(size)])
  {
    hide Carries, Ptr, Blocks;
    var p := Ptr(ps[k].base, s);
    assert Stands(ps, views, k, s, p);
    assert OthersKept(ps, was, views, p) by {
      forall l, t, q | Stands(ps, views, l, t, q) && q != p
        ensures Stands(ps, was, l, t, q) && forall data :: Carries(was[l], t, data) ==> Carries(views[l], t, data)
      {
        if l == k {
          CarriesBeside(was[k], views[k], s, size, t);
        }
      }
    }
    TookCarries(was[k], views[k], s, size);
    assert p !in c by {
      forall l, t
        ensures !Stands(ps, was, l, t, p)
      {
        assert Stands(ps, was, l, t, p) ==> Stands(ps, views, l, t, p);
      }
    }
    MirrorsWith(ps, was, views, k, s, p, Zeroes(size), c);
  }

  lemma TookCarries(v: View, w: View, s: nat, size: nat)
    requires Took(v, w, s, size)
    ensures Carries(w, s, Zeroes(size))
  {}

  lemma CarriesBeside(v: View, w: View, s: nat, size: nat, t: nat)
    requires Took(v, w, s, size) && t in v.live && t != s
    requires HEADER + w.live[t] <= BLOCK * Blocks(w.live[t]) && BLOCK * (t + Blocks(w.live[t])) <= |w.bytes|
    ensures forall data :: Carries(v, t, data) ==> Carries(w, t, data)
  {
    hide Blocks;
    var at, n := BLOCK * t + HEADER, v.live[t];
    assert Slice(v.bytes, at, n) == Slice(w.bytes, at, n);
  }

  lemma GaveMirrors(ps: seq<Pool>, was: seq<View>, views: seq<View>, k: nat, s: nat, c: Contents)
    requires Mirrors(ps, was, c) && k < |ps| == |was| == |views| && views == was[k := views[k]]
    requires Gave(was[k], views[k], s) && Distinct(ps, was)
    ensures Mirrors(ps, views, c - {Ptr(ps[k].base, s)})
  {
    hide Blocks, Ptr;
    var p := Ptr(ps[k].base, s);
    assert Stands(ps, was, k, s, p);
    forall l, t
      ensures !Stands(ps, views, l, t, p)
    {
      assert Stands(ps, views, l, t, p) ==> Stands(ps, was, l, t, p);
    }
    MirrorsWithout(ps, was, views, p, c);
  }

  lemma WroteMirrors(ps: seq<Pool>, was: seq<View>, views: seq<View>, k: nat, s: nat, i: nat, x: byte, c: Contents)
    requires Mirrors(ps, was, c) && k < |ps| == |was| == |views| && views == was[k := views[k]]
    requires Wrote(was[k], views[k], s, i, x) && Distinct(ps, was) && Roomy(was) && Spread(was[k])
    ensures var p := Ptr(ps[k].base, s);
            p in c && i < |c[p]| && Mirrors(ps, views, c[p := c[p][i := x]])
  {
    hide Carries, Ptr, Blocks, Roomy, Spread;
    var p := Ptr(ps[k].base, s);
    assert Stands(ps, was, k, s, p);
    WroteCarries(was[k], views[k], s, i, x, c[p]);
    assert OthersKept(ps, was, views, p) by {
      forall l, t, q | Stands(ps, views, l, t, q) && q != p
        ensures Stands(ps, was, l, t, q) && forall data :: Carries(was[l], t, data) ==> Carries(views[l], t, data)
      {
        if l == k {
          WroteBeside(was, views[k], k, s, i, x, t);
        }
      }
    }
    assert Distinct(ps, views) by {
      assert forall l, t, q :: Stands(ps, views, l, t, q) ==> Stands(ps, was, l, t, q);
    }
    MirrorsWith(ps, was, views, k, s, p, c[p][i := x], c);
  }

  lemma WroteCarries(v: View, w: View, s: nat, i: nat, x: byte, data: seq<byte>)
    requires Wrote(v, w, s, i, x) && Carries(v, s, data)
    ensures i < |data| && Carries(w, s, data[i := x])
  {
    assert Slice(w.bytes, BLOCK * s + HEADER, v.live[s]) == data[i := x];
  }

  lemma WroteBeside(was: seq<View>, w: View, k: nat, s: nat, i: nat, x: byte, t: nat)
    requires k < |was| && Wrote(was[k], w, s, i, x) && Roomy(was) && Spread(was[k]) && t in was[k].live && t != s
    ensures forall data :: Carries(was[k], t, data) ==> Carries(w, t, data)
  {
    hide Blocks;
    var v := was[k];
    var at, n := BLOCK * t + HEADER, v.live[t];
    assert t < s ==> t + Blocks(v.live[t]) <= s;
    assert s < t ==> s + Blocks(v.live[s]) <= t;
    assert at + n <= |v.bytes|;
    assert Slice(v.bytes, at, n) == Slice(w.bytes, at, n);
  }

  // ---- the allocator as its users see it ----

  class Heap {
    const a: Allocator
    ghost var contents: Contents

    ghost predicate Valid()
      reads this, a, Parts(a.mp)
    {
      a.Valid() && this !in Parts(a.mp) && Mirrors(a.mp, a.views, contents)
    }

    /** sinit: nothing is allocated. */
    constructor (base: nat)
      requires base % 4 == 0
      ensures Valid() && contents == map[] && fresh(a) && fresh(Parts(a.mp)) && |a.mp| == 1 && a.lastPool == 0
    {
      hide Allocator.Valid;
      var b := new Allocator(base);
      b.PoolCount();
      a := b;
      contents := map[];
    }

    /** A place in the pools for each pointer. */
    lemma Where(p: nat) returns (k: nat, s: nat)
      requires Valid() && p in contents
      ensures |a.mp| == |a.views| && Stands(a.mp, a.views, k, s, p) && Carries(a.views[k], s, contents[p])
    {
      hide Allocator.Valid, Carries;
      a.PoolCount();
      var l, t :| Stands(a.mp, a.views, l, t, p);
      k, s := l, t;
    }

    /** smalloc: a new pointer to zeroed bytes; what other pointers hold stays. */
    method Smalloc(size: nat, mapped: Option<nat>) returns (ptr: Option<nat>)
      requires Valid() && PoolFits(size) && (mapped.Some? ==> mapped.value % 4 == 0)
      requires mapped.Some? ==> forall p <- a.mp ::
                 p.base + p.mem.Length <= mapped.value || mapped.value + PoolBytes(size) <= p.base
      modifies this, a, Parts(a.mp)
      ensures Valid() && fresh(Parts(a.mp) - old(Parts(a.mp)))
      ensures ptr.Some? <==> old(a.CanServe(a.lastPool, size)) || (|old(a.mp)| < 128 && mapped.Some?)
      ensures ptr.None? ==> contents == old(contents)
      ensures ptr.Some? ==> ptr.value !in old(contents) && contents == old(contents)[ptr.value := Zeroes(size)]
    {
      hide Allocator.Valid, Parts, Mirrors, Took, Distinct, Roomy, PoolBytes, Allocator.CanServe, Pool.Finds;
      a.PoolCount();
      ghost var k, was;
      ptr, k, was := a.Alloc(size, mapped);
      if ptr.Some? {
        PointersDistinct(a);
        if was != old(a.views) {
          EmptyPoolMirrors(old(a.mp), old(a.views), a.mp, was, contents);
        }
        ghost var s: nat := (ptr.value - a.mp[k].base - HEADER) / BLOCK;
        TookMirrors(a.mp, was, a.views, k, s, size, contents);
        contents := contents[ptr.value := Zeroes(size)];
      }
    }

    /** sfree: the pointer is gone; what other pointers hold stays. */
    method Sfree(ptr: Option<nat>)
      requires Valid() && (ptr.Some? ==> ptr.value in contents)
      modifies this, a, Parts(a.mp)
      ensures Valid() && a.mp == old(a.mp)
      ensures contents == if ptr.Some? then old(contents) - {ptr.value} else old(contents)
    {
      hide Allocator.Valid, Parts, Mirrors, Gave, Distinct, Roomy;
      if ptr.None? {
        return;
      }
      PointersDistinct(a);
      ghost var k, s := Where(ptr.value);
      a.Free(ptr, k, s);
      a.PoolCount();
      GaveMirrors(a.mp, old(a.views), a.views, k, s, contents);
      contents := contents - {ptr.value};
    }

    /** A byte is written through a pointer. */
    method Write(ptr: nat, i: nat, v: byte)
      requires Valid() && ptr in contents && i < |contents[ptr]|
      modifies this, a, Parts(a.mp)
      ensures Valid() && a.mp == old(a.mp) && contents == old(contents)[ptr := old(contents)[ptr][i := v]]
    {
      hide Allocator.Valid, Parts, Mirrors, Wrote, Distinct, Roomy, Spread;
      PointersDistinct(a);
      ghost var k, s := Where(ptr);
      PoolSpread(a, k);
      a.UserWrite(ptr, i, v, k, s);
      a.PoolCount();
      WroteMirrors(a.mp, old(a.views), a.views, k, s, i, v, contents);
      contents := contents[ptr := contents[ptr][i := v]];
    }

    /** A byte is read through a pointer. */
    method Read(ptr: nat, i: nat) returns (v: byte)
      requires Valid() && ptr in contents && i < |contents[ptr]|
      ensures v == contents[ptr][i]
    {
      hide Allocator.Valid, Parts, Mirrors;
      ghost var k, s := Where(ptr);
      v := a.UserRead(ptr, i, k, s);
    }

    /** smalloc_strdup: a new pointer to the bytes of the string and a zero; the source does not check for failure. */
    method Strdup(str: seq<byte>, mapped: Option<nat>) returns (ptr: nat)
      requires Valid() && PoolFits(|str| + 1) && (mapped.Some? ==> mapped.value % 4 == 0)
      requires mapped.Some? ==> forall p <- a.mp ::
                 p.base + p.mem.Length <= mapped.value || mapped.value + PoolBytes(|str| + 1) <= p.base
      requires a.CanServe(a.lastPool, |str| + 1) || (|a.mp| < MAX_POOLS && mapped.Some?)
      modifies this, a, Parts(a.mp)
      ensures Valid() && fresh(Parts(a.mp) - old(Parts(a.mp)))
      ensures ptr !in old(contents) && contents == old(contents)[ptr := str + [0]]
    {
      hide Valid, Parts, PoolBytes, Allocator.CanServe, PoolFits;
      var r := Smalloc(|str| + 1, mapped);
      ptr := r.value;
      ghost var parts := Parts(a.mp);
      assert str[..0] + Zeroes(|str| + 1) == Zeroes(|str| + 1);
      for i := 0 to |str|
        invariant Valid() && Parts(a.mp) == parts
        invariant contents == old(contents)[ptr := str[..i] + Zeroes(|str| + 1 - i)]
      {
        Copied(str, i);
        Write(ptr, i, str[i]);
      }
      assert str[..|str|] == str && Zeroes(1) == [0];
    }
  }

  lemma Copied(str: seq<byte>, i: nat)
    requires i < |str|
    ensures (str[..i] + Zeroes(|str| + 1 - i))[i := str[i]] == str[..i + 1] + Zeroes(|str| - i)
  {}
}
