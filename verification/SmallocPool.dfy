/** One pool of smalloc.c: the bitmap of its blocks, and the memory it hands out. */
module SmallocPool {
  import opened Words
  import opened BitMaps
  import opened Bytes
  import opened SmallocLayout
  import opened SmallocSearch
  import opened Basics

  /** mask_cmp, mask_set and mask_clear */
  datatype MaskOp = Compare | Set | Clear

  class Pool {
    /** The address of the memory. */
    const base: nat
    const bitmap: BitMap
    const mem: array<byte>
    var freeBlocks: nat
    var nextNonFull: nat
    ghost var live: map<nat, nat>
    ghost var owner: seq<Owner>

    ghost predicate MapOk()
      reads this, bitmap, bitmap.words
    {
      bitmap.Valid() && freeBlocks == BitMaps.Clear(bitmap.bits)
    }

    ghost predicate Valid()
      reads this, bitmap, bitmap.words, mem
    {
      && MapOk()
      && base % 4 == 0
      && mem.Length == BLOCK * |bitmap.bits|
      && Owned(bitmap.bits, owner, live)
      && AllStamped(mem[..], base, live)
    }

    ghost function Seen(): View
      reads this, bitmap, mem
    {
      View(live, bitmap.bits, mem[..])
    }

    /** add_pool: num words of bitmap and the memory they describe, all clear. */
    constructor (base: nat, num: nat)
      requires base % 4 == 0
      ensures Valid() && fresh(bitmap) && fresh(bitmap.words) && fresh(mem) && live == map[] && nextNonFull == 0
      ensures bitmap.bits == Repeat(false, WORD_BITS * num)
      ensures bitmap.words.Length == num && |bitmap.bits| == WORD_BITS * num && mem.Length == BLOCK * WORD_BITS * num
              && this.base == base
    {
      this.base := base;
      bitmap := new BitMap(num);
      mem := new byte[BLOCK * WORD_BITS * num](_ => 0);
      freeBlocks, nextNonFull := BLOCK * num, 0;
      live, owner := map[], Repeat(Nobody, WORD_BITS * num);
      new;
      ClearRepeat(false, WORD_BITS * num);
    }

    /** blocks_iter with mask_cmp, mask_set or mask_clear. */
    method BlocksIter(start: nat, first: nat, nr: nat, op: MaskOp) returns (ok: bool)
      requires bitmap.Valid() && first < WORD_BITS
      requires op.Set? ==> AllAre(bitmap.bits, WORD_BITS * start + first, WORD_BITS * start + first + nr, false)
      requires op.Clear? ==> AllAre(bitmap.bits, WORD_BITS * start + first, WORD_BITS * start + first + nr, true)
      modifies bitmap, bitmap.words
      ensures bitmap.Valid()
      ensures op.Compare? ==> bitmap.bits == old(bitmap.bits)
      ensures op.Compare? ==>
                (ok <==>
                  nr == 0 || AllAre(bitmap.bits, WORD_BITS * start + first, WORD_BITS * start + first + nr, false))
      ensures !op.Compare? ==> WORD_BITS * start + first + nr <= |old(bitmap.bits)|
      ensures !op.Compare? ==> ok && bitmap.bits == With(old(bitmap.bits), WORD_BITS * start + first, nr, op.Set?)
    {
      hide AllAre, BitMap.Valid, With;
      ghost var lo, was := WORD_BITS * start + first, bitmap.bits;
      var at: nat, idx: nat, left: nat := start, first, nr;
      Sizes();
      NothingYet(lo, nr, op);
      while left > 0
        invariant bitmap.Valid() && |bitmap.bits| == |was| == WORD_BITS * bitmap.words.Length
        invariant left <= nr && idx < WORD_BITS && (left > 0 ==> WORD_BITS * at + idx == lo + nr - left)
        invariant op.Compare? ==> bitmap.bits == was && (left == nr || AllAre(was, lo, lo + nr - left, false))
        invariant !op.Compare? ==> lo + nr <= |was| && bitmap.bits == With(was, lo, nr - left, op.Set?)
        decreases left
      {
        if at >= bitmap.words.Length {
          OutOfRange(was, lo, nr, lo + nr - left);
          return false;
        }
        var now := if left + idx > WORD_BITS then WORD_BITS - idx else left;
        ghost var done := nr - left;
        var fits := MaskStep(at, idx, now, op, was, lo, done, nr);
        if !fits {
          return false;
        }
        left := left - now;
        idx := 0;
        at := at + 1;
      }
      ok := true;
    }

    /** One call of the mask function: n blocks from bit idx of a word on. */
    method MaskStep(at: nat, idx: nat, n: nat, op: MaskOp, ghost was: seq<bool>, ghost lo: nat, ghost done: nat,
                    ghost nr: nat) returns (ok: bool)
      requires bitmap.Valid() && at < bitmap.words.Length && idx + n <= WORD_BITS && WORD_BITS * at + idx == lo + done
      requires |bitmap.bits| == |was| == WORD_BITS * bitmap.words.Length && done + n <= nr
      requires op.Compare? ==> bitmap.bits == was && (done == 0 || AllAre(was, lo, lo + done, false))
      requires !op.Compare? ==> lo + nr <= |was| && bitmap.bits == With(was, lo, done, op.Set?)
      modifies bitmap, bitmap.words
      ensures bitmap.Valid() && |bitmap.bits| == |was|
      ensures op.Compare? ==>
                bitmap.bits == was
                && if ok then AllAre(was, lo, lo + done + n, false) else !AllAre(was, lo, lo + nr, false)
      ensures !op.Compare? ==> ok && bitmap.bits == With(was, lo, done + n, op.Set?)
    {
      hide AllAre, BitMap.Valid, With;
      match op
      case Compare =>
        ok := bitmap.MaskClear(at, n, idx);
        Extend(was, lo, done, n, nr);
      case Set =>
        bitmap.SetMask(at, n, idx);
        WithWith(was, lo, done, n, true);
        ok := true;
      case Clear =>
        bitmap.ClearMask(at, n, idx);
        WithWith(was, lo, done, n, false);
        ok := true;
    }

    // ---- finding room ----

    /** The first of nr free blocks that __smalloc_pool takes. */
    ghost function Room(nr: nat): Option<nat>
      reads `nextNonFull, bitmap`bits
    {
      if nr > BitMaps.Clear(bitmap.bits) then None else Search(bitmap.bits, WORD_BITS * nextNonFull, nr)
    }

    /** Where the next search starts, after one for nr blocks. */
    ghost function NextHint(nr: nat): nat
      reads `nextNonFull, bitmap`bits
    {
      if nr > BitMaps.Clear(bitmap.bits) then nextNonFull
      else Hint(bitmap.bits, WORD_BITS * nextNonFull, nr, nextNonFull)
    }

    /** The pool can serve a request. */
    ghost predicate Finds(size: nat)
      reads `nextNonFull, bitmap`bits
    {
      Room(Blocks(size)).Some?
    }

    /** __smalloc_pool: takes the blocks that the search comes to, and fails exactly if it comes to none. */
    method FindBlocks(size: nat) returns (r: Option<nat>)
      requires MapOk()
      modifies `freeBlocks, `nextNonFull, bitmap, bitmap.words
      ensures MapOk() && (r.Some? <==> old(Room(SizeToBlocks(size))).Some?)
      ensures r.None? ==> bitmap.bits == old(bitmap.bits)
      ensures r.Some? ==>
                && r.value == BLOCK * old(Room(SizeToBlocks(size))).value
                && r.value / BLOCK + SizeToBlocks(size) <= |old(bitmap.bits)|
                && AllAre(old(bitmap.bits), r.value / BLOCK, r.value / BLOCK + SizeToBlocks(size), false)
                && bitmap.bits == With(old(bitmap.bits), r.value / BLOCK, SizeToBlocks(size), true)
      ensures nextNonFull == old(NextHint(SizeToBlocks(size)))
    {
      hide AllAre, BitMap.Valid, Search, Jump, Hint;
      var nr := SizeToBlocks(size);
      Sizes();
      if nr > freeBlocks {
        return None;
      }
      var i: nat, last: nat := nextNonFull, 0;
      ghost var room, hint := Search(bitmap.bits, WORD_BITS * i, nr), Hint(bitmap.bits, WORD_BITS * i, nr, i);
      while i < bitmap.words.Length
        invariant MapOk() && bitmap.bits == old(bitmap.bits) && freeBlocks == old(freeBlocks) && last < WORD_BITS
        invariant room == Search(bitmap.bits, WORD_BITS * i + last, nr)
        invariant hint == Hint(bitmap.bits, WORD_BITS * i + last, nr, nextNonFull)
        invariant last > 0 && i < bitmap.words.Length ==>
                    !AllAre(bitmap.bits, WORD_BITS * i, WORD_BITS * i + WORD_BITS, true)
        decreases |bitmap.bits| - (WORD_BITS * i + last)
      {
        if bitmap.words[i] == ALL_ONES {
          bitmap.InWord(i, WORD_BITS, 0, true);
          NoneLeft(i, last, nr, nextNonFull);
          i := i + 1;
          nextNonFull := i;
          last := 0;
          continue;
        }
        var idx := FirstClear(bitmap.words[i], last);
        if idx == WORD_BITS {
          NotFull(i, last);
          NoneLeft(i, last, nr, nextNonFull);
          i, last := i + 1, 0;
          continue;
        }
        EmptyRun(i, idx);
        FirstProbe(i, last, idx, nr, nextNonFull);
        ClearIn(i, idx);
        var free := BlocksIter(i, idx, nr, Compare);
        if !free {
          i, last := NextPlace(i, idx, nr);
          continue;
        }
        var offset := Take(i, idx, nr);
        return Some(offset);
      }
      PastEnd(i, last, nr, nextNonFull);
      r := None;
    }

    lemma PastEnd(i: nat, last: nat, nr: nat, hint: nat)
      requires bitmap.Valid() && i >= bitmap.words.Length
      ensures Search(bitmap.bits, WORD_BITS * i + last, nr) == None
      ensures Hint(bitmap.bits, WORD_BITS * i + last, nr, hint) == hint
    {
      AtEnd(bitmap.bits, WORD_BITS * i + last, nr, hint);
    }

    lemma ClearIn(i: nat, idx: nat)
      requires bitmap.Valid() && i < bitmap.words.Length && idx < WORD_BITS && !bitmap.words[i][idx]
      ensures !AllAre(bitmap.bits, WORD_BITS * i, WORD_BITS * i + WORD_BITS, true)
    {
      bitmap.InWord(i, WORD_BITS, 0, true);
    }

    lemma NotFull(i: nat, last: nat)
      requires i < bitmap.words.Length && last < WORD_BITS && bitmap.words[i] != ALL_ONES
      requires forall j | last <= j < WORD_BITS :: bitmap.words[i][j]
      ensures last > 0
    {
      if last == 0 {
        AllSet(bitmap.words[i]);
      }
    }

    lemma NoneLeft(i: nat, last: nat, nr: nat, hint: nat)
      requires bitmap.Valid() && i < bitmap.words.Length && last < WORD_BITS
               && forall j | last <= j < WORD_BITS :: bitmap.words[i][j]
      ensures Search(bitmap.bits, WORD_BITS * i + last, nr) == Search(bitmap.bits, WORD_BITS * (i + 1), nr)
      ensures Hint(bitmap.bits, WORD_BITS * i + last, nr, hint)
              == Hint(bitmap.bits, WORD_BITS * (i + 1), nr, if last == 0 then i + 1 else hint)
    {
      bitmap.InWord(i, WORD_BITS - last, last, true);
      SkipWord(bitmap.bits, i, last, nr, hint);
    }

    lemma FirstProbe(i: nat, last: nat, idx: nat, nr: nat, hint: nat)
      requires bitmap.Valid() && i < bitmap.words.Length && last <= idx < WORD_BITS
      requires !bitmap.words[i][idx] && forall j | last <= j < idx :: bitmap.words[i][j]
      ensures var c := WORD_BITS * i + idx;
              Search(bitmap.bits, WORD_BITS * i + last, nr) ==
              if AllAre(bitmap.bits, c, c + nr, false) then Some(c) else Search(bitmap.bits, Jump(c, nr), nr)
      ensures var c := WORD_BITS * i + idx;
              Hint(bitmap.bits, WORD_BITS * i + last, nr, hint) ==
              if AllAre(bitmap.bits, c, c + nr, false) then hint else Hint(bitmap.bits, Jump(c, nr), nr, hint)
    {
      SameWord(i, last, idx, hint);
      bitmap.InWord(i, idx - last, last, true);
      bitmap.InWord(i, 1, idx, false);
      Probe(bitmap.bits, WORD_BITS * i + last, WORD_BITS * i + idx, nr);
    }

    /** Where to go on after nr blocks from a clear bit on were not all free. */
    method NextPlace(i: nat, clear: nat, nr: nat) returns (next: nat, last: nat)
      requires clear < WORD_BITS
      ensures last < WORD_BITS && WORD_BITS * next + last == Jump(WORD_BITS * i + clear, nr) && (last > 0 ==> next == i)
    {
      assert (WORD_BITS * i + clear) % WORD_BITS == clear;
      next, last := i, 0;
      var idx: nat := clear + nr;
      if idx < WORD_BITS {
        last := idx;
      } else {
        while idx >= WORD_BITS
          invariant WORD_BITS * (next - i) + idx == clear + nr
        {
          next := next + 1;
          idx := idx - WORD_BITS;
        }
        assert (WORD_BITS * i + clear + nr) / WORD_BITS == next;
      }
    }

    lemma EmptyRun(i: nat, idx: nat)
      requires bitmap.Valid() && i < bitmap.words.Length && idx < WORD_BITS
      ensures AllAre(bitmap.bits, WORD_BITS * i + idx, WORD_BITS * i + idx, false)
    {}

    method Take(i: nat, idx: nat, nr: nat) returns (offset: nat)
      requires MapOk() && idx < WORD_BITS && AllAre(bitmap.bits, WORD_BITS * i + idx, WORD_BITS * i + idx + nr, false)
      modifies `freeBlocks, bitmap, bitmap.words
      ensures MapOk() && offset == BLOCK * (WORD_BITS * i + idx) && WORD_BITS * i + idx + nr <= |old(bitmap.bits)|
      ensures bitmap.bits == With(old(bitmap.bits), WORD_BITS * i + idx, nr, true)
    {
      hide BitMap.Valid, AllAre;
      ghost var was := bitmap.bits;
      var ok := BlocksIter(i, idx, nr, Set);
      ClearWith(was, WORD_BITS * i + idx, nr, true);
      freeBlocks := freeBlocks - nr;
      offset := i * WORD_BITS * BLOCK + idx * BLOCK;
    }

    // ---- allocating and freeing ----

    /** smalloc_pool: header, redzones and zeroed user bytes in blocks of their own. */
    method Alloc(size: nat) returns (ptr: Option<nat>)
      requires Valid() && Fits(size)
      modifies this, bitmap, bitmap.words, mem
      ensures Valid() && (ptr.Some? <==> old(Finds(size)))
      ensures ptr.None? ==> Seen() == old(Seen())
      ensures ptr.Some? ==> ptr.value == base + BLOCK * old(Room(Blocks(size))).value + HEADER
      ensures ptr.Some? ==> Took(old(Seen()), Seen(), old(Room(Blocks(size))).value, size)
      ensures nextNonFull == old(NextHint(Blocks(size)))
    {
      hide BitMap.Valid, AllAre, Room, NextHint, Owned, AllStamped, Prepared, AllocSize, PostRed, SizeToBlocks;
      LayoutFits(size);
      var alloc := AllocSize(size);
      var r := FindBlocks(alloc);
      if r.None? {
        return None;
      }
      Record(r.value, r.value / BLOCK, size, old(bitmap.bits));
      ptr := Some(base + r.value + HEADER);
    }

    /** Fills in the blocks just taken. */
    method Record(hdr: nat, ghost s: nat, size: nat, ghost bits: seq<bool>)
      requires MapOk() && base % 4 == 0 && mem.Length == BLOCK * |bits| && hdr == BLOCK * s && Fits(size)
      requires Owned(bits, owner, live) && AllStamped(mem[..], base, live)
      requires s + Blocks(size) <= |bits| && AllAre(bits, s, s + Blocks(size), false)
               && bitmap.bits == With(bits, s, Blocks(size), true)
      modifies `live, `owner, mem
      ensures Valid() && Took(old(Seen()).(bits := bits), Seen(), s, size)
    {
      hide BitMap.Valid, AllAre, Owned, AllStamped, Prepared, AllocSize, PostRed, SizeToBlocks, With, BitMaps.Clear,
           Untouched;
      ghost var was := mem[..];
      AllStampedAfterAlloc(was, base, bits, owner, live, s, size);
      OwnedAfterAlloc(bits, owner, live, s, size);
      OwnerLength(bits, owner, live);
      PreparedStamped(was, base, s, size);
      Prepare(hdr, s, size);
      live, owner := live[s := size], WithRun(owner, s, Blocks(size), Of(s));
    }

    method Prepare(hdr: nat, ghost s: nat, size: nat)
      requires base % 4 == 0 && Fits(size) && hdr == BLOCK * s && BLOCK * (s + Blocks(size)) <= mem.Length
      modifies mem
      ensures mem[..] == Prepared(old(mem[..]), base, s, size)
    {
      hide AllocSize, PostRed, SizeToBlocks;
      PartsApart(base, s, size);
      LayoutFits(size);
      var alloc := AllocSize(size);
      Put(mem, hdr, Encode(alloc, 4));
      Put(mem, hdr + 4, Encode(PRE_RED, 4));
      var post: nat := PostRedOf(hdr, alloc, s);
      Put(mem, post, Encode(POST_RED, 4));
      Put(mem, hdr + HEADER, Zeroes(size));
    }

    /** postred_ptr */
    method PostRedOf(hdr: nat, alloc: nat, ghost s: nat) returns (p: int)
      requires hdr == BLOCK * s
      ensures p == PostRed(base, s, alloc)
    {
      p := (base + hdr + alloc - REDZONE + 3) / 4 * 4 - base;
    }

    /** Writing a user byte of a live allocation never touches a header or a redzone. */
    method UserWrite(at: nat, ghost s: nat, ghost i: nat, v: byte)
      requires Valid() && s in live && i < live[s] && at == BLOCK * s + HEADER + i < mem.Length
      modifies mem
      ensures Valid() && mem[..] == old(mem[..])[at := v]
    {
      hide BitMap.Valid, Owned, Stamped, AllocSize, PostRed, SizeToBlocks, BitMaps.Clear;
      ghost var was := mem[..];
      mem[at] := v;
      assert mem[..] == Splice(was, at, [v]);
      forall t | t in live ensures Stamped(mem[..], base, t, live[t]) {
        FitsLive(t);
        FitsLive(s);
        PartsApart(base, s, live[s]);
        if t < s {
          LiveApart(bitmap.bits, owner, live, t, s);
        } else if s < t {
          LiveApart(bitmap.bits, owner, live, s, t);
        }
        StampsKept(was, base, t, live[t], at, [v]);
      }
    }

    lemma FitsLive(s: nat)
      requires Owned(bitmap.bits, owner, live) && s in live
      ensures Fits(live[s]) && s + Blocks(live[s]) <= |bitmap.bits|
    {}

    /** sfree_pool: gives back exactly the blocks of the allocation; its redzones are found intact. */
    method Free(ptr: nat, ghost s: nat)
      requires Valid() && s in live && ptr == base + BLOCK * s + HEADER
      modifies this, bitmap, bitmap.words
      ensures Valid() && Gave(old(Seen()), Seen(), s) && nextNonFull == Min(old(nextNonFull), s / WORD_BITS)
    {
      hide BitMap.Valid, AllAre, Owned, AllStamped, PostRed, AllocSize, SizeToBlocks, BitMaps.Clear, With;
      var hdr := ptr - HEADER - base;
      SizeStamp(s);
      var size := WordAt(mem[..], hdr);
      var intact := CheckRedzone(hdr, size, s);
      assert intact;
      Release(hdr, size, s);
    }

    /** The blocks of an allocation become free. */
    method Release(hdr: nat, alloc: nat, ghost s: nat)
      requires Valid() && s in live && hdr == BLOCK * s && alloc == AllocSize(live[s])
      modifies this, bitmap, bitmap.words
      ensures Valid() && Gave(old(Seen()), Seen(), s) && nextNonFull == Min(old(nextNonFull), s / WORD_BITS)
    {
      hide BitMap.Valid, AllAre, Owned, AllStamped, PostRed, AllocSize, SizeToBlocks, BitMaps.Clear, With;
      OwnedAfterFree(bitmap.bits, owner, live, s);
      OwnerLength(bitmap.bits, owner, live);
      StampsLeft(mem[..], base, live, s);
      ghost var bits, n := bitmap.bits, Blocks(live[s]);
      var i, idx := hdr / (WORD_BITS * BLOCK), hdr % (WORD_BITS * BLOCK) / BLOCK;
      WordAndBit(hdr, s);
      var ok := BlocksIter(i, idx, SizeToBlocks(alloc), Clear);
      ClearWith(bits, s, n, false);
      if i < nextNonFull {
        nextNonFull := i;
      }
      freeBlocks := freeBlocks + SizeToBlocks(alloc);
      live, owner := live - {s}, WithRun(owner, s, n, Nobody);
    }

    lemma SizeStamp(s: nat)
      requires Valid() && s in live
      ensures BLOCK * s + 4 <= mem.Length && WordAt(mem[..], BLOCK * s) == AllocSize(live[s])
    {
      assert Stamped(mem[..], base, s, live[s]);
    }

    /** sfree_check_redzone */
    method CheckRedzone(hdr: nat, alloc: nat, ghost s: nat) returns (intact: bool)
      requires Valid() && s in live && hdr == BLOCK * s && alloc == AllocSize(live[s])
      ensures intact
    {
      hide BitMap.Valid, Owned, PostRed, AllocSize, SizeToBlocks, BitMaps.Clear;
      FitsLive(s);
      PartsApart(base, s, live[s]);
      var post: nat := PostRedOf(hdr, alloc, s);
      assert Stamped(mem[..], base, s, live[s]);
      intact := WordAt(mem[..], hdr + 4) == PRE_RED && WordAt(mem[..], post) == POST_RED;
    }

    lemma Sizes()
      requires bitmap.Valid()
      ensures |bitmap.bits| == WORD_BITS * bitmap.words.Length
    {}

    lemma NothingYet(lo: nat, nr: nat, op: MaskOp)
      requires bitmap.Valid()
      requires !op.Compare? ==> AllAre(bitmap.bits, lo, lo + nr, !op.Set?)
      ensures !op.Compare? ==> lo + nr <= |bitmap.bits| && With(bitmap.bits, lo, 0, op.Set?) == bitmap.bits
    {}
  }

  lemma AllSet(w: Word)
    requires forall j | 0 <= j < WORD_BITS :: w[j]
    ensures w == ALL_ONES
  {}

  lemma OutOfRange(bits: seq<bool>, lo: nat, nr: nat, at: nat)
    requires at < lo + nr && |bits| <= at
    ensures !AllAre(bits, lo, lo + nr, false)
  {}

  lemma Extend(bits: seq<bool>, lo: nat, done: nat, more: nat, nr: nat)
    requires lo + done + more <= |bits| && done + more <= nr && (done == 0 || AllAre(bits, lo, lo + done, false))
    ensures AllAre(bits, lo + done, lo + done + more, false) ==> AllAre(bits, lo, lo + done + more, false)
    ensures !AllAre(bits, lo + done, lo + done + more, false) ==> !AllAre(bits, lo, lo + nr, false)
  {}

  lemma WordAndBit(hdr: nat, s: nat)
    requires hdr == BLOCK * s
    ensures WORD_BITS * (hdr / (WORD_BITS * BLOCK)) + hdr % (WORD_BITS * BLOCK) / BLOCK == s
    ensures hdr % (WORD_BITS * BLOCK) / BLOCK < WORD_BITS && hdr / (WORD_BITS * BLOCK) == s / WORD_BITS
  {}

  lemma OwnerLength(bits: seq<bool>, owner: seq<Owner>, live: map<nat, nat>)
    requires Owned(bits, owner, live)
    ensures |owner| == |bits|
  {}

  lemma StampsLeft(mem: seq<byte>, base: nat, live: map<nat, nat>, s: nat)
    requires AllStamped(mem, base, live)
    ensures AllStamped(mem, base, live - {s})
  {}

  // ---- free blocks that the search forgets ----

  /** Of three words, exactly the blocks from lo on and before hi are busy. */
  ghost predicate Busy(bits: seq<bool>, lo: nat, hi: nat)
  {
    |bits| == 96 && lo <= hi <= 96 && forall b | 0 <= b < 96 :: bits[b] == (lo <= b < hi)
  }

  lemma NoneBusy(bits: seq<bool>)
    requires bits == Repeat(false, 96)
    ensures Busy(bits, 0, 0)
  {}

  lemma BusyClear(bits: seq<bool>, lo: nat, hi: nat)
    requires Busy(bits, lo, hi)
    ensures BitMaps.Clear(bits) == 96 - (hi - lo)
  {
    ClearBeside(bits, lo, hi);
  }

  lemma ClearBeside(bits: seq<bool>, lo: nat, hi: nat)
    requires lo <= hi <= |bits| && forall b | 0 <= b < |bits| :: bits[b] == (lo <= b < hi)
    ensures BitMaps.Clear(bits) == |bits| - (hi - lo)
  {
    hide BitMaps.Clear, With;
    var free := Repeat(false, |bits|);
    ClearRepeat(false, |bits|);
    ClearWith(free, lo, hi - lo, true);
    assert bits == With(free, lo, hi - lo, true);
  }

  /** Where requests for one word are served. */
  lemma WordServed(bits: seq<bool>, lo: nat, hi: nat, from: nat)
    requires Busy(bits, lo, hi) && (lo == hi == from == 0 || (lo == 0 && hi == 32 && from == 0) || (hi == from == 64))
    ensures Search(bits, from, 32) == Some(hi) && BitMaps.Clear(bits) >= 32
    ensures Hint(bits, from, 32, from / 32) == if lo == 0 && hi == 32 then 1 else from / 32
  {
    BusyClear(bits, lo, hi);
    Probe(bits, from, hi, 32);
  }

  /** A request for 33 blocks skips the free first word, comes to the full second one and does not fit the third. */
  lemma FirstWordSkipped(bits: seq<bool>)
    requires Busy(bits, 32, 64)
    ensures BitMaps.Clear(bits) >= 33 && Search(bits, 0, 33) == None && Hint(bits, 0, 33, 0) == 2
  {
    BusyClear(bits, 32, 64);
    assert bits[32];
    Probe(bits, 0, 0, 33);
    Probe(bits, 32, 64, 33);
    AtEnd(bits, 96, 33, 2);
  }

  lemma RestIsBusy(bits: seq<bool>)
    requires Busy(bits, 32, 96)
    ensures BitMaps.Clear(bits) == 32 && Search(bits, 64, 1) == None && AllAre(bits, 0, 32, false)
  {
    BusyClear(bits, 32, 96);
    SkipBusy(bits, 64, 96, 1);
    AtEnd(bits, 96, 1, 2);
  }

  lemma WordSizes()
    ensures Fits(1012) && Blocks(1012) == 32 && Fits(1044) && Blocks(1044) == 33 && Fits(1) && Blocks(1) == 1
  {}

  lemma TookBusy(v: View, w: View, s: nat, size: nat, lo: nat, hi: nat)
    requires Took(v, w, s, size) && Busy(v.bits, lo, hi) && Blocks(size) == 32 && s + 32 <= 96
    requires s == hi || (lo == hi == 0 && s == 0)
    ensures s in w.live && w.live[s] == size && Busy(w.bits, lo, hi + 32)
  {}

  /** A run that ends with a request for one block turned down, while all 32 blocks of the first word are free. */
  method FreeWordForgotten() returns (p: Pool, ptr: Option<nat>)
    ensures p.Valid() && ptr == None && p.freeBlocks == 32 && AllAre(p.bitmap.bits, 0, 32, false)
  {
    hide Blocks, Fits, Took, Gave, Search, Hint, Pool.Valid, BitMap.Valid, AllAre, Busy;
    WordSizes();
    p := new Pool(4096, 3);
    ghost var v0 := p.Seen();
    NoneBusy(v0.bits);
    WordServed(v0.bits, 0, 0, 0);
    var first := p.Alloc(1012);
    ghost var v1 := p.Seen();
    TookBusy(v0, v1, 0, 1012, 0, 0);
    WordServed(v1.bits, 0, 32, 0);
    var second := p.Alloc(1012);
    ghost var v2 := p.Seen();
    TookBusy(v1, v2, 32, 1012, 0, 32);
    TookKeeps(v1, v2, 32, 1012, 0);
    p.Free(first.value, 0);
    ghost var v3 := p.Seen();
    GaveBusy(v2, v3);
    FirstWordSkipped(v3.bits);
    var third := p.Alloc(1044);
    WordServed(v3.bits, 32, 64, 64);
    var fourth := p.Alloc(1012);
    ghost var v4 := p.Seen();
    TookBusy(v3, v4, 64, 1012, 32, 64);
    RestIsBusy(v4.bits);
    ptr := p.Alloc(1);
    FreeCount(p);
  }

  lemma TookKeeps(v: View, w: View, s: nat, size: nat, t: nat)
    requires Took(v, w, s, size) && t in v.live
    ensures t in w.live && w.live[t] == v.live[t]
  {}

  lemma GaveBusy(v: View, w: View)
    requires Gave(v, w, 0) && Blocks(v.live[0]) == 32 && Busy(v.bits, 0, 64)
    ensures Busy(w.bits, 32, 64)
  {}

  lemma FreeCount(p: Pool)
    requires p.Valid()
    ensures p.freeBlocks == BitMaps.Clear(p.bitmap.bits)
  {}
}
