/** The map of the blocks that random I/O has used, and the choice of the next block (io_u.c). */
module RandomMap {
  import opened Words
  import opened BitMaps
  import opened Bytes
  import opened Basics

  /** n blocks from lo on. */
  datatype Run = Run(lo: nat, n: nat)
  {
    predicate Has(b: nat)
    {
      lo <= b < lo + n
    }

    predicate Meets(r: Run)
    {
      n > 0 && r.n > 0 && lo < r.lo + r.n && r.lo < lo + n
    }
  }

  /** The blocks of a range of bytes. */
  function RunOf(pos: nat, len: nat, minBs: nat): Run
    requires minBs > 0
  {
    Run(pos / minBs, BlockCount(len, minBs))
  }

  /** The first block is the one that pos lies in, and there are as many as len bytes take up. */
  lemma RunInBytes(pos: nat, len: nat, minBs: nat)
    requires minBs > 0
    ensures var r := RunOf(pos, len, minBs);
            r.lo * minBs <= pos < (r.lo + 1) * minBs && len <= r.n * minBs < len + minBs
  {
    DivideBounds(pos, minBs);
    CountBounds(len, minBs);
  }

  /** How many of the n blocks from lo on are free before the first used one. */
  function FreePrefix(bits: seq<bool>, lo: nat, n: nat): (k: nat)
    requires lo + n <= |bits|
    ensures k <= n && AllAre(bits, lo, lo + k, false) && (k < n ==> bits[lo + k])
    decreases n
  {
    if n == 0 || bits[lo] then 0 else 1 + FreePrefix(bits, lo + 1, n - 1)
  }

  lemma FreePrefixIs(bits: seq<bool>, lo: nat, n: nat, k: nat)
    requires lo + n <= |bits| && k <= n && AllAre(bits, lo, lo + k, false) && (k < n ==> bits[lo + k])
    ensures FreePrefix(bits, lo, n) == k
  {
    var f := FreePrefix(bits, lo, n);
    assert f < n && !bits[lo + f] ==> f >= k;
  }

  lemma NothingMarked(bits: seq<bool>, lo: nat)
    requires lo <= |bits|
    ensures AllAre(bits, lo, lo, false) && With(bits, lo, 0, true) == bits
  {}

  /** Marking on from the end of a marked prefix. */
  lemma MarkStep(was: seq<bool>, lo: nat, done: nat, n: nat, k: nat)
    requires lo + done + n <= |was| && AllAre(was, lo, lo + done, false)
    requires k == FreePrefix(With(was, lo, done, true), lo + done, n)
    ensures AllAre(was, lo, lo + done + k, false)
            && With(With(was, lo, done, true), lo + done, k, true) == With(was, lo, done + k, true)
    ensures k < n ==> was[lo + done + k]
  {
    WithWith(was, lo, done, k, true);
  }

  lemma Scaled(max: real, r: real)
    requires 0.0 <= max && 0.0 <= r < 1.0
    ensures 0.0 <= max * r <= max
  {}

  lemma FloorBounds(x: real, max: nat)
    requires 0.0 <= x <= max as real
    ensures 0 <= x.Floor <= max && x.Floor as real <= x < (x.Floor + 1) as real
  {
    var b := x.Floor;
    assert (b + 1) as real == b as real + 1.0;
    assert max < b ==> max as real + 1.0 <= b as real;
  }

  /** A random number scaled to 0, ..., max. */
  method Scale(max: nat, draw: nat -> real, i: nat) returns (b: nat)
    requires 0.0 <= draw(i) < 1.0
    ensures b <= max && b as real <= max as real * draw(i) < (b + 1) as real
  {
    Scaled(max as real, draw(i));
    var x := max as real * draw(i);
    FloorBounds(x, max);
    b := x.Floor;
  }

  lemma NotAllOnes(w: Word, z: nat)
    requires w != ALL_ONES && z <= WORD_BITS && forall j | 0 <= j < z :: w[j]
    ensures z < WORD_BITS
  {
    assert (forall j | 0 <= j < WORD_BITS :: w[j]) ==> w == ALL_ONES;
  }

  /** b steps of ba fit into max bytes exactly if b is at most the quotient. */
  lemma AtMost(b: nat, ba: nat, max: nat)
    requires ba > 0
    ensures b * ba <= max <==> b <= max / ba
  {
    DivideBounds(max, ba);
    if b <= max / ba {
      TimesMonotone(ba, b, max / ba);
    } else {
      TimesMonotone(ba, max / ba + 1, b);
    }
  }

  lemma Inside(b: nat, minBs: nat, ba: nat, max: nat)
    requires 0 < minBs <= ba && b < max / ba
    ensures b * minBs < max
  {
    DivideBounds(max, ba);
    BlockBounds(ba, b, max / ba);
    assert b * minBs <= b * ba;
  }

  lemma Trimmed(len: nat, minBs: nat, k: nat)
    requires minBs > 0 && k <= BlockCount(len, minBs)
    ensures k * minBs < len <==> k < BlockCount(len, minBs)
    ensures BlockCount(k * minBs, minBs) == k
  {
    var n := BlockCount(len, minBs);
    DivideBounds(len + minBs - 1, minBs);
    if k < n {
      BlockBounds(minBs, k, n);
    }
    DivideBlocks(k, minBs, minBs - 1);
  }

  /** A run of free blocks meets none of the runs marked so far. */
  lemma IssueStep(bits: seq<bool>, issued: seq<Run>, r: Run)
    requires r.lo + r.n <= |bits| && AllAre(bits, r.lo, r.lo + r.n, false)
    requires forall q <- issued :: AllAre(bits, q.lo, q.lo + q.n, true)
    ensures forall q <- issued :: !q.Meets(r)
    ensures forall q <- issued + [r] :: AllAre(With(bits, r.lo, r.n, true), q.lo, q.lo + q.n, true)
  {
    forall q | q in issued ensures !q.Meets(r) {
      var common := if q.lo < r.lo then r.lo else q.lo;
      var taken := common < |bits| && bits[common];
    }
  }

  // ---- block sizes and alignment ----

  datatype Ddir = DdirRead | DdirWrite

  datatype PerDir = PerDir(read: nat, write: nat)
  {
    function Of(d: Ddir): nat
    {
      if d.DdirRead? then read else write
    }
  }

  /** The options that decide whether there is a random map, and how offsets are drawn. */
  datatype BlockOptions = BlockOptions(random: bool, noRandomMap: bool, bs: PerDir, minBs: PerDir, ba: PerDir)
  {
    function RwMinBs(): nat
    {
      Min(minBs.read, minBs.write)
    }

    /** A job has a block size for each direction. */
    predicate Sized()
    {
      (bs.read > 0 || minBs.read > 0) && (bs.write > 0 || minBs.write > 0)
    }
  }

  /** fixup_options: defaults for the sizes, and no random map with an alignment of its own. */
  function FixedUp(o: BlockOptions): BlockOptions
  {
    var minBs := PerDir(if o.minBs.read == 0 then o.bs.read else o.minBs.read,
                        if o.minBs.write == 0 then o.bs.write else o.minBs.write);
    var ba := PerDir(if o.ba.read == 0 || !o.random then minBs.read else o.ba.read,
                     if o.ba.write == 0 || !o.random then minBs.write else o.ba.write);
    o.(minBs := minBs, ba := ba, noRandomMap := o.noRandomMap || ba != minBs)
  }

  /**
    What the fix-up leaves: a direction without a smallest block size of its own takes the common one, and one without
    an alignment is aligned to that. A job keeps its random map unless it asked for none, or it is random and gave an
    alignment that is not the block size.
   */
  lemma FixUpMeans(o: BlockOptions, d: Ddir)
    ensures var f := FixedUp(o);
            && f.random == o.random && f.bs == o.bs
            && f.RwMinBs() <= f.minBs.Of(d) && f.RwMinBs() in {f.minBs.read, f.minBs.write}
            && f.minBs.Of(d) == (if o.minBs.Of(d) > 0 then o.minBs.Of(d) else o.bs.Of(d))
            && f.ba.Of(d) == (if o.random && o.ba.Of(d) > 0 then o.ba.Of(d) else f.minBs.Of(d))
            && (!f.noRandomMap <==>
                  !o.noRandomMap && (o.random ==> forall e: Ddir :: o.ba.Of(e) == 0 || o.ba.Of(e) == f.minBs.Of(e)))
  {
    var f := FixedUp(o);
    assert o.ba.Of(DdirRead) == o.ba.read && f.minBs.Of(DdirRead) == f.minBs.read;
    assert o.ba.Of(DdirWrite) == o.ba.write && f.minBs.Of(DdirWrite) == f.minBs.write;
  }

  /** With a random map, offsets are aligned to the block size of their direction: at least that of the map. */
  lemma MapMeansAligned(o: BlockOptions, d: Ddir)
    requires o.Sized() && !FixedUp(o).noRandomMap
    ensures 0 < FixedUp(o).RwMinBs() <= FixedUp(o).minBs.Of(d) == FixedUp(o).ba.Of(d)
  {}

  class FileMap {
    /** The options as the user gave them, and after the fix-up. */
    const given: BlockOptions
    const opts: BlockOptions
    /** The block size of the map. */
    const minBs: nat
    const realSize: nat
    const ioSize: nat
    const used: BitMap
    var lastFreeLookup: nat
    var failedRands: nat
    /** Ghost: what was issued since the map was last reset. */
    ghost var issued: seq<Run>

    ghost predicate Valid()
      reads `issued, used, used.words
    {
      && used.Valid() && given.Sized() && opts == FixedUp(given) && minBs == opts.RwMinBs() > 0
      && opts.random && !opts.noRandomMap
      && used.words.Length == BlockCount(BlockCount(realSize, minBs), WORD_BITS)
      && (forall r <- issued :: AllAre(used.bits, r.lo, r.lo + r.n, true))
      && (forall i, j | 0 <= i < j < |issued| :: !issued[i].Meets(issued[j]))
    }

    /** init_random_map, for a job that has a random map */
    constructor (realSize: nat, ioSize: nat, given: BlockOptions)
      requires given.random && given.Sized() && !FixedUp(given).noRandomMap
      ensures Valid() && LookupOk() && failedRands == 0 && issued == [] && fresh(used) && fresh(used.words)
      ensures used.bits == Repeat(false, |used.bits|)
      ensures this.given == given && this.realSize == realSize && this.ioSize == ioSize
    {
      MapMeansAligned(given, DdirRead);
      this.given, this.realSize, this.ioSize := given, realSize, ioSize;
      opts := FixedUp(given);
      minBs := FixedUp(given).RwMinBs();
      used := new BitMap(BlockCount(BlockCount(realSize, FixedUp(given).RwMinBs()), WORD_BITS));
      lastFreeLookup, failedRands, issued := 0, 0, [];
    }

    // ---- marking ----

    /** random_map_free */
    method IsFree(block: nat) returns (free: bool)
      requires used.Valid() && block < |used.bits|
      ensures free == !used.bits[block]
    {
      free := used.MaskClear(block / WORD_BITS, 1, block % WORD_BITS);
    }

    /** The inner loop of mark_random_map: the longest free run of at most n blocks within one word, marked. */
    method MarkInWord(idx: nat, bit: nat, n: nat) returns (k: nat)
      requires used.Valid() && idx < used.words.Length && 0 < n && bit + n <= WORD_BITS
      modifies used, used.words
      ensures used.Valid() && WORD_BITS * idx + bit + n <= |old(used.bits)|
              && k == FreePrefix(old(used.bits), WORD_BITS * idx + bit, n)
      ensures used.bits == With(old(used.bits), WORD_BITS * idx + bit, k, true)
    {
      ghost var lo := WORD_BITS * idx + bit;
      assert lo + n <= |used.bits|;
      k := n;
      var clear := used.MaskClear(idx, k, bit);
      while !clear && k > 0
        invariant k <= n && used.Valid() && used.bits == old(used.bits)
        invariant clear <==> AllAre(used.bits, lo, lo + k, false)
        invariant FreePrefix(used.bits, lo, n) <= k
        decreases k
      {
        ghost var was := k;
        k := k - 1;
        clear := used.MaskClear(idx, k, bit);
      }
      FreePrefixIs(used.bits, lo, n, k);
      used.SetMask(idx, k, bit);
    }

    /** The outer loop of mark_random_map: marks the free prefix of a run of blocks, word by word. */
    method MarkPrefix(block0: nat, nr0: nat, seqOne: bool) returns (blocks: nat)
      requires used.Valid() && block0 + nr0 <= |used.bits|
      modifies used, used.words
      ensures used.Valid() && blocks == FreePrefix(old(used.bits), block0, nr0)
      ensures used.bits == With(old(used.bits), block0, blocks, true)
    {
      hide BitMap.Valid, FreePrefix, AllAre, With;
      ghost var was := used.bits;
      Size();
      NothingMarked(was, block0);
      var block: nat, nr: nat := block0, nr0;
      blocks := 0;
      while nr > 0
        invariant used.Valid() && |used.bits| == WORD_BITS * used.words.Length
        invariant block == block0 + blocks && nr == nr0 - blocks
        invariant used.bits == With(was, block0, blocks, true) && AllAre(was, block0, block0 + blocks, false)
        decreases nr
      {
        if seqOne {
          var free := IsFree(block);
          if !free {
            break;
          }
        }
        var idx, bit := block / WORD_BITS, block % WORD_BITS;
        assert idx < used.words.Length;
        var now := if nr + bit > WORD_BITS then WORD_BITS - bit else nr;
        var k := MarkInWord(idx, bit, now);
        MarkStep(was, block0, blocks, now, k);
        if k == 0 {
          break;
        }
        nr := nr - k;
        blocks := blocks + k;
        block := block + k;
      }
      FreePrefixIs(was, block0, nr0, blocks);
    }

    /**
      mark_random_map: the io_u keeps the free blocks its range begins with. pos is its offset in the
      file; fill_io_u has made sure that the range ends inside the file.
     */
    method MarkRandomMap(pos: nat, buflen: nat, busyOk: bool, seqOne: bool) returns (len: nat, ghost r: Run)
      requires Valid() && pos + buflen <= realSize
      modifies `issued, used, used.words
      ensures Valid() && r == RunOf(pos, buflen, minBs) && r.lo + r.n <= |old(used.bits)|
      ensures r.lo * minBs <= pos < (r.lo + 1) * minBs && buflen <= r.n * minBs < buflen + minBs
      ensures busyOk ==> len == buflen && used.bits == old(used.bits) && issued == old(issued)
      ensures !busyOk ==>
                var k := FreePrefix(old(used.bits), r.lo, r.n);
                && used.bits == With(old(used.bits), r.lo, k, true) && issued == old(issued) + [Run(r.lo, k)]
                && len == (if k == r.n then buflen else k * minBs) && BlockCount(len, minBs) == k
    {
      hide BitMap.Valid, AllAre, With, BlockCount;
      InMap(pos, buflen);
      RunInBytes(pos, buflen, minBs);
      var block, nr := pos / minBs, BlockCount(buflen, minBs);
      r := Run(block, nr);
      var blocks := nr;
      if !busyOk {
        ghost var was := used.bits;
        blocks := MarkPrefix(block, nr, seqOne);
        IssueStep(was, issued, Run(block, blocks));
        issued := issued + [Run(block, blocks)];
      }
      Trimmed(buflen, minBs, blocks);
      len := if blocks * minBs < buflen then blocks * minBs else buflen;
    }

    /** A range inside the file lies in the map: every word index stays below num_maps. */
    lemma InMap(pos: nat, buflen: nat)
      requires Valid() && pos + buflen <= realSize
      ensures pos / minBs + BlockCount(buflen, minBs) <= |used.bits|
    {
      RangeCount(pos, buflen, realSize, minBs);
    }

    /** fio_file_reset: the map is cleared, and the search starts over. */
    method Reset()
      requires Valid()
      modifies `issued, `lastFreeLookup, `failedRands, used, used.words
      ensures Valid() && LookupOk() && issued == [] && used.bits == Repeat(false, |old(used.bits)|)
      ensures lastFreeLookup == 0 && failedRands == 0
    {
      lastFreeLookup, failedRands := 0, 0;
      used.ClearAll();
      issued := [];
    }

    // ---- choosing a block ----

    /** last_block, without a zone range */
    function LastBlock(d: Ddir): nat
      requires opts.ba.Of(d) > 0
    {
      (if ioSize > realSize then realSize else ioSize) / opts.ba.Of(d)
    }

    /** Block b, as long as the alignment, lies in the file and in the part of it that I/O goes to. */
    ghost predicate InFile(d: Ddir, b: nat)
    {
      (b + 1) * opts.ba.Of(d) <= ioSize && (b + 1) * opts.ba.Of(d) <= realSize
    }

    /** The blocks below last_block are exactly those that lie in the file; last_block starts at its end or before. */
    lemma LastBlockInBytes(d: Ddir, b: nat)
      requires opts.ba.Of(d) > 0
      ensures b < LastBlock(d) <==> InFile(d, b)
      ensures b <= LastBlock(d) <==> b * opts.ba.Of(d) <= ioSize && b * opts.ba.Of(d) <= realSize
    {
      var max, ba := if ioSize > realSize then realSize else ioSize, opts.ba.Of(d);
      AtMost(b, ba, max);
      AtMost(b + 1, ba, max);
    }

    lemma Aligned(d: Ddir)
      requires Valid()
      ensures 0 < minBs <= opts.ba.Of(d)
    {
      MapMeansAligned(given, d);
    }

    /** The map has a word for every block of the file. */
    lemma WordsCover(i: nat)
      requires Valid()
      ensures i < used.words.Length <==> WORD_BITS * i * minBs < realSize
    {
      var n := BlockCount(realSize, minBs);
      DivideBounds(realSize + minBs - 1, minBs);
      if WORD_BITS * i < n {
        BlockBounds(minBs, WORD_BITS * i, n);
      } else {
        TimesMonotone(minBs, n, WORD_BITS * i);
      }
    }

    /** Every block below last_block starts inside the file. */
    lemma BelowLast(d: Ddir, b: nat)
      requires Valid() && opts.ba.Of(d) > 0 && b < LastBlock(d)
      ensures b * minBs < realSize && b * minBs < ioSize && b < |used.bits|
    {
      hide BlockCount, FixedUp;
      Aligned(d);
      Inside(b, minBs, opts.ba.Of(d), if ioSize > realSize then realSize else ioSize);
      WordsCover(b / WORD_BITS);
      TimesMonotone(minBs, WORD_BITS * (b / WORD_BITS), b);
    }

    ghost predicate LookupOk()
      reads `lastFreeLookup
    {
      lastFreeLookup == 0 || lastFreeLookup < used.words.Length
    }

    /** get_next_free_block: the first free block from word lastFreeLookup on, unless it lies beyond last_block. */
    method GetNextFreeBlock(d: Ddir) returns (found: bool, b: nat)
      requires Valid() && LookupOk()
      modifies `lastFreeLookup
      ensures LookupOk() && opts.ba.Of(d) > 0
      ensures found ==> b < |used.bits| && !used.bits[b]
      ensures found ==> b * opts.ba.Of(d) <= ioSize && b * opts.ba.Of(d) <= realSize
      ensures found ==> AllUsed(WORD_BITS * old(lastFreeLookup), b)
      ensures lastFreeLookup == if found then b / WORD_BITS else old(lastFreeLookup)
      ensures !found ==> NoneLeft(d, WORD_BITS * lastFreeLookup)
    {
      found, b := FirstFree(d);
      if found {
        LastBlockInBytes(d, b);
      } else {
        NoneLeftInBytes(d, WORD_BITS * lastFreeLookup);
      }
    }

    /** The search of get_next_free_block, in terms of last_block. */
    method FirstFree(d: Ddir) returns (found: bool, b: nat)
      requires Valid() && LookupOk()
      modifies `lastFreeLookup
      ensures LookupOk() && opts.ba.Of(d) > 0
      ensures found ==> b <= LastBlock(d) && b < |used.bits| && !used.bits[b]
      ensures found ==> AllUsed(WORD_BITS * old(lastFreeLookup), b)
      ensures lastFreeLookup == if found then b / WORD_BITS else old(lastFreeLookup)
      ensures !found ==> UsedUpToLast(d, WORD_BITS * lastFreeLookup)
    {
      hide FixedUp;
      Aligned(d);
      b := 0;
      var lastb := LastBlock(d);
      if lastb == 0 {
        return false, b;
      }
      var i: nat := lastFreeLookup;
      var block := i * WORD_BITS;
      while block * minBs < realSize && block * minBs < ioSize
        invariant i <= used.words.Length && block == WORD_BITS * i && lastFreeLookup == old(lastFreeLookup)
        invariant AllUsed(WORD_BITS * lastFreeLookup, block)
        decreases used.words.Length - i
      {
        WordsCover(i);
        if used.words[i] != ALL_ONES {
          var z := FirstClear(used.words[i], 0);
          NotAllOnes(used.words[i], z);
          block := block + z;
          UsedUpto(i, z);
          if block > lastb {
            return false, b;
          }
          lastFreeLookup := i;
          return true, block;
        }
        UsedUpto(i, WORD_BITS);
        block := block + WORD_BITS;
        i := i + 1;
      }
      forall x | WORD_BITS * lastFreeLookup <= x < lastb ensures IsUsed(x) {
        BelowLast(d, x);
        if block <= x {
          TimesMonotone(minBs, block, x);
        }
      }
      return false, b;
    }

    /**
      get_next_rand_offset with the random map on. draw(i) is the i-th random number, scaled to [0, 1). The first of
      five drawn blocks that is free is taken; else a free block is found if the file has any.
     */
    method GetNextRandOffset(d: Ddir, draw: nat -> real) returns (found: bool, b: nat)
      requires Valid() && LookupOk()
      requires forall i :: 0.0 <= draw(i) < 1.0
      modifies `lastFreeLookup, `failedRands
      ensures LookupOk() && opts.ba.Of(d) > 0
      ensures found ==> b < |used.bits| && !used.bits[b]
      ensures found ==> b * opts.ba.Of(d) <= ioSize && b * opts.ba.Of(d) <= realSize
      ensures !found ==> NoneLeft(d, 0)
      ensures old(failedRands) < 200 ==>
                forall i | 0 <= i < 5 :: FirstFreeDraw(d, draw, i) ==> found && Drawn(d, draw, i, b)
      ensures failedRands == 0 || failedRands == old(failedRands)
              || (old(failedRands) < 200 && failedRands == old(failedRands) + 1)
    {
      hide Valid, LastBlock, NoneLeft, FirstFreeDraw, Drawn;
      Aligned(d);
      b := 0;
      var lastb := LastBlock(d);
      if lastb == 0 {
        NoBlocks(d);
        NoDraws(d, draw);
        return false, b;
      }
      if failedRands < 200 {
        var next := 0;
        HasWords(d);
        found, b, next := DrawBlock(d, lastb, draw);
        if found {
          LastBlockInBytes(d, b);
          failedRands := 0;
          return;
        }
        if failedRands == 0 {
          lastFreeLookup := 0;
        }
        failedRands := failedRands + 1;
        found, b := SearchFrom(d, draw, next);
        if found {
          return;
        }
      }
      found, b := GetNextFreeBlock(d);
      if found {
        return;
      }
      lastFreeLookup := 0;
      found, b := GetNextFreeBlock(d);
      assert !found ==> WORD_BITS * lastFreeLookup == 0;
    }

    /** Up to ten searches from random words on; then the next one is to start at the first word. */
    method SearchFrom(d: Ddir, draw: nat -> real, first: nat) returns (found: bool, b: nat)
      requires Valid() && LookupOk() && first > 0 && used.words.Length > 0
      requires forall i :: 0.0 <= draw(i) < 1.0
      modifies `lastFreeLookup
      ensures LookupOk() && opts.ba.Of(d) > 0 && (!found ==> lastFreeLookup == 0)
      ensures found ==> b < |used.bits| && !used.bits[b]
      ensures found ==> b * opts.ba.Of(d) <= ioSize && b * opts.ba.Of(d) <= realSize
    {
      hide Valid, NoneLeft;
      Aligned(d);
      var next := first;
      for loops := 0 to 10
        invariant LookupOk() && next > 0
      {
        lastFreeLookup := Scale(used.words.Length - 1, draw, next - 1);
        found, b := GetNextFreeBlock(d);
        if found {
          return;
        }
        next := next + 1;
      }
      lastFreeLookup := 0;
      found, b := false, 0;
    }

    lemma HasWords(d: Ddir)
      requires Valid() && opts.ba.Of(d) > 0 && LastBlock(d) > 0
      ensures used.words.Length > 0
    {
      BelowLast(d, 0);
    }

    lemma NoBlocks(d: Ddir)
      requires opts.ba.Of(d) > 0 && LastBlock(d) == 0
      ensures NoneLeft(d, 0)
    {
      NoneLeftInBytes(d, 0);
    }

    lemma NoDraws(d: Ddir, draw: nat -> real)
      requires opts.ba.Of(d) > 0 && LastBlock(d) == 0
      ensures forall i | 0 <= i < 5 :: !FirstFreeDraw(d, draw, i)
    {}

    /** Draw i, scaled to the blocks below the last one, is block b. */
    ghost predicate Drawn(d: Ddir, draw: nat -> real, i: nat, b: nat)
      requires opts.ba.Of(d) > 0
    {
      LastBlock(d) > 0 && b as real <= (LastBlock(d) - 1) as real * draw(i) < (b + 1) as real
    }

    /** Draw i is the first that is a free block. */
    ghost predicate FirstFreeDraw(d: Ddir, draw: nat -> real, i: nat)
      requires opts.ba.Of(d) > 0
      reads used
    {
      && (exists b: nat :: Drawn(d, draw, i, b) && b < |used.bits| && !used.bits[b])
      && (forall k, b: nat | 0 <= k < i && Drawn(d, draw, k, b) :: b < |used.bits| && used.bits[b])
    }

    /** Up to five random blocks, until one is free. */
    method DrawBlock(d: Ddir, lastb: nat, draw: nat -> real) returns (found: bool, b: nat, next: nat)
      requires Valid() && opts.ba.Of(d) > 0 && lastb == LastBlock(d) > 0
      requires forall i :: 0.0 <= draw(i) < 1.0
      ensures next > 0 && (found ==> b < lastb && b < |used.bits| && !used.bits[b])
      ensures forall i | 0 <= i < 5 :: FirstFreeDraw(d, draw, i) ==> found && Drawn(d, draw, i, b)
    {
      hide LastBlock, BlockCount, FixedUp, FirstFreeDraw, BusyDraw;
      found, b, next := false, 0, 0;
      while !found && next < 5
        invariant next <= 5 && (next > 0 || !found)
        invariant found ==> next > 0 && Drawn(d, draw, next - 1, b)
        invariant found ==> b < lastb && b < |used.bits| && !used.bits[b]
        invariant forall k | 0 <= k < (if found then next - 1 else next) :: BusyDraw(d, draw, k)
        decreases 5 - next
      {
        b := Scale(lastb - 1, draw, next);
        BelowLast(d, b);
        found := IsFree(b);
        OneBlock(d, draw, next, b);
        next := next + 1;
      }
      FirstOf(d, draw, found, b, next);
    }

    ghost predicate BusyDraw(d: Ddir, draw: nat -> real, k: nat)
      requires opts.ba.Of(d) > 0
      reads used
    {
      forall b: nat | Drawn(d, draw, k, b) :: b < |used.bits| && used.bits[b]
    }

    /** A draw is only one block. */
    lemma OneBlock(d: Ddir, draw: nat -> real, k: nat, b: nat)
      requires opts.ba.Of(d) > 0 && Drawn(d, draw, k, b) && b < |used.bits|
      ensures BusyDraw(d, draw, k) <==> used.bits[b]
    {
      forall c: nat | Drawn(d, draw, k, c)
        ensures c == b
      {
        assert (c as real) < (b + 1) as real && (b as real) < (c + 1) as real;
      }
    }

    lemma FirstOf(d: Ddir, draw: nat -> real, found: bool, b: nat, next: nat)
      requires opts.ba.Of(d) > 0 && 0 < next <= 5 && (!found ==> next == 5)
      requires found ==> Drawn(d, draw, next - 1, b) && b < |used.bits| && !used.bits[b]
      requires forall k | 0 <= k < (if found then next - 1 else next) :: BusyDraw(d, draw, k)
      ensures forall i | 0 <= i < 5 :: FirstFreeDraw(d, draw, i) ==> found && Drawn(d, draw, i, b)
    {
      hide Drawn;
      forall i | 0 <= i < 5 && FirstFreeDraw(d, draw, i)
        ensures found && i == next - 1
      {
        assert i < (if found then next - 1 else next) ==> BusyDraw(d, draw, i);
      }
    }

    ghost predicate IsUsed(x: nat)
      reads used
    {
      x < |used.bits| && used.bits[x]
    }

    /** Every block of the file from lo on is used. */
    ghost predicate NoneLeft(d: Ddir, lo: nat)
      reads used
    {
      forall x: nat | lo <= x && InFile(d, x) :: IsUsed(x)
    }

    lemma NoneLeftInBytes(d: Ddir, lo: nat)
      requires opts.ba.Of(d) > 0 && UsedUpToLast(d, lo)
      ensures NoneLeft(d, lo)
    {
      hide LastBlock, InFile, IsUsed;
      forall x: nat | lo <= x && InFile(d, x)
        ensures IsUsed(x)
      {
        LastBlockInBytes(d, x);
      }
    }

    /** Every block from lo on and below last_block is used. */
    ghost predicate UsedUpToLast(d: Ddir, lo: nat)
      requires opts.ba.Of(d) > 0
      reads used
    {
      forall x | lo <= x < LastBlock(d) :: IsUsed(x)
    }

    ghost predicate AllUsed(lo: nat, hi: nat)
      reads used
    {
      hi <= |used.bits| && forall x | lo <= x < hi :: used.bits[x]
    }

    lemma UsedUpto(i: nat, z: nat)
      requires Valid() && i < used.words.Length && z <= WORD_BITS && forall j | 0 <= j < z :: used.words[i][j]
      ensures forall x | WORD_BITS * i <= x < WORD_BITS * i + z :: x < |used.bits| && used.bits[x]
    {
      forall x | WORD_BITS * i <= x < WORD_BITS * i + z ensures x < |used.bits| && used.bits[x] {
        assert used.words[i][x - WORD_BITS * i];
      }
    }

    lemma Size()
      requires used.Valid()
      ensures |used.bits| == WORD_BITS * used.words.Length
    {}
  }
}
