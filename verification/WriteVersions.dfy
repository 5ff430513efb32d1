/** Versions of writes when offsets may repeat: mark_bit_map and the choice of the version in get_io_u (io_u.c). */
module WriteVersions {
  import opened Words
  import opened BitMaps
  import opened RandomMap
  import opened Bytes

  datatype Write<V> = Write(run: Run, version: V)

  ghost predicate Marked<V>(bits: seq<bool>, ws: seq<Write<V>>)
  {
    forall w <- ws :: AllAre(bits, w.run.lo, w.run.lo + w.run.n, true)
  }

  /** Two writes that share a block carry different versions. */
  ghost predicate Separated<V>(ws: seq<Write<V>>)
  {
    forall i, j | 0 <= i < j < |ws| && ws[i].run.Meets(ws[j].run) :: ws[i].version != ws[j].version
  }

  lemma MarkedMore<V>(bits: seq<bool>, ws: seq<Write<V>>, w: Write<V>)
    requires Marked(bits, ws) && w.run.lo + w.run.n <= |bits|
    ensures Marked(With(bits, w.run.lo, w.run.n, true), ws + [w])
    ensures AllAre(bits, w.run.lo, w.run.lo + w.run.n, false) ==> forall u <- ws :: !u.run.Meets(w.run)
  {
    if AllAre(bits, w.run.lo, w.run.lo + w.run.n, false) {
      var runs := seq(|ws|, i requires 0 <= i < |ws| => ws[i].run);
      IssueStep(bits, runs, w.run);
      forall u | u in ws ensures !u.run.Meets(w.run) {
        var i :| 0 <= i < |ws| && ws[i] == u;
        assert runs[i] in runs;
      }
    }
  }

  class VersionedFile<V(==)> {
    const minBs: nat
    const realSize: nat
    const used: BitMap
    /** td->unique: the version given to the last write. */
    var unique: V
    /** Ghost: the writes since the map was last reset, and every version there has been. */
    ghost var writes: seq<Write<V>>
    ghost var seen: set<V>

    ghost predicate Valid()
      reads this, used, used.words
    {
      && used.Valid() && minBs > 0 && used.words.Length == BlockCount(BlockCount(realSize, minBs), WORD_BITS)
      && Marked(used.bits, writes) && Separated(writes)
      && unique in seen && forall w <- writes :: w.version in seen
    }

    /** The map of init_random_map. */
    constructor (realSize: nat, minBs: nat, first: V)
      requires minBs > 0
      ensures Valid() && writes == [] && fresh(used) && fresh(used.words)
      ensures this.minBs == minBs && this.realSize == realSize && used.bits == Repeat(false, |used.bits|)
      ensures unique == first && seen == {first}
    {
      this.minBs, this.realSize, unique, writes, seen := minBs, realSize, first, [], {first};
      used := new BitMap(BlockCount(BlockCount(realSize, minBs), WORD_BITS));
    }

    /** A range inside the file lies in the map: every word index stays below num_maps. */
    lemma InMap(pos: nat, buflen: nat)
      requires Valid() && pos + buflen <= realSize
      ensures pos / minBs + BlockCount(buflen, minBs) <= |used.bits|
    {
      RangeCount(pos, buflen, realSize, minBs);
    }

    /** mark_bit_map: marks the whole range, and tells whether any of it was marked before. */
    method MarkBitMap(block0: nat, nr0: nat) returns (again: bool)
      requires used.Valid() && block0 + nr0 <= |used.bits|
      modifies used, used.words
      ensures used.Valid() && used.bits == With(old(used.bits), block0, nr0, true)
      ensures again <==> !AllAre(old(used.bits), block0, block0 + nr0, false)
    {
      hide BitMap.Valid, AllAre, With;
      ghost var was := used.bits;
      Size();
      NothingMarked(was, block0);
      var block: nat, nr: nat := block0, nr0;
      again := false;
      while nr > 0
        invariant used.Valid() && |used.bits| == WORD_BITS * used.words.Length && nr <= nr0
                  && block == block0 + nr0 - nr
        invariant used.bits == With(was, block0, nr0 - nr, true)
        invariant again <==> !AllAre(was, block0, block, false)
        decreases nr
      {
        var idx, bit := block / WORD_BITS, block % WORD_BITS;
        assert idx < used.words.Length;
        var now := if nr + bit > WORD_BITS then WORD_BITS - bit else nr;
        var clear := used.MaskClear(idx, now, bit);
        if !clear {
          again := true;
        }
        MarkMore(was, block0, nr0 - nr, now);
        used.SetMask(idx, now, bit);
        nr := nr - now;
        block := block + now;
      }
    }

    lemma Size()
      requires used.Valid()
      ensures |used.bits| == WORD_BITS * used.words.Length
    {}

    /**
      A write with randomagain set and ddir_seq_nr == 1: a range that meets an earlier one gets a new
      version. next is what unique_ops->set would produce.
     */
    method GetWrite(pos: nat, buflen: nat, next: V) returns (version: V, ghost r: Run)
      requires Valid() && pos + buflen <= realSize && next !in seen
      modifies this, used, used.words
      ensures Valid() && version == unique && r == RunOf(pos, buflen, minBs) && r.lo + r.n <= |old(used.bits)|
      ensures writes == old(writes) + [Write(r, version)] && used.bits == With(old(used.bits), r.lo, r.n, true)
      ensures seen == old(seen) + {version}
      ensures version == if AllAre(old(used.bits), r.lo, r.lo + r.n, false) then old(unique) else next
    {
      hide BitMap.Valid, AllAre, With, Marked, BlockCount;
      InMap(pos, buflen);
      r := RunOf(pos, buflen, minBs);
      var block, nr := pos / minBs, BlockCount(buflen, minBs);
      ghost var was := used.bits;
      var again := MarkBitMap(block, nr);
      if again {
        unique := next;
      }
      version := unique;
      MarkedMore(was, writes, Write(Run(block, nr), version));
      writes := writes + [Write(Run(block, nr), version)];
      seen := seen + {unique};
    }

    /** A read marks its range too. */
    method GetRead(pos: nat, buflen: nat) returns (again: bool, ghost r: Run)
      requires Valid() && pos + buflen <= realSize
      modifies used, used.words
      ensures Valid() && r == RunOf(pos, buflen, minBs) && r.lo + r.n <= |old(used.bits)|
      ensures used.bits == With(old(used.bits), r.lo, r.n, true)
      ensures again <==> !AllAre(old(used.bits), r.lo, r.lo + r.n, false)
    {
      hide BitMap.Valid, BlockCount;
      InMap(pos, buflen);
      r := RunOf(pos, buflen, minBs);
      again := MarkBitMap(pos / minBs, BlockCount(buflen, minBs));
    }

    /** fio_file_reset: the map is cleared; versions already given stay given. */
    method Reset()
      requires Valid()
      modifies `writes, used, used.words
      ensures Valid() && writes == []
    {
      used.ClearAll();
      writes := [];
    }
  }

  lemma MarkMore(was: seq<bool>, lo: nat, done: nat, n: nat)
    requires lo + done + n <= |was|
    ensures With(With(was, lo, done, true), lo + done, n, true) == With(was, lo, done + n, true)
    ensures AllAre(With(was, lo, done, true), lo + done, lo + done + n, false)
            <==> AllAre(was, lo + done, lo + done + n, false)
    ensures AllAre(was, lo, lo + done + n, false)
            <==> AllAre(was, lo, lo + done, false) && AllAre(was, lo + done, lo + done + n, false)
  {}
}
