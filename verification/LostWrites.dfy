/** What versions are for: a read-back notices every write that did not reach the disk. */
module LostWrites {
  import opened Bytes
  import opened SegmentLayout
  import opened VerifyBlocks
  import opened RandomMap
  import opened WriteVersions

  /** The writes of a file are numbered; block k of what was read holds what write holder[k] put there. */
  ghost predicate Holds(o: Options, c: Checks, ws: seq<Write<Unique>>, s: seq<byte>, inc: nat, first: nat, offset: nat,
                        holder: seq<nat>)
    requires |s| == |holder| * inc
  {
    forall k | 0 <= k < |holder| ::
      && holder[k] < |ws| && ws[holder[k]].run.Has(first + k)
      && GoodBlock(o, c, BlockOf(s, inc, |holder|, k), offset + k * inc, ws[holder[k]].version)
  }

  ghost predicate Small(v: Unique)
  {
    v.sec < Pow256(4) && v.number < Pow256(4)
  }

  /**
    Of the blocks that write i covers, some are read back. They are accepted with its version exactly if each
    still holds what write i put there: neither an earlier write that a lost one should have replaced, nor a later one.
   */
  lemma ReadBackDetects(f: VersionedFile<Unique>, i: nat, o: Options, c: Checks, s: seq<byte>, inc: nat, first: nat,
                        offset: nat, holder: seq<nat>)
    requires f.Valid() && i < |f.writes| && o.Fits(inc) && o.verifyInner && (forall w <- f.writes :: Small(w.version))
    requires |s| == |holder| * inc && Holds(o, c, f.writes, s, inc, first, offset, holder)
    requires f.writes[i].run.lo <= first && first + |holder| <= f.writes[i].run.lo + f.writes[i].run.n
    ensures Accepted(o, c, s, inc, |holder|, offset, f.writes[i].version)
            <==> forall k | 0 <= k < |holder| :: holder[k] == i
  {
    hide Accepted, GoodBlock, Marked, VersionedFile.Valid;
    Versions(f);
    var ws := f.writes;
    if k :| 0 <= k < |holder| && holder[k] != i {
      OtherVersion(ws, i, holder[k], first + k);
      assert ws[i] in ws && ws[holder[k]] in ws;
      StaleBlockIsRejected(o, c, s, inc, |holder|, k, offset, ws[i].version, ws[holder[k]].version);
    } else {
      GoodIsAccepted(o, c, s, inc, |holder|, offset, ws[i].version);
    }
  }

  lemma Versions(f: VersionedFile<Unique>)
    requires f.Valid()
    ensures Separated(f.writes)
  {}

  lemma OtherVersion(ws: seq<Write<Unique>>, i: nat, j: nat, b: nat)
    requires Separated(ws) && i < |ws| && j < |ws| && i != j && ws[i].run.Has(b) && ws[j].run.Has(b)
    ensures ws[i].version != ws[j].version
  {
    assert ws[i].run.Meets(ws[j].run) && ws[j].run.Meets(ws[i].run);
  }
}
