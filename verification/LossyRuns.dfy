/**
  Runs on a device that loses writes: a write that is logged may not reach the disk. With versions compared,
  a verify step finds out exactly.
 */
module LossyRuns {
  import opened Basics
  import opened Words
  import opened BitMaps
  import opened Bytes
  import opened SegmentMap
  import opened SegmentLayout
  import opened SegmentHistory
  import opened VerifyBlocks
  import opened WriteVerify
  import opened RandomMap
  import opened WriteVersions
  import opened LostWrites
  import opened Uniques

  // ---- which write a block should hold, and which it does ----

  function WriteOf(block: nat, n: nat, version: Unique): Write<Unique>
  {
    Write(Run(block, n), version)
  }

  /** The last write over block b. */
  ghost function LastOver(ws: seq<Write<Unique>>, b: nat): (r: Option<nat>)
    ensures r.Some? ==> r.value < |ws| && ws[r.value].run.Has(b)
  {
    if ws == [] then None
    else if ws[|ws| - 1].run.Has(b) then Some(|ws| - 1)
    else LastOver(ws[..|ws| - 1], b)
  }

  /** The last write over block b that reached the disk. */
  ghost function LastArrived(ws: seq<Write<Unique>>, arrived: seq<bool>, b: nat): (r: Option<nat>)
    requires |arrived| == |ws|
    ensures r.Some? ==> r.value < |ws| && ws[r.value].run.Has(b) && arrived[r.value]
  {
    if ws == [] then None
    else
      var n := |ws| - 1;
      if ws[n].run.Has(b) && arrived[n] then Some(n) else LastArrived(ws[..n], arrived[..n], b)
  }

  /** The last write over block b reached the disk. */
  ghost predicate Reached(ws: seq<Write<Unique>>, arrived: seq<bool>, b: nat)
    requires |arrived| == |ws|
  {
    LastOver(ws, b).Some? && arrived[LastOver(ws, b).value]
  }

  lemma LastStep(ws: seq<Write<Unique>>, arrived: seq<bool>, w: Write<Unique>, a: bool, b: nat)
    requires |arrived| == |ws|
    ensures LastOver(ws + [w], b) == if w.run.Has(b) then Some(|ws|) else LastOver(ws, b)
    ensures LastArrived(ws + [w], arrived + [a], b)
            == if w.run.Has(b) && a then Some(|ws|) else LastArrived(ws, arrived, b)
  {
    assert (ws + [w])[..|ws|] == ws && (arrived + [a])[..|ws|] == arrived;
  }

  /** A block holds the write it should exactly if that write reached the disk. */
  lemma {:induction false} ReachedIff(ws: seq<Write<Unique>>, arrived: seq<bool>, b: nat)
    requires |arrived| == |ws| && LastOver(ws, b).Some?
    ensures Reached(ws, arrived, b) <==> LastArrived(ws, arrived, b) == LastOver(ws, b)
  {
    var n := |ws| - 1;
    if !ws[n].run.Has(b) {
      ReachedIff(ws[..n], arrived[..n], b);
    }
  }

  /** The versions expected are those of the last writes. */
  ghost predicate Expects(ws: seq<Write<Unique>>, latest: map<nat, Unique>)
  {
    forall b <- latest :: LastOver(ws, b).Some? && latest[b] == ws[LastOver(ws, b).value].version
  }

  // ---- what the disk holds ----

  /** The header h claims to be that of a write of version v at this offset. */
  ghost predicate Claims(h: seq<byte>, offset: nat, v: Unique)
    requires |h| >= HDR_LEN
  {
    && Bytes.Decode(Slice(h, 0, 2)) == FIO_HDR_MAGIC && Bytes.Decode(Slice(h, 4, 8)) == offset
    && Slice(h, 28, 8) == VersionBytes(v)
  }

  /** The block was there before the run: it claims no version from the start of the run on. */
  ghost predicate Foreign(o: Options, blk: seq<byte>, offset: nat, since: nat)
  {
    o.Fits(|blk|) && forall v: Unique | since <= v.sec :: !Claims(Swapped(o, blk), offset, v)
  }

  /** Block b holds the last write over it that arrived, or what was there before. */
  ghost predicate StoredAt(o: Options, c: Checks, f: FioFile, disk: seq<byte>, ws: seq<Write<Unique>>,
                           arrived: seq<bool>, since: nat, b: nat)
    requires |arrived| == |ws|
  {
    var at, m := Position(f, o.minBs, b), o.minBs;
    at + m <= |disk| ==>
      match LastArrived(ws, arrived, b)
      case Some(i) => GoodBlock(o, c, Slice(disk, at, m), at, ws[i].version)
      case None => Foreign(o, Slice(disk, at, m), at, since)
  }

  ghost predicate Stored(o: Options, c: Checks, f: FioFile, disk: seq<byte>, ws: seq<Write<Unique>>,
                         arrived: seq<bool>, since: nat)
  {
    |arrived| == |ws| && forall b: nat :: StoredAt(o, c, f, disk, ws, arrived, since, b)
  }

  lemma StoredAtStart(o: Options, c: Checks, f: FioFile, disk: seq<byte>, since: nat)
    requires forall b: nat :: Position(f, o.minBs, b) + o.minBs <= |disk|
               ==> Foreign(o, Slice(disk, Position(f, o.minBs, b), o.minBs), Position(f, o.minBs, b), since)
    ensures Stored(o, c, f, disk, [], [], since)
  {}

  /** A write is issued; if it arrives, its blocks are on the disk, and else nothing has changed there. */
  lemma StoredAfterWrite(o: Options, c: Checks, f: FioFile, disk: seq<byte>, ws: seq<Write<Unique>>,
                         arrived: seq<bool>, since: nat, g: Seg, data: seq<byte>, a: bool)
    requires Stored(o, c, f, disk, ws, arrived, since) && |data| == g.nrBlk * o.minBs
    requires Position(f, o.minBs, g.block) + |data| <= |disk|
    requires GoodUpto(o, c, data, o.minBs, g.nrBlk, g.nrBlk, Position(f, o.minBs, g.block), g.version)
    ensures Stored(o, c, f, if a then Splice(disk, Position(f, o.minBs, g.block), data) else disk,
                   ws + [WriteOf(g.block, g.nrBlk, g.version)], arrived + [a], since)
  {
    hide GoodBlock, GoodUpto, Foreign, Slice, Splice, Position, LastArrived;
    var w := WriteOf(g.block, g.nrBlk, g.version);
    var after := if a then Splice(disk, Position(f, o.minBs, g.block), data) else disk;
    forall b: nat
      ensures StoredAt(o, c, f, after, ws + [w], arrived + [a], since, b)
    {
      LastStep(ws, arrived, w, a, b);
      assert StoredAt(o, c, f, disk, ws, arrived, since, b);
      if a && g.Has(b) {
        WriteHoldsInside(o, c, disk, f, g, data, b - g.block);
      } else if a && Position(f, o.minBs, b) + o.minBs <= |disk| {
        WriteKeepsOutside(f, o.minBs, disk, g, data, b);
      }
    }
  }

  lemma ExpectsAfterWrite(ws: seq<Write<Unique>>, latest: map<nat, Unique>, g: Seg)
    requires Expects(ws, latest)
    ensures Expects(ws + [WriteOf(g.block, g.nrBlk, g.version)], Overlay(latest, g.block, g.End(), g.version))
  {
    hide LastOver;
    var w := WriteOf(g.block, g.nrBlk, g.version);
    var arrived := Repeat(true, |ws|);
    forall b <- Overlay(latest, g.block, g.End(), g.version)
      ensures var r := LastOver(ws + [w], b);
              r.Some? && Overlay(latest, g.block, g.End(), g.version)[b] == (ws + [w])[r.value].version
    {
      LastStep(ws, arrived, w, true, b);
    }
  }

  lemma ExpectsAfterHandout(ws: seq<Write<Unique>>, latest: map<nat, Unique>, g: Seg)
    requires Expects(ws, latest)
    ensures Expects(ws, Without(latest, g.block, g.End()))
  {}

  // ---- what verify_io_u makes of it ----

  lemma ForeignRejected(o: Options, c: Checks, s: seq<byte>, inc: nat, n: nat, j: nat, offset: nat, version: Unique,
                        since: nat)
    requires |s| == n * inc && j < n && o.Fits(inc) && o.verifyInner && since <= version.sec
    requires Foreign(o, BlockOf(s, inc, n, j), offset + j * inc, since)
    ensures !Accepted(o, c, s, inc, n, offset, version)
  {
    hide DigestOkAt, Swapped, VersionBytes, Bytes.Decode, Slice;
    assert !Claims(Swapped(o, BlockOf(s, inc, n, j)), offset + j * inc, version);
    assert !HeaderOkAt(o, c, s, inc, n, j, offset, version);
  }

  /** Block j of what is read for the piece g is good. */
  ghost predicate ReadsGoodAt(o: Options, c: Checks, disk: seq<byte>, f: FioFile, g: Seg, j: nat)
  {
    hide Position, Slice, GoodBlockAt;
    var at, n := Position(f, o.minBs, g.block), g.nrBlk * o.minBs;
    j < g.nrBlk && at + n <= |disk| && GoodBlockAt(o, c, Slice(disk, at, n), o.minBs, g.nrBlk, j, at, g.version)
  }

  /** Block j of a piece, as it is read back. */
  lemma BlockVerdict(o: Options, c: Checks, f: FioFile, disk: seq<byte>, ws: seq<Write<Unique>>, arrived: seq<bool>,
                     since: nat, g: Seg, j: nat)
    requires Stored(o, c, f, disk, ws, arrived, since) && Separated(ws) && o.Fits(o.minBs) && o.verifyInner
    requires forall w <- ws :: Small(w.version) && since <= w.version.sec
    requires j < g.nrBlk && Position(f, o.minBs, g.block) + g.nrBlk * o.minBs <= |disk|
    requires LastOver(ws, g.block + j).Some? && ws[LastOver(ws, g.block + j).value].version == g.version
    ensures Reached(ws, arrived, g.block + j) ==> ReadsGoodAt(o, c, disk, f, g, j)
    ensures !Reached(ws, arrived, g.block + j) ==> !ReadsAccepted(o, c, disk, f, g)
  {
    hide GoodBlock, Foreign, Slice, Position, BlockOf, Accepted, LastOver, LastArrived, Options.Fits, Small;
    var b, m := g.block + j, o.minBs;
    ReadBlock(disk, f, m, g.block, g.nrBlk, j);
    PositionInBuffer(f, m, g.block, j);
    ReachedIff(ws, arrived, b);
    assert StoredAt(o, c, f, disk, ws, arrived, since, b);
    var at, s := Position(f, m, g.block), Slice(disk, Position(f, m, g.block), g.nrBlk * m);
    var want, have := LastOver(ws, b), LastArrived(ws, arrived, b);
    assert ws[want.value] in ws;
    match have
    case None =>
      ForeignRejected(o, c, s, m, g.nrBlk, j, at, g.version, since);
    case Some(i) =>
      if have != want {
        assert ws[i] in ws;
        OtherVersion(ws, i, want.value, b);
        SmallParts(ws[i].version);
        SmallParts(g.version);
        StaleBlockIsRejected(o, c, s, m, g.nrBlk, j, at, g.version, ws[i].version);
      }
  }

  lemma SmallParts(v: Unique)
    requires Small(v)
    ensures v.sec < Pow256(4) && v.number < Pow256(4)
  {}

  /** A piece that is due is accepted exactly if the last write over each of its blocks reached the disk. */
  lemma PieceVerdict(o: Options, c: Checks, f: FioFile, disk: seq<byte>, ws: seq<Write<Unique>>, arrived: seq<bool>,
                     since: nat, latest: map<nat, Unique>, g: Seg)
    requires |arrived| == |ws| && Stored(o, c, f, disk, ws, arrived, since)
    requires Separated(ws) && o.Fits(o.minBs) && o.verifyInner
    requires forall w <- ws :: Small(w.version) && since <= w.version.sec
    requires Expects(ws, latest) && forall b: nat | g.Has(b) :: b in latest && latest[b] == g.version
    requires Position(f, o.minBs, g.block) + g.nrBlk * o.minBs <= |disk|
    ensures ReadsAccepted(o, c, disk, f, g) <==> forall b: nat | g.Has(b) :: Reached(ws, arrived, b)
  {
    hide Stored, GoodBlock, Slice, Position, BlockOf, Accepted, LastOver, Options.Fits, Small, Reached, Separated;
    var at, m := Position(f, o.minBs, g.block), o.minBs;
    var s := Slice(disk, at, g.nrBlk * m);
    if b: nat :| g.Has(b) && !Reached(ws, arrived, b) {
      BlockVerdict(o, c, f, disk, ws, arrived, since, g, b - g.block);
    } else {
      forall j: nat | j < g.nrBlk
        ensures GoodBlock(o, c, BlockOf(s, m, g.nrBlk, j), at + j * m, g.version)
      {
        assert g.Has(g.block + j);
        BlockVerdict(o, c, f, disk, ws, arrived, since, g, j);
        assert ReadsGoodAt(o, c, disk, f, g, j);
      }
      GoodIsAccepted(o, c, s, m, g.nrBlk, at, g.version);
    }
  }

  // ---- the job ----

  /** A step of a run: a write that arrives or not, or a verify step. */
  datatype Step = DoWrite(block: nat, n: nat, fill: seq<byte>, seed: nat, now: nat, arrives: bool) | DoVerify

  /** The writes so far, which of them arrived, what was logged and handed out, and the disk. */
  datatype Snapshot = Snapshot(ws: seq<Write<Unique>>, arrived: seq<bool>, trace: seq<Event>, disk: seq<byte>)

  ghost predicate Given(given: set<Unique>, since: nat)
  {
    forall u <- given :: Small(u) && since <= u.sec
  }

  /** All writes lie in the first size bytes of the file. */
  ghost predicate WithinFile(ws: seq<Write<Unique>>, m: nat, size: nat)
  {
    forall w <- ws :: (w.run.lo + w.run.n) * m <= size
  }

  lemma WithinFileMore(ws: seq<Write<Unique>>, m: nat, size: nat, w: Write<Unique>)
    requires WithinFile(ws, m, size) && w.run.lo * m + w.run.n * m <= size
    ensures WithinFile(ws + [w], m, size)
  {
    TimesSum(w.run.lo, w.run.n, m);
  }

  /** The blocks of a piece that is due lie in the file. */
  lemma PieceInside(ws: seq<Write<Unique>>, m: nat, size: nat, latest: map<nat, Unique>, g: Seg)
    requires WithinFile(ws, m, size) && Expects(ws, latest) && g.nrBlk > 0
    requires forall b: nat | g.Has(b) :: b in latest && latest[b] == g.version
    ensures g.block * m + g.nrBlk * m <= size
  {
    hide LastOver;
    var b := g.End() - 1;
    assert g.Has(b);
    var w := ws[LastOver(ws, b).value];
    assert w in ws;
    TimesMonotone(m, g.End(), w.run.lo + w.run.n);
    TimesSum(g.block, g.nrBlk, m);
  }

  lemma TimesSum(a: nat, b: nat, m: nat)
    ensures (a + b) * m == a * m + b * m
  {}

  /** A job on one file, with randomagain and verify_inner set. */
  class LossyJob {
    const o: Options
    const c: Checks
    const f: FioFile
    const history: History
    const versions: VersionedFile<Unique>
    const source: TimeNumber
    /** The start of the run, in seconds. */
    const since: nat
    var disk: seq<byte>
    /** Ghost: which of the writes reached the disk. */
    ghost var arrived: seq<bool>

    ghost predicate Valid()
      reads this, history, history.segs.Keys, history.files, (set h <- history.files :: h.map2), versions,
            versions.used, versions.used.words, source
    {
      && o.randomagain && o.verifyInner && o.Fits(o.minBs) && Apart()
      && history.Valid() && versions.Valid() && source.Valid() && source.Unrepeated()
      && versions.seen <= source.given && Given(source.given, since)
      && Expects(versions.writes, Latest(history.trace, f))
      && Stored(o, c, f, disk, versions.writes, arrived, since)
      && WithinFile(versions.writes, o.minBs, versions.realSize)
    }

    /** One file, with a version map as large as its block map, inside the disk. */
    ghost predicate Apart()
      reads this
    {
      && history.files == {f} && f.map2 != versions.used.words && f.map2.Length == 2 * versions.used.words.Length
      && versions.minBs == o.minBs && f.fileOffset + versions.realSize <= |disk| <= Pow256(8)
    }

    /** Nothing written yet, and nothing on the disk that claims to be from this run. */
    constructor (o: Options, c: Checks, f: FioFile, history: History, versions: VersionedFile<Unique>,
                 source: TimeNumber, since: nat, disk: seq<byte>)
      requires o.randomagain && o.verifyInner && o.Fits(o.minBs) && history.Valid() && versions.Valid()
      requires source.Valid() && source.Unrepeated() && versions.seen <= source.given && Given(source.given, since)
      requires history.files == {f} && f.map2 != versions.used.words && f.map2.Length == 2 * versions.used.words.Length
      requires versions.minBs == o.minBs && f.fileOffset + versions.realSize <= |disk| <= Pow256(8)
      requires history.trace == [] && versions.writes == []
      requires forall b: nat :: Position(f, o.minBs, b) + o.minBs <= |disk|
                 ==> Foreign(o, Slice(disk, Position(f, o.minBs, b), o.minBs), Position(f, o.minBs, b), since)
      ensures Valid() && arrived == [] && this.history == history && this.versions == versions && this.source == source
      ensures this.o == o && this.c == c && this.f == f && this.since == since && this.disk == disk
    {
      hide History.Valid, VersionedFile.Valid, Foreign, Position, Options.Fits, Small;
      StoredAtStart(o, c, f, disk, since);
      this.o, this.c, this.f, this.history, this.versions, this.source := o, c, f, history, versions, source;
      this.since, this.disk, arrived := since, disk, [];
    }

    /** A write of n blocks gets its version, is logged, and reaches the disk or not. */
    method Write(block: nat, n: nat, fill: seq<byte>, seed: nat, now: nat, arrives: bool) returns (g: Seg)
      requires Valid() && n > 0 && |fill| == n * o.minBs && block * o.minBs + |fill| <= versions.realSize
      requires Unspoiled(history.trace, f) && since <= now < Pow256(4)
      requires source.lastNumber == 0 ==> source.lastTime < now
      modifies this, history, history.segs.Keys, f`cells, f.map2, versions, versions.used, versions.used.words, source
      ensures Valid() && fresh(history.segs.Keys - old(history.segs).Keys) && |disk| == |old(disk)|
      ensures g.block == block && g.nrBlk == n && history.trace == old(history.trace) + [Logged(f, g)]
      ensures versions.writes == old(versions.writes) + [WriteOf(block, n, g.version)]
      ensures arrived == old(arrived) + [arrives]
      ensures if arrives then Landed(o, c, old(disk), disk, f, g, fill) else disk == old(disk)
    {
      hide Landed, History.Valid, VersionedFile.Valid, Options.Fits, Small, Stored, Expects, Latest, Position,
           AllRemovable, Removable, Unspoiled, Given, WithinFile, TimeNumber.Valid,
           TimeNumber.Unrepeated, TimeNumber.Next;
      StepsPositive(o, o.minBs);
      InFile(block, n);
      ghost var ws := versions.writes;
      var version := NextVersion(versions, source, since, block, n, now);
      g := Seg(block, n, version);
      WithinFileMore(ws, o.minBs, versions.realSize, WriteOf(block, n, version));
      Land(Seg(block, n, version), fill, seed, arrives, ws);
    }

    /** The write is logged, and reaches the disk or not. */
    method Land(g: Seg, fill: seq<byte>, seed: nat, arrives: bool, ghost ws: seq<Write<Unique>>)
      requires Apart() && history.Valid() && Unspoiled(history.trace, f)
      requires o.randomagain && o.Fits(o.minBs) && o.minBs > 0
      requires Expects(ws, Latest(history.trace, f)) && Stored(o, c, f, disk, ws, arrived, since)
      requires g.nrBlk > 0 && g.End() <= f.Blocks()
      requires |fill| == g.nrBlk * o.minBs && Position(f, o.minBs, g.block) + |fill| <= |disk|
      modifies `disk, `arrived, history, history.segs.Keys, f`cells, f.map2
      ensures Apart() && history.Valid() && fresh(history.segs.Keys - old(history.segs).Keys)
      ensures history.trace == old(history.trace) + [Logged(f, g)]
      ensures Expects(ws + [WriteOf(g.block, g.nrBlk, g.version)], Latest(history.trace, f))
      ensures Stored(o, c, f, disk, ws + [WriteOf(g.block, g.nrBlk, g.version)], arrived, since)
      ensures |disk| == |old(disk)| && arrived == old(arrived) + [arrives]
      ensures if arrives then Landed(o, c, old(disk), disk, f, g, fill) else disk == old(disk)
    {
      hide History.Valid, Options.Fits, Stored, Expects, Latest, Position, Splice, GoodUpto, Unspoiled, Filled, Landed;
      var data := PopulatedBuffer(o, c, f, g, fill, seed);
      StoredAfterWrite(o, c, f, disk, ws, arrived, since, g, data, arrives);
      Lands(o, c, disk, f, g, data, fill);
      if arrives {
        disk := Splice(disk, Position(f, o.minBs, g.block), data);
      }
      arrived := arrived + [arrives];
      LogIt(g, |fill|, ws);
    }

    method LogIt(g: Seg, buflen: nat, ghost ws: seq<Write<Unique>>)
      requires history.files == {f} && history.Valid() && Unspoiled(history.trace, f) && o.minBs > 0
      requires Expects(ws, Latest(history.trace, f))
      requires g.nrBlk > 0 && g.End() <= f.Blocks() && buflen == g.nrBlk * o.minBs
      modifies history, history.segs.Keys, f`cells, f.map2
      ensures history.Valid() && fresh(history.segs.Keys - old(history.segs).Keys)
      ensures history.trace == old(history.trace) + [Logged(f, g)]
      ensures Expects(ws + [WriteOf(g.block, g.nrBlk, g.version)], Latest(history.trace, f))
    {
      hide History.Valid, History.LastIs, Expects, Latest, AllRemovable, Removable, Unspoiled, Overlay;
      ExpectsAfterWrite(ws, Latest(history.trace, f), g);
      LatestStep(history.trace, Logged(f, g), f);
      BlockArithmetic(f, o.minBs, g.block, g.nrBlk);
      history.LogIoPiece(f, Position(f, o.minBs, g.block), buflen, g.version, o.minBs);
    }

    /** What a verify step must come to: 0 exactly if the last write over each block of the piece reached the disk. */
    ghost predicate Told(r: Outcome, e: Option<Event>, trace: seq<Event>, ws: seq<Write<Unique>>, arrived: seq<bool>)
    {
      match e
      case None => r == NothingToVerify && Latest(trace, f) == map[]
      case Some(Logged(_, _)) => false
      case Some(Handed(h, g)) =>
        && h == f && r.Checked? && Due(trace, f, g) && |arrived| == |ws|
        && (r.ret == 0 <==> forall b: nat | g.Has(b) :: Reached(ws, arrived, b))
    }

    /** The oldest piece is read back and judged. */
    method VerifyNext() returns (r: Outcome, e: Option<Event>)
      requires Valid()
      modifies history, history.segs.Keys, history.files, set h <- history.files :: h.map2
      ensures Valid() && Told(r, e, old(history.trace), versions.writes, arrived)
      ensures history.trace == old(history.trace) + if e.Some? then [e.value] else []
      ensures history.segs.Keys <= old(history.segs).Keys
    {
      hide History.Valid, VersionedFile.Valid, Options.Fits, Small, Stored, Latest, AllRemovable,
           Removable, Unspoiled, Given, TimeNumber.Valid, TimeNumber.Unrepeated, Reached, LastOver, WithinFile,
           Expects, Separated, Told, Without;
      Facts();
      if history.list == [] {
        history.NothingListed();
      }
      var h, g := history.GetNextVerify(o.minBs);
      if h.NoPiece? {
        ToldNothing(history.trace, versions.writes, arrived);
        return NothingToVerify, None;
      }
      e := Some(Handed(h.file, g));
      LatestStep(old(history.trace), Handed(f, g), f);
      ExpectsAfterHandout(versions.writes, Latest(old(history.trace), f), g);
      PieceInside(versions.writes, o.minBs, versions.realSize, Latest(old(history.trace), f), g);
      var ret := Judge(g, h.offset, h.buflen, h.version, Latest(old(history.trace), f));
      r := Checked(ret);
      ToldExactly(ret, g, old(history.trace), versions.writes, arrived);
    }

    lemma ToldNothing(trace: seq<Event>, ws: seq<Write<Unique>>, arrived: seq<bool>)
      requires Latest(trace, f) == map[]
      ensures Told(NothingToVerify, None, trace, ws, arrived)
    {}

    lemma ToldExactly(ret: nat, g: Seg, trace: seq<Event>, ws: seq<Write<Unique>>, arrived: seq<bool>)
      requires |arrived| == |ws| && Due(trace, f, g)
      requires ret == 0 <==> forall b: nat | g.Has(b) :: Reached(ws, arrived, b)
      ensures Told(Checked(ret), Some(Handed(f, g)), trace, ws, arrived)
    {}

    lemma Facts()
      requires Valid()
      ensures |arrived| == |versions.writes| && Separated(versions.writes)
      ensures forall w <- versions.writes :: Small(w.version) && since <= w.version.sec
    {
      hide History.Valid, Expects, Latest, Small, WithinFile, Options.Fits;
    }

    /** Reads back what a piece names, and verifies it. */
    method Judge(g: Seg, offset: nat, buflen: nat, version: Unique, ghost latest: map<nat, Unique>) returns (ret: nat)
      requires o.randomagain && o.verifyInner && o.Fits(o.minBs) && |arrived| == |versions.writes|
      requires Expects(versions.writes, latest) && Stored(o, c, f, disk, versions.writes, arrived, since)
      requires Separated(versions.writes) && (forall w <- versions.writes :: Small(w.version) && since <= w.version.sec)
      requires forall b: nat | g.Has(b) :: b in latest && latest[b] == g.version
      requires offset == Position(f, o.minBs, g.block) && buflen == g.nrBlk * o.minBs && version == g.version
      requires offset + buflen <= |disk|
      ensures ret == 0 <==> forall b: nat | g.Has(b) :: Reached(versions.writes, arrived, b)
    {
      hide Options.Fits, Position, Accepted, Stored, Small, Reached, LastOver, Expects, Separated;
      PieceVerdict(o, c, f, disk, versions.writes, arrived, since, latest, g);
      var buf := new byte[buflen](_ => 0);
      Put(buf, 0, Slice(disk, offset, buflen));
      assert buf[..] == Slice(disk, offset, buflen);
      ret := VerifyIoU(o, c, buf, g.nrBlk, offset, version);
    }

    /** What a run is known by. */
    ghost function Now(): Snapshot
      reads this, history, versions
    {
      Snapshot(versions.writes, arrived, history.trace, disk)
    }

    /** A write the job can make: whole blocks inside the file. */
    ghost predicate Possible(s: Step)
    {
      s.DoWrite? ==>
        && s.n > 0 && |s.fill| == s.n * o.minBs && s.block * o.minBs + |s.fill| <= versions.realSize
        && since <= s.now < Pow256(4)
    }

    /** What a step must come to, with what was known before and after it. */
    ghost predicate Right(s: Step, r: Outcome, e: Option<Event>, a: Snapshot, b: Snapshot)
    {
      && b.trace == a.trace + (if e.Some? then [e.value] else [])
      && match s
         case DoWrite(block, n, fill, _, _, arrives) =>
           && r == Wrote && e.Some? && e.value.Logged? && e.value.file == f
           && e.value.seg.block == block && e.value.seg.nrBlk == n
           && b.ws == a.ws + [WriteOf(block, n, e.value.seg.version)]
           && b.arrived == a.arrived + [arrives]
           && if arrives then Landed(o, c, a.disk, b.disk, f, e.value.seg, fill) else b.disk == a.disk
         case DoVerify =>
           && b.ws == a.ws && b.arrived == a.arrived && b.disk == a.disk
           && Told(r, e, a.trace, a.ws, a.arrived)
    }

    method TakeStep(s: Step) returns (r: Outcome, e: Option<Event>)
      requires Valid() && Possible(s)
      requires s.DoWrite? ==> Unspoiled(history.trace, f) && (source.lastNumber == 0 ==> source.lastTime < s.now)
      modifies this, history, history.segs.Keys, history.files, (set h <- history.files :: h.map2), versions,
               versions.used, versions.used.words, source
      ensures Valid() && fresh(history.segs.Keys - old(history.segs).Keys)
      ensures Right(s, r, e, old(Now()), Now())
    {
      hide Valid, Told, Unspoiled, Landed;
      OneFile();
      match s
      case DoWrite(block, n, fill, seed, now, arrives) =>
        var g := Write(block, n, fill, seed, now, arrives);
        r, e := Wrote, Some(Logged(f, g));
      case DoVerify =>
        r, e := VerifyNext();
    }

    lemma OneFile()
      requires Valid()
      ensures history.files == {f}
    {}

    /**
      Every run of writes, lost or not, and verify steps, up to the first write that follows the handout of a piece
      that remove_seg could not clear, or that would be given a version for the second time. Each verify step
      returns 0 exactly if the last write over each block of the piece it checks reached the disk.
     */
    method Run(steps: seq<Step>, spoiled0: bool)
        returns (results: seq<Outcome>, events: seq<Option<Event>>, spoiled: bool, ghost snaps: seq<Snapshot>)
      requires Valid() && (spoiled0 <==> !Unspoiled(history.trace, f)) && forall s <- steps :: Possible(s)
      modifies this, history, history.segs.Keys, history.files, (set h <- history.files :: h.map2), versions,
               versions.used, versions.used.words, source
      ensures Valid() && (spoiled <==> !Unspoiled(history.trace, f))
      ensures fresh(history.segs.Keys - old(history.segs).Keys)
      ensures |results| == |events| <= |steps| && |snaps| == |events| + 1
      ensures snaps[0] == old(Now()) && snaps[|events|] == Now()
      ensures forall i | 0 <= i < |events| :: Right(steps[i], results[i], events[i], snaps[i], snaps[i + 1])
      ensures |events| < |steps| ==>
                && steps[|events|].DoWrite?
                && (spoiled || (source.lastNumber == 0 && steps[|events|].now <= source.lastTime))
    {
      hide Valid, Possible, Unspoiled, Right;
      results, events, spoiled, snaps := [], [], spoiled0, [Now()];
      for i := 0 to |steps|
        invariant Valid() && (spoiled <==> !Unspoiled(history.trace, f))
        invariant fresh(history.segs.Keys - old(history.segs).Keys)
        invariant |results| == |events| == i && |snaps| == i + 1 && snaps[0] == old(Now()) && snaps[i] == Now()
        invariant forall k | 0 <= k < i :: Right(steps[k], results[k], events[k], snaps[k], snaps[k + 1])
      {
        if steps[i].DoWrite? && (spoiled || (source.lastNumber == 0 && steps[i].now <= source.lastTime)) {
          return;
        }
        ghost var before := Now();
        var r, e := TakeStep(steps[i]);
        TraceOf(steps[i], r, e, before, Now());
        spoiled := spoiled || (e.Some? && Spoiler(e, f));
        results, events, snaps := results + [r], events + [e], snaps + [Now()];
      }
    }

    lemma TraceOf(s: Step, r: Outcome, e: Option<Event>, a: Snapshot, b: Snapshot)
      requires Right(s, r, e, a, b)
      ensures Unspoiled(b.trace, f) <==> Unspoiled(a.trace, f) && !Spoiler(e, f)
    {
      hide Told, Unspoiled, Landed;
      if e.Some? {
        UnspoiledStep(a.trace, e.value, f);
      } else {
        assert a.trace + [] == a.trace;
      }
    }

    /** A range inside the file lies on the disk and in the map. */
    lemma InFile(block: nat, n: nat)
      requires Valid() && block * o.minBs + n * o.minBs <= versions.realSize
      ensures o.minBs > 0 && block + n <= f.Blocks()
      ensures Position(f, o.minBs, block) + n * o.minBs <= |disk|
    {
      hide History.Valid, Stored, Expects, Latest, Small;
      StepsPositive(o, o.minBs);
      BlockRange(block, n, o.minBs);
      versions.InMap(block * o.minBs, n * o.minBs);
    }
  }

  /** The version of a write: a new one if it meets an earlier write, else the current one. */
  method NextVersion(versions: VersionedFile<Unique>, source: TimeNumber, ghost since: nat, block: nat, n: nat,
                     now: nat) returns (version: Unique)
    requires versions.Valid() && source.Valid() && source.Unrepeated() && versions.seen <= source.given
    requires Given(source.given, since) && since <= now < Pow256(4)
    requires source.lastNumber == 0 ==> source.lastTime < now
    requires block * versions.minBs + n * versions.minBs <= versions.realSize
    modifies versions, versions.used, versions.used.words, source
    ensures versions.Valid() && source.Valid() && source.Unrepeated() && versions.seen <= source.given
    ensures Given(source.given, since) && Small(version) && since <= version.sec
    ensures versions.writes == old(versions.writes) + [WriteOf(block, n, version)]
  {
    hide AllAre, With, BitMap.Valid, Marked, Separated;
    var next := source.Next(now);
    source.NewUnlessWrapped(now);
    BlockRange(block, n, versions.minBs);
    ghost var r;
    version, r := versions.GetWrite(block * versions.minBs, n * versions.minBs, next);
    if version == next {
      var u := source.Set(now);
    }
  }

  lemma BlockRange(block: nat, n: nat, m: nat)
    requires m > 0
    ensures RunOf(block * m, n * m, m) == Run(block, n)
  {
    DivideBlocks(block, m, 0);
    DivideBlocks(n, m, m - 1);
  }

  /** A job from the start: its maps as init_random_map makes them, and its first version as the job options set it. */
  method Start(o: Options, c: Checks, offset: nat, realSize: nat, hash: (FioFile, nat) -> nat, nrBuckets: nat, now: nat,
               disk: seq<byte>) returns (job: LossyJob)
    requires o.randomagain && o.verifyInner && o.Fits(o.minBs) && nrBuckets > 0 && now < Pow256(4)
    requires offset + realSize <= |disk| <= Pow256(8)
    requires forall at: nat :: at + o.minBs <= |disk| ==> Foreign(o, Slice(disk, at, o.minBs), at, now)
    ensures job.Valid() && job.arrived == [] && job.versions.writes == [] && job.history.trace == [] && job.disk == disk
    ensures job.o == o && job.c == c && job.since == now && job.versions.realSize == realSize && fresh(job)
  {
    hide Foreign, BlockCount, Options.Fits, History.Valid, VersionedFile.Valid, TimeNumber.Valid, TimeNumber.Unrepeated,
         Given, LossyJob.Valid, Claims;
    StepsPositive(o, o.minBs);
    var num := BlockCount(BlockCount(realSize, o.minBs), WORD_BITS);
    var f, history := NewHistory(offset, num, hash, nrBuckets);
    var source, versions := NewVersions(realSize, o.minBs, now);
    job := new LossyJob(o, c, f, history, versions, source, now, disk);
  }

  method NewHistory(offset: nat, num: nat, hash: (FioFile, nat) -> nat, nrBuckets: nat)
      returns (f: FioFile, history: History)
    requires nrBuckets > 0
    ensures history.Valid() && history.files == {f} && history.trace == [] && history.segs == map[]
    ensures f.fileOffset == offset && f.map2.Length == 2 * num && fresh(f) && fresh(f.map2) && fresh(history)
  {
    hide History.Valid;
    f := new FioFile(offset, num);
    history := new History({f}, hash, nrBuckets);
  }

  method NewVersions(realSize: nat, minBs: nat, now: nat)
      returns (source: TimeNumber, versions: VersionedFile<Unique>)
    requires minBs > 0 && now < Pow256(4)
    ensures source.Valid() && source.Unrepeated() && Given(source.given, now) && versions.Valid()
    ensures versions.seen <= source.given && versions.writes == [] && versions.minBs == minBs
    ensures versions.realSize == realSize && fresh(source) && fresh(versions) && fresh(versions.used)
    ensures fresh(versions.used.words)
    ensures versions.used.words.Length == BlockCount(BlockCount(realSize, minBs), WORD_BITS)
  {
    hide BlockCount, BitMap.Valid;
    Widths();
    source := new TimeNumber();
    var first := source.Set(now);
    versions := new VersionedFile(realSize, minBs, first);
  }

  lemma Widths()
    ensures Pow256(4) == U32 > 1
  {}

  /** A disk of zeroes claims nothing. */
  lemma ZeroesForeign(o: Options, n: nat, offset: nat, since: nat)
    requires o.Fits(n)
    ensures Foreign(o, Repeat(0 as byte, n), offset, since)
  {
    var z := Repeat(0 as byte, n);
    assert Swapped(o, z) == z;
    assert Slice(z, 0, 2) == [0, 0];
    assert Bytes.Decode([0, 0]) == 0 by {
      assert [0 as byte, 0][1..] == [0];
    }
  }
}
