/**
  Writes and verify reads against a disk where later writes overwrite earlier ones. Whatever the
  order of completed writes and verify steps, every piece that is handed out verifies.
 */
module WriteVerify {
  import opened Bytes
  import opened SegmentMap
  import opened SegmentLayout
  import opened SegmentHistory
  import opened VerifyBlocks
  import opened Basics

  /** Position on disk of block b of f. */
  function Position(f: FioFile, m: nat, b: nat): nat
  {
    f.fileOffset + b * m
  }

  /** The blocks of f that wait for verification hold, on disk, what their version says. */
  ghost predicate Holds(o: Options, c: Checks, disk: seq<byte>, f: FioFile, pending: map<nat, Unique>)
  {
    forall b <- pending ::
      && Position(f, o.minBs, b) + o.minBs <= |disk| <= Pow256(8)
      && GoodBlock(o, c, Slice(disk, Position(f, o.minBs, b), o.minBs), Position(f, o.minBs, b), pending[b])
  }

  lemma PositionInBuffer(f: FioFile, m: nat, b0: nat, j: nat)
    ensures Position(f, m, b0 + j) == Position(f, m, b0) + j * m
  {
    assert (b0 + j) * m == b0 * m + j * m;
  }

  lemma PositionApart(f: FioFile, m: nat, b: nat, d: nat)
    requires b < d
    ensures Position(f, m, b) + m <= Position(f, m, d)
  {
    BlockBounds(m, b, d);
  }

  /** Block j of what is read from n blocks at block b0 is disk block b0 + j. */
  lemma ReadBlock(disk: seq<byte>, f: FioFile, m: nat, b0: nat, n: nat, j: nat)
    requires j < n && Position(f, m, b0) + n * m <= |disk|
    ensures Position(f, m, b0 + j) + m <= |disk|
    ensures BlockOf(Slice(disk, Position(f, m, b0), n * m), m, n, j) == Slice(disk, Position(f, m, b0 + j), m)
  {
    hide Slice;
    BlockBounds(m, j, n);
    PositionInBuffer(f, m, b0, j);
    SliceNested(disk, Position(f, m, b0), n * m, j * m, m);
  }

  /** A write of good blocks makes the disk hold the overlaid versions. */
  lemma WriteHolds(o: Options, c: Checks, disk: seq<byte>, f: FioFile, pending: map<nat, Unique>, g: Seg,
                   buf: seq<byte>)
    requires Holds(o, c, disk, f, pending) && |buf| == g.nrBlk * o.minBs
    requires Position(f, o.minBs, g.block) + |buf| <= |disk| <= Pow256(8)
    requires GoodUpto(o, c, buf, o.minBs, g.nrBlk, g.nrBlk, Position(f, o.minBs, g.block), g.version)
    ensures Holds(o, c, Splice(disk, Position(f, o.minBs, g.block), buf), f,
                  Overlay(pending, g.block, g.End(), g.version))
  {
    hide GoodBlock;
    var m, at := o.minBs, Position(f, o.minBs, g.block);
    var after := Splice(disk, at, buf);
    forall b <- Overlay(pending, g.block, g.End(), g.version)
      ensures Position(f, m, b) + m <= |after|
      ensures GoodBlock(o, c, Slice(after, Position(f, m, b), m), Position(f, m, b),
                        Overlay(pending, g.block, g.End(), g.version)[b])
    {
      if g.Has(b) {
        WriteHoldsInside(o, c, disk, f, g, buf, b - g.block);
      } else {
        WriteKeepsOutside(f, m, disk, g, buf, b);
      }
    }
  }

  lemma WriteHoldsInside(o: Options, c: Checks, disk: seq<byte>, f: FioFile, g: Seg, buf: seq<byte>, j: nat)
    requires |buf| == g.nrBlk * o.minBs && j < g.nrBlk
    requires Position(f, o.minBs, g.block) + |buf| <= |disk|
    requires GoodUpto(o, c, buf, o.minBs, g.nrBlk, g.nrBlk, Position(f, o.minBs, g.block), g.version)
    ensures Position(f, o.minBs, g.block + j) + o.minBs <= |disk|
    ensures GoodBlock(o, c, Slice(Splice(disk, Position(f, o.minBs, g.block), buf), Position(f, o.minBs, g.block + j),
                                  o.minBs),
                      Position(f, o.minBs, g.block + j), g.version)
  {
    hide GoodBlock, Slice, Splice, Position;
    var at := Position(f, o.minBs, g.block);
    var after := Splice(disk, at, buf);
    ReadBlock(after, f, o.minBs, g.block, g.nrBlk, j);
    SliceSplice(disk, at, buf, at, |buf|);
    PositionInBuffer(f, o.minBs, g.block, j);
  }

  lemma WriteKeepsOutside(f: FioFile, m: nat, disk: seq<byte>, g: Seg, buf: seq<byte>, b: nat)
    requires |buf| == g.nrBlk * m && !g.Has(b)
    requires Position(f, m, g.block) + |buf| <= |disk| && Position(f, m, b) + m <= |disk|
    ensures Slice(Splice(disk, Position(f, m, g.block), buf), Position(f, m, b), m) == Slice(disk, Position(f, m, b), m)
  {
    hide Slice, Splice;
    if b < g.block {
      PositionApart(f, m, b, g.block);
    } else {
      PositionInBuffer(f, m, g.block, g.nrBlk);
      TimesMonotone(m, g.End(), b);
    }
    SliceSplice(disk, Position(f, m, g.block), buf, Position(f, m, b), m);
  }

  lemma PieceOnDisk(o: Options, c: Checks, disk: seq<byte>, f: FioFile, pending: map<nat, Unique>, g: Seg)
    requires Holds(o, c, disk, f, pending) && g.nrBlk > 0
    requires forall b: nat | g.Has(b) :: b in pending && pending[b] == g.version
    ensures Position(f, o.minBs, g.block) + g.nrBlk * o.minBs <= |disk|
  {
    hide GoodBlock, Slice, Position;
    PositionInBuffer(f, o.minBs, g.block, g.nrBlk - 1);
    assert g.Has(g.block + (g.nrBlk - 1));
    BlockBounds(o.minBs, g.nrBlk - 1, g.nrBlk);
    assert (g.nrBlk - 1) * o.minBs + o.minBs == g.nrBlk * o.minBs;
  }

  lemma PieceBlockGood(o: Options, c: Checks, disk: seq<byte>, f: FioFile, pending: map<nat, Unique>, g: Seg, j: nat)
    requires Holds(o, c, disk, f, pending) && j < g.nrBlk
    requires forall b: nat | g.Has(b) :: b in pending && pending[b] == g.version
    requires Position(f, o.minBs, g.block) + g.nrBlk * o.minBs <= |disk|
    ensures GoodBlock(o, c, BlockOf(Slice(disk, Position(f, o.minBs, g.block), g.nrBlk * o.minBs), o.minBs, g.nrBlk, j),
                      Position(f, o.minBs, g.block) + j * o.minBs, g.version)
  {
    hide GoodBlock, Slice, Position, BlockOf;
    assert g.Has(g.block + j);
    ReadBlock(disk, f, o.minBs, g.block, g.nrBlk, j);
    PositionInBuffer(f, o.minBs, g.block, j);
  }

  /** What is read from disk for the piece g of f is good throughout. */
  ghost predicate ReadsGood(o: Options, c: Checks, disk: seq<byte>, f: FioFile, g: Seg)
  {
    var at, n := Position(f, o.minBs, g.block), g.nrBlk * o.minBs;
    at + n <= |disk| && GoodUpto(o, c, Slice(disk, at, n), o.minBs, g.nrBlk, g.nrBlk, at, g.version)
  }

  /** What is read for a piece whose blocks are pending with its version is good throughout. */
  lemma PieceReadsGood(o: Options, c: Checks, disk: seq<byte>, f: FioFile, pending: map<nat, Unique>, g: Seg)
    requires Holds(o, c, disk, f, pending) && g.nrBlk > 0
    requires forall b: nat | g.Has(b) :: b in pending && pending[b] == g.version
    ensures ReadsGood(o, c, disk, f, g)
  {
    hide GoodBlock, Slice, Position, BlockOf, Holds;
    PieceOnDisk(o, c, disk, f, pending, g);
    forall j: nat | j < g.nrBlk
      ensures GoodBlock(o, c, BlockOf(Slice(disk, Position(f, o.minBs, g.block), g.nrBlk * o.minBs), o.minBs, g.nrBlk,
                                      j),
                        Position(f, o.minBs, g.block) + j * o.minBs, g.version)
    {
      PieceBlockGood(o, c, disk, f, pending, g, j);
    }
  }

  /** Every file holds, on disk, what the run so far leaves pending. */
  ghost predicate DiskOk(o: Options, c: Checks, files: set<FioFile>, disk: map<FioFile, seq<byte>>, trace: seq<Event>)
  {
    disk.Keys == files && forall f <- files :: |disk[f]| <= Pow256(8) && Holds(o, c, disk[f], f, Latest(trace, f))
  }

  lemma DiskAtStart(o: Options, c: Checks, files: set<FioFile>, disk: map<FioFile, seq<byte>>)
    requires disk.Keys == files && forall f <- files :: |disk[f]| <= Pow256(8)
    ensures DiskOk(o, c, files, disk, [])
  {}

  lemma DiskAfterWrite(o: Options, c: Checks, files: set<FioFile>, disk: map<FioFile, seq<byte>>, trace: seq<Event>,
                       f: FioFile, g: Seg, buf: seq<byte>)
    requires DiskOk(o, c, files, disk, trace) && f in files && |buf| == g.nrBlk * o.minBs
    requires Position(f, o.minBs, g.block) + |buf| <= |disk[f]|
    requires GoodUpto(o, c, buf, o.minBs, g.nrBlk, g.nrBlk, Position(f, o.minBs, g.block), g.version)
    ensures DiskOk(o, c, files, disk[f := Splice(disk[f], Position(f, o.minBs, g.block), buf)], trace + [Logged(f, g)])
  {
    hide Holds, Splice, Latest, GoodUpto, Position;
    WriteHolds(o, c, disk[f], f, Latest(trace, f), g, buf);
    forall h <- files
      ensures Latest(trace + [Logged(f, g)], h)
              == if h == f then Overlay(Latest(trace, h), g.block, g.End(), g.version) else Latest(trace, h)
    {
      LatestStep(trace, Logged(f, g), h);
    }
  }

  lemma DiskAfterHandout(o: Options, c: Checks, files: set<FioFile>, disk: map<FioFile, seq<byte>>, trace: seq<Event>,
                         f: FioFile, g: Seg)
    requires DiskOk(o, c, files, disk, trace)
    ensures DiskOk(o, c, files, disk, trace + [Handed(f, g)])
  {
    hide GoodBlock, Slice, Latest;
    forall h <- files
      ensures Holds(o, c, disk[h], h, Latest(trace + [Handed(f, g)], h))
    {
      LatestStep(trace, Handed(f, g), h);
    }
  }

  /** The bytes of a write: random fill with a header and checksum in every block. */
  method PopulatedBuffer(o: Options, c: Checks, f: FioFile, g: Seg, fill: seq<byte>,
                         seed: nat) returns (data: seq<byte>)
    requires o.randomagain && o.Fits(o.minBs) && |fill| == g.nrBlk * o.minBs
    requires Position(f, o.minBs, g.block) + |fill| <= Pow256(8)
    ensures |data| == |fill|
    ensures GoodUpto(o, c, data, o.minBs, g.nrBlk, g.nrBlk, Position(f, o.minBs, g.block), g.version)
    ensures Filled(o, data, fill, o.minBs, g.nrBlk, g.nrBlk)
  {
    hide GoodUpto, Options.Fits, Position, Filled;
    var buf := new byte[|fill|](_ => 0);
    FillPatternHeaders(o, c, buf, fill, g.nrBlk, Position(f, o.minBs, g.block), g.version, seed);
    data := buf[..];
  }

  /** verify_io_u accepts what is read from disk for the piece g of f. */
  ghost predicate ReadsAccepted(o: Options, c: Checks, disk: seq<byte>, f: FioFile, g: Seg)
  {
    var at, n := Position(f, o.minBs, g.block), g.nrBlk * o.minBs;
    o.Fits(o.minBs) && at + n <= |disk| && Accepted(o, c, Slice(disk, at, n), o.minBs, g.nrBlk, at, g.version)
  }

  /** Reads back what a handed-out piece names, and verifies it. */
  method ReadAndVerify(o: Options, c: Checks, f: FioFile, disk: seq<byte>, ghost g: Seg,
                       offset: nat, buflen: nat, version: Unique, ghost pending: map<nat, Unique>) returns (ret: nat)
    requires o.randomagain && o.Fits(o.minBs) && g.nrBlk > 0 && Holds(o, c, disk, f, pending)
    requires forall b: nat | g.Has(b) :: b in pending && pending[b] == g.version
    requires offset == Position(f, o.minBs, g.block) && buflen == g.nrBlk * o.minBs && version == g.version
    ensures ret == 0 && ReadsAccepted(o, c, disk, f, g)
  {
    hide GoodUpto, Options.Fits, Position, Holds, Accepted;
    PieceReadsGood(o, c, disk, f, pending, g);
    var buf := new byte[buflen](_ => 0);
    Put(buf, 0, Slice(disk, offset, buflen));
    assert buf[..] == Slice(disk, offset, buflen);
    GoodIsAccepted(o, c, buf[..], o.minBs, g.nrBlk, offset, version);
    ret := VerifyIoU(o, c, buf, g.nrBlk, offset, version);
  }

  lemma BlockArithmetic(f: FioFile, m: nat, b: nat, n: nat)
    requires m > 0
    ensures f.fileOffset <= Position(f, m, b) && FirstBlock(f, Position(f, m, b), m) == b
    ensures BlockCount(n * m, m) == n && (n > 0 ==> n * m > 0)
  {
    DivideBlocks(b, m, 0);
    DivideBlocks(n, m, m - 1);
  }

  /** A step of a run: a write completes, or the next piece is verified. */
  datatype Step = DoWrite(file: FioFile, seg: Seg, fill: seq<byte>, seed: nat) | DoVerify

  /** What came of a step: a write, no piece left to verify, or the result of verify_io_u. */
  datatype Outcome = Wrote | NothingToVerify | Checked(ret: nat)

  /** The bytes of f after the write of g: good blocks that carry fill in its range, the old bytes everywhere else. */
  ghost predicate Landed(o: Options, c: Checks, before: seq<byte>, after: seq<byte>, f: FioFile, g: Seg,
                         fill: seq<byte>)
  {
    var at, n := Position(f, o.minBs, g.block), g.nrBlk * o.minBs;
    && o.Fits(o.minBs) && |fill| == n && at + n <= |after| == |before|
    && GoodUpto(o, c, Slice(after, at, n), o.minBs, g.nrBlk, g.nrBlk, at, g.version)
    && Filled(o, Slice(after, at, n), fill, o.minBs, g.nrBlk, g.nrBlk)
    && (forall i | 0 <= i < |after| && !(at <= i < at + n) :: after[i] == before[i])
  }

  /** The disk after the write of g to f. */
  ghost predicate WrittenTo(o: Options, c: Checks, before: map<FioFile, seq<byte>>, after: map<FioFile, seq<byte>>,
                            f: FioFile, g: Seg, fill: seq<byte>)
  {
    f in before && f in after && after == before[f := after[f]] && Landed(o, c, before[f], after[f], f, g, fill)
  }

  lemma Lands(o: Options, c: Checks, disk: seq<byte>, f: FioFile, g: Seg, data: seq<byte>, fill: seq<byte>)
    requires o.Fits(o.minBs) && |data| == |fill| == g.nrBlk * o.minBs
    requires Filled(o, data, fill, o.minBs, g.nrBlk, g.nrBlk) && Position(f, o.minBs, g.block) + |data| <= |disk|
    requires GoodUpto(o, c, data, o.minBs, g.nrBlk, g.nrBlk, Position(f, o.minBs, g.block), g.version)
    ensures Landed(o, c, disk, Splice(disk, Position(f, o.minBs, g.block), data), f, g, fill)
  {
    hide GoodUpto, Position, Filled, Options.Fits;
    var at := Position(f, o.minBs, g.block);
    SliceSplice(disk, at, data, at, |data|);
  }

  /** g of f waits for verification: each of its blocks was last written with its version and not handed out since. */
  ghost predicate Due(trace: seq<Event>, f: FioFile, g: Seg)
  {
    g.nrBlk > 0 && forall b: nat | g.Has(b) :: b in Latest(trace, f) && Latest(trace, f)[b] == g.version
  }

  /** What one step must come to, with the trace and the disk before it. */
  ghost predicate Right(o: Options, c: Checks, files: set<FioFile>, s: Step, r: Outcome, e: Option<Event>,
                        trace: seq<Event>,
                        before: map<FioFile, seq<byte>>, after: map<FioFile, seq<byte>>)
  {
    match s
    case DoWrite(f, g, fill, _) => r == Wrote && e == Some(Logged(f, g)) && WrittenTo(o, c, before, after, f, g, fill)
    case DoVerify =>
      && after == before
      && match e
         case None => r == NothingToVerify && forall f <- files :: Latest(trace, f) == map[]
         case Some(Logged(_, _)) => false
         case Some(Handed(f, g)) =>
           && r == Checked(0) && f in before
           && Due(trace, f, g) && ReadsAccepted(o, c, before[f], f, g)
  }

  /** The events of the steps that had one, in order. */
  ghost function Happened(events: seq<Option<Event>>): seq<Event>
  {
    if events == [] then []
    else
      var e := events[|events| - 1];
      Happened(events[..|events| - 1]) + if e.Some? then [e.value] else []
  }

  lemma HappenedStep(events: seq<Option<Event>>, e: Option<Event>)
    ensures Happened(events + [e]) == Happened(events) + if e.Some? then [e.value] else []
  {
    assert (events + [e])[..|events|] == events;
  }

  class Job {
    const o: Options
    const c: Checks
    const history: History
    var disk: map<FioFile, seq<byte>>

    /** The history agrees with itself and the disk holds what it expects. */
    ghost predicate Valid()
      reads this, history, history.segs.Keys, history.files, set f <- history.files :: f.map2
    {
      o.randomagain && o.Fits(o.minBs) && history.Valid() && DiskOk(o, c, history.files, disk, history.trace)
    }

    constructor (o: Options, c: Checks, history: History, disk: map<FioFile, seq<byte>>)
      requires history.Valid() && history.trace == []
      requires o.randomagain && o.Fits(o.minBs) && disk.Keys == history.files
      requires forall f <- history.files :: |disk[f]| <= Pow256(8)
      ensures Valid() && this.o == o && this.c == c && this.history == history && this.disk == disk
    {
      hide History.Valid, DiskOk;
      this.o, this.c, this.history, this.disk := o, c, history, disk;
      DiskAtStart(o, c, history.files, disk);
    }

    /** A write of n blocks at block b completes: its populated buffer reaches the disk and it is logged. */
    method Write(f: FioFile, g: Seg, fill: seq<byte>, seed: nat)
      requires Valid() && f in history.files && f in disk && g.nrBlk > 0 && g.End() <= f.Blocks()
      requires Unspoiled(history.trace, f)
      requires |fill| == g.nrBlk * o.minBs && Position(f, o.minBs, g.block) + |fill| <= |disk[f]| <= Pow256(8)
      modifies this, history, history.segs.Keys, f`cells, f.map2
      ensures Valid() && history.trace == old(history.trace) + [Logged(f, g)]
      ensures WrittenTo(o, c, old(disk), disk, f, g, fill)
      ensures fresh(history.segs.Keys - old(history.segs).Keys)
      ensures AllRemovable(old(history.segs)) && Removable(f, g) ==> AllRemovable(history.segs)
    {
      hide History.Valid, History.LastIs, DiskOk, GoodUpto, AllRemovable, Removable, Options.Fits, Splice, Position,
           Landed, Unspoiled, Filled, Spans, FirstBlock, BlockCount;
      var data := PopulatedBuffer(o, c, f, g, fill, seed);
      DiskAfterWrite(o, c, history.files, disk, history.trace, f, g, data);
      Lands(o, c, disk[f], f, g, data, fill);
      disk := disk[f := Splice(disk[f], Position(f, o.minBs, g.block), data)];
      StepsPositive(o, o.minBs);
      BlockArithmetic(f, o.minBs, g.block, g.nrBlk);
      history.LogIoPiece(f, Position(f, o.minBs, g.block), |fill|, g.version, o.minBs);
    }

    /**
      One verify step. With no piece left nothing is pending. Otherwise the oldest piece is handed out,
      each of its blocks pending with its version, and what is read back for it is accepted.
     */
    method VerifyNext() returns (r: Outcome, e: Option<Event>)
      requires Valid()
      modifies history, history.segs.Keys, history.files, set f <- history.files :: f.map2
      ensures Valid() && Right(o, c, history.files, DoVerify, r, e, old(history.trace), disk, disk)
      ensures e.None? <==> old(history.list) == []
      ensures e.Some? ==> e.value == Handed(old(history.list)[0].file, old(history.list[0].AsSeg()))
      ensures history.trace == old(history.trace) + if e.Some? then [e.value] else []
      ensures history.segs.Keys <= old(history.segs).Keys
      ensures AllRemovable(old(history.segs)) ==>
                AllRemovable(history.segs) && (e.Some? ==> Removable(e.value.file, e.value.seg))
    {
      hide History.Valid, AllRemovable, Removable, Options.Fits, Holds, Latest, ReadsAccepted;
      if history.list == [] {
        history.NothingListed();
      }
      var h, g := history.GetNextVerify(o.minBs);
      if h.NoPiece? {
        return NothingToVerify, None;
      }
      e := Some(Handed(h.file, g));
      DiskAfterHandout(o, c, history.files, disk, old(history.trace), h.file, g);
      var ret := ReadAndVerify(o, c, h.file, disk[h.file], g, h.offset, h.buflen, h.version,
                               Latest(old(history.trace), h.file));
      r := Checked(ret);
    }

    /** A write the job can make: whole blocks inside the file and its map. */
    ghost predicate Possible(s: Step, size: FioFile -> nat)
    {
      s.DoWrite? ==>
        && s.file in history.files && s.seg.nrBlk > 0 && s.seg.End() <= s.file.Blocks()
        && |s.fill| == s.seg.nrBlk * o.minBs && Position(s.file, o.minBs, s.seg.block) + |s.fill| <= size(s.file)
    }

    ghost predicate Sizes(size: FioFile -> nat)
      reads this, history
    {
      forall f <- history.files :: f in disk && |disk[f]| == size(f) <= Pow256(8)
    }

    method TakeStep(s: Step, ghost size: FioFile -> nat) returns (r: Outcome, e: Option<Event>)
      requires Valid() && Sizes(size) && Possible(s, size) && (s.DoWrite? ==> Unspoiled(history.trace, s.file))
      modifies this, history, history.segs.Keys, history.files, set f <- history.files :: f.map2
      ensures Valid() && Sizes(size) && fresh(history.segs.Keys - old(history.segs).Keys)
      ensures history.trace == old(history.trace) + if e.Some? then [e.value] else []
      ensures Right(o, c, history.files, s, r, e, old(history.trace), old(disk), disk)
      ensures s.DoWrite? ==> e.Some? && e.value.Logged?
      ensures AllRemovable(old(history.segs)) && (s.DoWrite? ==> Removable(s.file, s.seg)) ==>
                AllRemovable(history.segs) && (e.Some? ==> Removable(e.value.file, e.value.seg))
    {
      hide Valid, AllRemovable, Removable, Position, WrittenTo, Due, ReadsAccepted, Latest, Unspoiled;
      match s
      case DoWrite(f, g, fill, seed) =>
        Write(f, g, fill, seed);
        WrittenSizes(o, c, old(disk), disk, f, g, fill);
        r, e := Wrote, Some(Logged(f, g));
      case DoVerify =>
        r, e := VerifyNext();
    }

    /**
      Every run of writes and verify steps, up to the first write to a file of which a piece was handed out that
      remove_seg could not clear. Each step comes out right: each write is logged and on disk, and each verify
      step either finds nothing pending or hands out a piece that is due and reads back as accepted. The trace
      grows by exactly the events of the steps, in order; disks lists the disk before and after each step.
      spoiled names the files of which such a piece was handed out before.
     */
    method Run(steps: seq<Step>, ghost size: FioFile -> nat, spoiled0: set<FioFile>)
        returns (results: seq<Outcome>, events: seq<Option<Event>>, ghost disks: seq<map<FioFile, seq<byte>>>,
                 spoiled: set<FioFile>)
      requires Valid() && Sizes(size) && Spoils(history.trace, history.files, spoiled0)
      requires forall s <- steps :: Possible(s, size)
      modifies this, history, history.segs.Keys, history.files, set f <- history.files :: f.map2
      ensures Valid() && Sizes(size) && Spoils(history.trace, history.files, spoiled)
      ensures fresh(history.segs.Keys - old(history.segs).Keys)
      ensures |results| == |events| <= |steps| && |disks| == |events| + 1
      ensures disks[0] == old(disk) && disks[|events|] == disk && history.trace == old(history.trace) + Happened(events)
      ensures forall i | 0 <= i < |events| ::
                Right(o, c, history.files, steps[i], results[i], events[i],
                      old(history.trace) + Happened(events[..i]), disks[i], disks[i + 1])
      ensures Stops(steps, events, spoiled0) && (VerifiesLast(steps) && spoiled0 == {} ==> |events| == |steps|)
      ensures AllRemovable(old(history.segs)) && AllPlain(steps) && spoiled0 == {} ==>
                |events| == |steps| && AllRemovable(history.segs) && spoiled == {}
    {
      hide Valid, AllRemovable, Removable, Right, Happened, Possible, Sizes, Spoils, SpoiledBy, VerifiesLast;
      results, events, disks, spoiled := [], [], [disk], spoiled0;
      ghost var was := history.trace;
      NothingHappened();
      StillSpoiled(spoiled0);
      for i := 0 to |steps|
        invariant Valid() && Sizes(size) && fresh(history.segs.Keys - old(history.segs).Keys)
        invariant |results| == |events| == i && |disks| == i + 1 && disks[0] == old(disk) && disks[i] == disk
        invariant history.trace == was + Happened(events) && Spoils(history.trace, history.files, spoiled)
        invariant HandedByVerify(steps, events) && forall f <- spoiled :: SpoiledBy(events, spoiled0, f)
        invariant forall k | 0 <= k < i ::
                    Right(o, c, history.files, steps[k], results[k], events[k], was + Happened(events[..k]), disks[k],
                          disks[k + 1])
        invariant AllRemovable(old(history.segs)) && AllPlain(steps) && spoiled0 == {} ==>
                    AllRemovable(history.segs) && spoiled == {}
      {
        if steps[i].DoWrite? && steps[i].file in spoiled {
          WriteFirstNeverStops(steps, events, spoiled0);
          return;
        }
        NotSpoiled(history.trace, history.files, spoiled, steps[i], size);
        var r, e := TakeStep(steps[i], size);
        SpoilsStep(was + Happened(events), history.files, spoiled, e);
        HappenedStep(events, e);
        assert forall k | 0 <= k < i :: (events + [e])[..k] == events[..k];
        assert (events + [e])[..i] == events;
        SpoiledMore(events, e, spoiled0, spoiled);
        spoiled := spoiled + Spoilt(e);
        results, events, disks := results + [r], events + [e], disks + [disk];
      }
    }

    lemma NotSpoiled(trace: seq<Event>, files: set<FioFile>, spoiled: set<FioFile>, s: Step, size: FioFile -> nat)
      requires Spoils(trace, files, spoiled) && files == history.files && Possible(s, size)
      requires s.DoWrite? ==> s.file !in spoiled
      ensures s.DoWrite? ==> Unspoiled(trace, s.file)
    {}
  }

  /** The files of which a piece was handed out that remove_seg could not clear. */
  ghost predicate Spoils(trace: seq<Event>, files: set<FioFile>, spoiled: set<FioFile>)
  {
    forall f <- files :: f in spoiled <==> !Unspoiled(trace, f)
  }

  predicate Spoiler(e: Option<Event>, f: FioFile)
  {
    e.Some? && e.value.Handed? && e.value.file == f && !Removable(f, e.value.seg)
  }

  function Spoilt(e: Option<Event>): set<FioFile>
  {
    if e.Some? && Spoiler(e, e.value.file) then {e.value.file} else {}
  }

  /** A piece of f that remove_seg could not clear was handed out, before the events or by one of them. */
  ghost predicate SpoiledBy(events: seq<Option<Event>>, spoiled: set<FioFile>, f: FioFile)
  {
    f in spoiled || exists k | 0 <= k < |events| :: Spoiler(events[k], f)
  }

  lemma StillSpoiled(spoiled: set<FioFile>)
    ensures forall f <- spoiled :: SpoiledBy([], spoiled, f)
  {}

  lemma SpoiledMore(events: seq<Option<Event>>, e: Option<Event>, spoiled0: set<FioFile>, spoiled: set<FioFile>)
    requires forall f <- spoiled :: SpoiledBy(events, spoiled0, f)
    ensures forall f <- spoiled + Spoilt(e) :: SpoiledBy(events + [e], spoiled0, f)
  {
    hide Removable;
    var more := events + [e];
    forall f <- spoiled + Spoilt(e)
      ensures SpoiledBy(more, spoiled0, f)
    {
      if f in Spoilt(e) {
        assert Spoiler(more[|events|], f);
      } else if f !in spoiled0 {
        var k :| 0 <= k < |events| && Spoiler(events[k], f);
        assert more[k] == events[k];
      }
    }
  }

  lemma SpoilsStep(trace: seq<Event>, files: set<FioFile>, spoiled: set<FioFile>, e: Option<Event>)
    requires Spoils(trace, files, spoiled)
    ensures Spoils(trace + (if e.Some? then [e.value] else []), files, spoiled + Spoilt(e))
  {
    hide Removable, Unspoiled;
    if e.Some? {
      forall f <- files
        ensures f in spoiled + Spoilt(e) <==> !Unspoiled(trace + [e.value], f)
      {
        UnspoiledStep(trace, e.value, f);
      }
    } else {
      assert trace + [] == trace;
    }
  }

  /** All writes are ones that remove_seg can clear again. */
  ghost predicate AllPlain(steps: seq<Step>)
  {
    forall s <- steps :: s.DoWrite? ==> Removable(s.file, s.seg)
  }

  /** The run goes on to the end unless the next step writes to a spoiled file. */
  ghost predicate Stops(steps: seq<Step>, events: seq<Option<Event>>, spoiled: set<FioFile>)
  {
    |events| < |steps| ==> steps[|events|].DoWrite? && SpoiledBy(events, spoiled, steps[|events|].file)
  }

  /** The job writes first and verifies afterwards. */
  ghost predicate VerifiesLast(steps: seq<Step>)
  {
    forall i, j | 0 <= i < j < |steps| :: steps[i].DoVerify? ==> steps[j].DoVerify?
  }

  /** Only verify steps hand pieces out. */
  ghost predicate HandedByVerify(steps: seq<Step>, events: seq<Option<Event>>)
  {
    && |events| <= |steps|
    && forall k | 0 <= k < |events| :: steps[k].DoWrite? ==> events[k].None? || events[k].value.Logged?
  }

  /** A job that writes first and verifies afterwards never stops, whatever it writes. */
  lemma WriteFirstNeverStops(steps: seq<Step>, events: seq<Option<Event>>, spoiled: set<FioFile>)
    requires HandedByVerify(steps, events) && Stops(steps, events, spoiled)
    ensures VerifiesLast(steps) && spoiled == {} ==> |events| == |steps|
  {}

  lemma NothingHappened()
    ensures Happened([]) == []
  {}

  lemma WrittenSizes(o: Options, c: Checks, before: map<FioFile, seq<byte>>, after: map<FioFile, seq<byte>>, f: FioFile,
                     g: Seg, fill: seq<byte>)
    requires WrittenTo(o, c, before, after, f, g, fill)
    ensures forall h <- before :: h in after && |after[h]| == |before[h]|
  {}
}
