/**
  Write history for variable block sizes and repeated offsets: a two-bit map per file, a hash from
  (file, first block) to piece, and a list in the order the pieces were recorded.
 */
module SegmentHistory {
  import opened SegmentMap
  import opened SegmentLayout
  import opened Words
  import opened Lists
  import opened Bytes

  class IoPiece {
    const file: FioFile
    var block: nat
    var nrBlk: nat
    var version: Unique
    var onList: bool
    var hashed: bool

    constructor (file: FioFile, block: nat, nrBlk: nat, version: Unique)
      ensures this.file == file && this.block == block && this.nrBlk == nrBlk && this.version == version
      ensures !onList && !hashed
    {
      this.file, this.block, this.nrBlk, this.version := file, block, nrBlk, version;
      onList, hashed := false, false;
    }

    function AsSeg(): Seg
      reads this
    {
      Seg(block, nrBlk, version)
    }
  }

  // ---- the abstract history ----

  /** What happened to the history: a completed write was logged, or a piece was handed to verify. */
  datatype Event =
    | Logged(file: FioFile, seg: Seg)
    | Handed(file: FioFile, seg: Seg)
  {
    ghost predicate Covers(f: FioFile, b: nat)
    {
      file == f && seg.Has(b)
    }
  }

  /** The version of the last write of each block of f that was logged and not handed out since. */
  ghost function Latest(trace: seq<Event>, f: FioFile): map<nat, Unique>
  {
    if trace == [] then map[]
    else
      var m, e := Latest(trace[..|trace| - 1], f), trace[|trace| - 1];
      if e.file != f then m
      else if e.Logged? then Overlay(m, e.seg.block, e.seg.End(), e.seg.version)
      else Without(m, e.seg.block, e.seg.End())
  }

  lemma LatestStep(trace: seq<Event>, e: Event, f: FioFile)
    ensures Latest(trace + [e], f) ==
            if e.file != f then Latest(trace, f)
            else if e.Logged? then Overlay(Latest(trace, f), e.seg.block, e.seg.End(), e.seg.version)
            else Without(Latest(trace, f), e.seg.block, e.seg.End())
  {
    assert (trace + [e])[..|trace|] == trace;
  }

  /** Event i decides block b of f: it covers b and nothing later does. */
  ghost predicate Decides(trace: seq<Event>, i: nat, f: FioFile, b: nat)
  {
    i < |trace| && trace[i].Covers(f, b) && forall j | i < j < |trace| :: !trace[j].Covers(f, b)
  }

  /** A block is pending with version v exactly when the last event to cover it is a write with version v. */
  lemma {:induction false} LatestIsLastWriter(trace: seq<Event>, f: FioFile, b: nat, v: Unique)
    ensures b in Latest(trace, f) && Latest(trace, f)[b] == v
            <==> exists i: nat :: Decides(trace, i, f, b) && trace[i].Logged? && trace[i].seg.version == v
  {
    if trace != [] {
      var n := |trace| - 1;
      var pre, e := trace[..n], trace[n];
      LatestIsLastWriter(pre, f, b, v);
      if e.Covers(f, b) {
        assert forall i: nat :: Decides(trace, i, f, b) <==> i == n;
      } else {
        forall i: nat
          ensures Decides(trace, i, f, b) <==> Decides(pre, i, f, b)
        {
          if Decides(pre, i, f, b) {
            assert trace[i] == pre[i];
          }
          if Decides(trace, i, f, b) {
            assert forall j | i < j < n :: pre[j] == trace[j];
          }
        }
      }
    }
  }

  /** The pieces of file f among segs. */
  ghost function SegsOf(segs: map<IoPiece, Seg>, f: FioFile): map<IoPiece, Seg>
  {
    map p | p in segs && p.file == f :: segs[p]
  }

  /** The layout of each file holds that file's pieces. */
  ghost predicate LayoutsTied(files: set<FioFile>, segs: map<IoPiece, Seg>, layouts: map<FioFile, Layout<IoPiece>>)
  {
    layouts.Keys == files && forall f <- files :: layouts[f].segs == SegsOf(segs, f)
  }

  lemma LayoutsTiedUpdate(files: set<FioFile>, segs: map<IoPiece, Seg>, layouts: map<FioFile, Layout<IoPiece>>,
                          p: IoPiece, g: Seg, l: Layout<IoPiece>)
    requires LayoutsTied(files, segs, layouts) && p.file in files && l.segs == layouts[p.file].segs[p := g]
    ensures LayoutsTied(files, segs[p := g], layouts[p.file := l])
  {}

  lemma LayoutsTiedRemove(files: set<FioFile>, segs: map<IoPiece, Seg>, layouts: map<FioFile, Layout<IoPiece>>,
                          p: IoPiece, l: Layout<IoPiece>)
    requires LayoutsTied(files, segs, layouts) && p.file in files && l.segs == layouts[p.file].segs - {p}
    ensures LayoutsTied(files, segs - {p}, layouts[p.file := l])
  {}

  lemma LayoutOfPiece(files: set<FioFile>, segs: map<IoPiece, Seg>, layouts: map<FioFile, Layout<IoPiece>>, p: IoPiece)
    requires LayoutsTied(files, segs, layouts) && p.file in files
    ensures p.file in layouts && (p in segs <==> p in layouts[p.file].segs)
    ensures p in segs ==> layouts[p.file].segs[p] == segs[p]
  {}

  /** remove_seg, limited to the first num_maps words of the map, can clear the whole piece. */
  predicate Removable(f: FioFile, g: Seg)
  {
    g.nrBlk == 1 || g.End() <= CELLS_PER_WORD * f.numMaps
  }

  /** remove_seg could clear every piece of f that was handed out. */
  ghost predicate Unspoiled(trace: seq<Event>, f: FioFile)
  {
    forall e <- trace :: e.Handed? && e.file == f ==> Removable(f, e.seg)
  }

  lemma UnspoiledStep(trace: seq<Event>, e: Event, f: FioFile)
    ensures Unspoiled(trace + [e], f) <==> Unspoiled(trace, f) && (e.Handed? && e.file == f ==> Removable(f, e.seg))
  {
    assert forall x :: x in trace + [e] <==> x in trace || x == e;
  }

  ghost predicate AllRemovable(segs: map<IoPiece, Seg>)
  {
    forall p <- segs :: Removable(p.file, segs[p])
  }

  lemma AllRemovableUpdate(segs: map<IoPiece, Seg>, p: IoPiece, g: Seg, whole: Seg)
    requires AllRemovable(segs) && Removable(p.file, whole) && g.PartOf(whole)
    ensures AllRemovable(segs[p := g])
  {}

  lemma MoreRemovable(segs: map<IoPiece, Seg>, p: IoPiece, g: Seg)
    ensures AllRemovable(segs) && Removable(p.file, g) ==> AllRemovable(segs[p := g])
  {}

  lemma HeadRemovable(segs: map<IoPiece, Seg>, p: IoPiece, start: nat)
    requires p in segs && segs[p].block < start < segs[p].End()
    ensures AllRemovable(segs) ==> AllRemovable(segs[p := segs[p].Upto(start)])
  {
    if AllRemovable(segs) {
      AllRemovableUpdate(segs, p, segs[p].Upto(start), segs[p]);
    }
  }

  function FirstBlock(f: FioFile, offset: nat, minBs: nat): nat
    requires minBs > 0 && f.fileOffset <= offset
  {
    (offset - f.fileOffset) / minBs
  }

  /** g is the piece of f that the bytes lie in: from the block of the first byte on, as many as they take up. */
  ghost predicate Spans(f: FioFile, offset: nat, buflen: nat, minBs: nat, g: Seg)
  {
    && f.fileOffset + g.block * minBs <= offset < f.fileOffset + (g.block + 1) * minBs
    && buflen <= g.nrBlk * minBs < buflen + minBs
  }

  lemma PieceInBytes(f: FioFile, offset: nat, buflen: nat, minBs: nat, version: Unique)
    requires minBs > 0 && f.fileOffset <= offset
    ensures Spans(f, offset, buflen, minBs, Seg(FirstBlock(f, offset, minBs), BlockCount(buflen, minBs), version))
  {
    DivideBounds(offset - f.fileOffset, minBs);
    CountBounds(buflen, minBs);
  }

  /** What get_next_verify fills into the io_u it is given. */
  datatype Handout =
    | NoPiece
    | HandOut(file: FioFile, offset: nat, buflen: nat, version: Unique)

  class History {
    const files: set<FioFile>
    /** The key hash, an arbitrary function; its value selects a bucket. */
    const hash: (FioFile, nat) -> nat

    var list: seq<IoPiece>
    var buckets: seq<seq<IoPiece>>
    var histLen: int

    /** The listed pieces as values, together and file by file, and the run so far. */
    ghost var segs: map<IoPiece, Seg>
    ghost var layouts: map<FioFile, Layout<IoPiece>>
    ghost var trace: seq<Event>

    /** An empty history over files whose maps are empty. */
    constructor (files: set<FioFile>, hash: (FioFile, nat) -> nat, nrBuckets: nat)
      requires nrBuckets > 0
      requires forall f <- files :: f.Valid() && forall b: nat | b < |f.cells| :: f.cells[b] == Empty
      requires forall f <- files, g <- files | f != g :: f.map2 != g.map2
      ensures Valid() && trace == [] && segs == map[] && this.files == files
    {
      this.files, this.hash := files, hash;
      list, histLen := [], 0;
      buckets := Repeat([], nrBuckets);
      segs, layouts, trace := map[], map f | f in files :: Layout(map[], map[]), [];
    }

    // ---- agreement of the views ----

    ghost predicate FilesOk()
      reads files, set f <- files :: f.map2
    {
      && (forall f <- files :: f.Valid())
      && (forall f <- files, g <- files | f != g :: f.map2 != g.map2)
    }

    /** The list holds each piece once, and io_hist_len is its length. */
    ghost predicate ListOk()
      reads `list, `histLen, `segs, segs.Keys
    {
      && NoDup(list)
      && histLen == |list|
      && segs.Keys == (set p <- list)
      && forall p <- segs :: p.onList && p.hashed && p.file in files && p.AsSeg() == segs[p]
    }

    function Bucket(f: FioFile, block: nat): (i: nat)
      reads `buckets
      requires |buckets| > 0
      ensures i < |buckets|
    {
      hash(f, block) % |buckets|
    }

    /** The buckets hold exactly the pieces ps, each in the bucket of its key. */
    ghost predicate HashOk(ps: set<IoPiece>)
      reads `buckets, ps`block
    {
      && |buckets| > 0
      && (forall i | 0 <= i < |buckets| :: NoDup(buckets[i]))
      && (forall p <- ps :: p in buckets[Bucket(p.file, p.block)])
      && (forall i | 0 <= i < |buckets| :: forall p <- buckets[i] :: p in ps && Bucket(p.file, p.block) == i)
    }

    /** The same, except that p may be linked under a key it had before. */
    ghost predicate HashOkBut(ps: set<IoPiece>, p: IoPiece)
      reads `buckets, ps`block
    {
      && |buckets| > 0
      && (forall i | 0 <= i < |buckets| :: NoDup(buckets[i]))
      && (forall q <- ps :: q == p || q in buckets[Bucket(q.file, q.block)])
      && (forall i | 0 <= i < |buckets| ::
            forall q <- buckets[i] :: q in ps && (q == p || Bucket(q.file, q.block) == i))
    }

    /** The views agree on what the pieces are. */
    ghost predicate Tied()
      reads `list, `histLen, `segs, `layouts, `buckets, segs.Keys, files, set f <- files :: f.map2
    {
      FilesOk() && ListOk() && LayoutsTied(files, segs, layouts) && HashOk(segs.Keys)
    }

    /** Between operations: the map, hash and list agree, and show what the run so far leaves pending. */
    ghost predicate Valid()
      reads this, segs.Keys, files, set f <- files :: f.map2
    {
      Tied() && forall f <- files :: Shows(f)
    }

    /**
      The map of f shows its pieces, and they carry the versions the run so far leaves pending. It shows nothing
      else exactly if remove_seg has cleared every piece of f that was handed out.
     */
    ghost predicate Shows(f: FioFile)
      reads `layouts, `trace, f
    {
      && f in layouts && layouts[f].Loose(f.cells) && layouts[f].Pending() == Latest(trace, f)
      && (layouts[f].CellsOk(f.cells) <==> Unspoiled(trace, f))
    }

    /** With no piece left, no block of any file waits for verification. */
    lemma NothingListed()
      requires Valid() && list == []
      ensures forall f <- files :: Latest(trace, f) == map[]
    {
      hide Latest;
      forall f <- files
        ensures Latest(trace, f) == map[]
      {
        assert Shows(f);
        assert layouts[f].segs.Keys == {};
        assert layouts[f].Pending().Keys == {};
      }
    }

    // ---- iohist_hash ----

    method HashFind(f: FioFile, block: nat, ghost ps: set<IoPiece>) returns (r: IoPiece?)
      requires HashOk(ps)
      ensures r != null ==> r in ps && r.file == f && r.block == block
      ensures r == null ==> forall p <- ps :: !(p.file == f && p.block == block)
    {
      var bucket := buckets[Bucket(f, block)];
      var i := 0;
      while i < |bucket|
        invariant i <= |bucket|
        invariant forall j | 0 <= j < i :: !(bucket[j].file == f && bucket[j].block == block)
      {
        if bucket[i].file == f && bucket[i].block == block {
          return bucket[i];
        }
        i := i + 1;
      }
      r := null;
    }

    /** Unlinks p from whichever bucket it is linked into, also when its key has changed since. */
    method HashDel(p: IoPiece, ghost ps: set<IoPiece>)
      requires HashOkBut(ps, p)
      modifies `buckets, p`hashed
      ensures !p.hashed && if old(p.hashed) then HashOk(ps - {p}) else buckets == old(buckets)
    {
      if p.hashed {
        var was := buckets;
        buckets := seq(|was|, i requires 0 <= i < |was| => Unlink(was[i], p));
        p.hashed := false;
      }
    }

    /** Links p unless it is already linked or its key is taken; returns the piece holding the key, if any. */
    method HashAdd(p: IoPiece, ghost ps: set<IoPiece>) returns (found: IoPiece?)
      requires HashOk(ps) && (p.hashed <==> p in ps)
      modifies `buckets, p`hashed
      ensures old(p.hashed) ==> found == null && buckets == old(buckets) && p.hashed
      ensures found != null ==>
                found in ps && found.file == p.file && found.block == p.block && buckets == old(buckets) && !p.hashed
      ensures !old(p.hashed) && found == null ==>
                HashOk(ps + {p}) && p.hashed && forall q <- ps :: !(q.file == p.file && q.block == p.block)
    {
      if p.hashed {
        return null;
      }
      found := HashFind(p.file, p.block, ps);
      if found == null {
        p.hashed := true;
        var i := Bucket(p.file, p.block);
        buckets := buckets[i := buckets[i] + [p]];
      }
    }

    // ---- overlap_divide, branch by branch ----

    /** No other piece is keyed by a block that p owns. */
    lemma KeyIsFree(f: FioFile, b: nat, p: IoPiece)
      requires ListOk() && LayoutsTied(files, segs, layouts) && f in files && layouts[f].OwnerOk()
               && layouts[f].SegsOk(f.Blocks())
      requires p in segs && p.file == f && segs[p].Has(b)
      ensures forall q <- segs.Keys | q != p :: !(q.file == f && q.block == b)
    {
      assert layouts[f].segs[p].Has(b);
      forall q <- segs.Keys | q != p
        ensures !(q.file == f && q.block == b)
      {
        assert q.file == f && q.block == b ==> layouts[f].segs[q].Has(b);
      }
    }

    /** Moves p to a new range and re-links it under its new key. */
    method Rekey(p: IoPiece, block: nat, nrBlk: nat, ghost ps: set<IoPiece>)
      requires HashOk(ps) && p in ps && p.hashed
      requires forall q <- ps | q != p :: !(q.file == p.file && q.block == block)
      modifies `buckets, p`block, p`nrBlk, p`hashed
      ensures HashOk(ps) && p.block == block && p.nrBlk == nrBlk && p.hashed
    {
      p.nrBlk := nrBlk;
      p.block := block;
      HashDel(p, ps);
      var found := HashAdd(p, ps - {p});
      assert ps - {p} + {p} == ps;
    }

    /** Moves a listed piece to a new range. */
    method MovePiece(p: IoPiece, block: nat, nrBlk: nat)
      requires ListOk() && HashOk(segs.Keys) && p in segs
      requires forall q <- segs.Keys | q != p :: !(q.file == p.file && q.block == block)
      modifies `buckets, `segs, p
      ensures ListOk() && HashOk(segs.Keys) && segs == old(segs)[p := Seg(block, nrBlk, old(segs)[p].version)]
    {
      hide HashOk, NoDup;
      Rekey(p, block, nrBlk, segs.Keys);
      segs := segs[p := Seg(block, nrBlk, p.version)];
      assert segs.Keys == old(segs).Keys;
    }

    lemma Listed(p: IoPiece)
      requires ListOk() && p in segs
      ensures p.onList && p.hashed && p.file in files && p.AsSeg() == segs[p] && p in list
    {}

    /** Writes the cell of block b of f. */
    method SetCell(f: FioFile, b: nat, s: Cell)
      requires FilesOk() && f in files && b < f.Blocks()
      modifies f`cells, f.map2
      ensures FilesOk() && |old(f.cells)| == f.Blocks() && f.cells == old(f.cells)[b := s]
    {
      f.SetBit(b / CELLS_PER_WORD, b % CELLS_PER_WORD, s);
    }

    /** The old piece starts inside the range and reaches past it: keep its tail. */
    method KeepTail(f: FioFile, p: IoPiece, end: nat)
      requires Tied() && f in files && layouts[f].SegsOk(f.Blocks()) && layouts[f].OwnerOk()
      requires p in segs && p.file == f && segs[p].block < end < segs[p].End()
      modifies `buckets, `segs, `layouts, p, f`cells, f.map2
      ensures Tied() && |old(f.cells)| == f.Blocks() && end < f.Blocks() && f.cells == old(f.cells)[end := Start]
      ensures layouts == old(layouts)[f := old(layouts)[f].Resize(p, old(segs)[p].From(end))]
      ensures segs == old(segs)[p := old(segs)[p].From(end)]
    {
      hide HashOk, FilesOk, ListOk, FioFile.Valid, NoDup, LayoutsTied, Layout.OwnerOk;
      ghost var g := segs[p].From(end);
      LayoutOfPiece(files, segs, layouts, p);
      KeyIsFree(f, end, p);
      Listed(p);
      LayoutsTiedUpdate(files, segs, layouts, p, g, layouts[f].Resize(p, g));
      MovePiece(p, end, p.block + p.nrBlk - end);
      SetCell(f, end, Start);
      layouts := layouts[f := layouts[f].Resize(p, g)];
    }

    lemma ForgetKey(ps: set<IoPiece>, p: IoPiece)
      requires HashOk(ps)
      ensures HashOkBut(ps, p)
    {}

    /** Unlinks a piece from the hash and the list. */
    method RemovePiece(p: IoPiece)
      requires ListOk() && HashOk(segs.Keys) && p in segs
      modifies `buckets, `segs, `list, `histLen, p`hashed, p`onList
      ensures ListOk() && HashOk(segs.Keys) && segs == old(segs) - {p} && list == Unlink(old(list), p)
    {
      hide HashOk, HashOkBut;
      ForgetKey(segs.Keys, p);
      HashDel(p, segs.Keys);
      list := Unlink(list, p);
      p.onList := false;
      histLen := histLen - 1;
      segs := segs - {p};
      assert segs.Keys == old(segs).Keys - {p};
    }

    /** Links a new piece into the hash and at the end of the list. */
    method AddPiece(p: IoPiece)
      requires ListOk() && HashOk(segs.Keys) && p !in segs && p.file in files && !p.hashed
      requires forall q <- segs.Keys :: !(q.file == p.file && q.block == p.block)
      modifies `buckets, `segs, `list, `histLen, p`hashed, p`onList
      ensures ListOk() && HashOk(segs.Keys) && segs == old(segs)[p := p.AsSeg()] && list == old(list) + [p]
    {
      hide HashOk;
      var found := HashAdd(p, segs.Keys);
      list := list + [p];
      p.onList := true;
      histLen := histLen + 1;
      segs := segs[p := p.AsSeg()];
      assert segs.Keys == old(segs).Keys + {p};
    }

    /** Shortens a listed piece; its key stays. */
    method ShortenPiece(p: IoPiece, nrBlk: nat)
      requires ListOk() && HashOk(segs.Keys) && p in segs
      modifies `segs, p`nrBlk
      ensures ListOk() && HashOk(segs.Keys) && segs == old(segs)[p := old(segs)[p].(nrBlk := nrBlk)]
    {
      hide HashOk, NoDup;
      p.nrBlk := nrBlk;
      segs := segs[p := segs[p].(nrBlk := nrBlk)];
      assert segs.Keys == old(segs).Keys;
    }

    /** The old piece lies inside the range: drop it. */
    method DropPiece(f: FioFile, p: IoPiece)
      requires Tied() && f in files && p in segs && p.file == f
      modifies `buckets, `segs, `layouts, `list, `histLen, p
      ensures Tied() && layouts == old(layouts)[f := old(layouts)[f].Drop(p)] && segs == old(segs) - {p}
    {
      hide HashOk, FilesOk, ListOk, FioFile.Valid, NoDup, LayoutsTied;
      LayoutOfPiece(files, segs, layouts, p);
      LayoutsTiedRemove(files, segs, layouts, p, layouts[f].Drop(p));
      RemovePiece(p);
      layouts := layouts[f := layouts[f].Drop(p)];
    }

    /** p keeps its head before start; the layout of its file becomes l. */
    method KeepHead(f: FioFile, p: IoPiece, start: nat, ghost l: Layout<IoPiece>)
      requires Tied() && f in files && p in segs && p.file == f && segs[p].block < start < segs[p].End()
      requires l.segs == layouts[f].segs[p := segs[p].Upto(start)]
      modifies `segs, `layouts, p
      ensures Tied() && layouts == old(layouts)[f := l] && segs == old(segs)[p := old(segs)[p].Upto(start)]
    {
      hide HashOk, FilesOk, ListOk, FioFile.Valid, NoDup, LayoutsTied;
      LayoutOfPiece(files, segs, layouts, p);
      LayoutsTiedUpdate(files, segs, layouts, p, segs[p].Upto(start), l);
      Listed(p);
      ShortenPiece(p, start - p.block);
      layouts := layouts[f := l];
    }

    /** A new piece takes over the tail of p from end on. */
    method AddTail(f: FioFile, p: IoPiece, end: nat, ghost l: Layout<IoPiece>, ghost g: Seg) returns (t: IoPiece)
      requires f in files && f in layouts && layouts[f] == l && l.SegsOk(f.Blocks()) && l.OwnerOk()
      requires p in segs && segs[p] == g && p.file == f && g.block < end < g.End()
      requires Tied()
      modifies `buckets, `segs, `layouts, `list, `histLen, f`cells, f.map2
      ensures |old(f.cells)| == f.Blocks() && end < f.Blocks() && f.cells == old(f.cells)[end := Start]
      ensures fresh(t) && t.file == f && t !in old(segs) && t !in l.segs && segs == old(segs)[t := g.From(end)]
      ensures layouts == old(layouts)[f := l.Claim(t, g.From(end))]
      ensures Tied()
    {
      hide HashOk, FilesOk, ListOk, FioFile.Valid, NoDup, LayoutsTied;
      LayoutOfPiece(files, segs, layouts, p);
      KeyIsFree(f, end, p);
      Listed(p);
      t := new IoPiece(f, end, p.block + p.nrBlk - end, p.version);
      NewPiece(t);
      LayoutOfPiece(files, segs, layouts, t);
      LayoutsTiedUpdate(files, segs, layouts, t, g.From(end), l.Claim(t, g.From(end)));
      SetCell(f, end, Start);
      AddPiece(t);
      layouts := layouts[f := l.Claim(t, g.From(end))];
    }

    lemma NewPiece(t: IoPiece)
      requires ListOk() && !t.onList
      ensures t !in segs
    {}

    // ---- overlap_divide and insert_seg ----

    /** The hash finds the piece that starts at a START cell. */
    method FindPiece(f: FioFile, block: nat, ghost l: Layout<IoPiece>) returns (p: IoPiece)
      requires f in files && f in layouts && layouts[f] == l && l.OwnerOk() && l.SegsOk(f.Blocks())
      requires block in l.owner && l.owner[block] in l.segs && l.segs[l.owner[block]].block == block
      requires Tied()
      ensures p == l.owner[block] && p in segs && p.file == f && segs[p] == l.segs[p] && p.AsSeg() == segs[p]
    {
      ghost var q := l.owner[block];
      assert q in segs && q.file == f && q.block == block && segs[q].Has(block);
      var r := HashFind(f, block, segs.Keys);
      KeyIsFree(f, block, q);
      p := r;
    }

    /** The older piece starts inside the claimed range. */
    method DivideInside(f: FioFile, ipo: IoPiece, start: nat, len: nat, ghost l: Layout<IoPiece>)
      requires f in files && f in layouts && layouts[f] == l && |f.cells| == f.Blocks()
      requires ipo in segs && ipo in l.segs && ipo.file == f && segs[ipo] == l.segs[ipo] == ipo.AsSeg()
      requires start <= ipo.block < start + len <= f.Blocks()
      requires l.Mid(f.cells, start, ipo.block, ipo.block, start + len)
      requires Tied()
      modifies `buckets, `segs, `layouts, `list, `histLen, ipo, f`cells, f.map2
      ensures Tied() && segs.Keys <= old(segs).Keys && |f.cells| == f.Blocks()
      ensures layouts.Keys == old(layouts).Keys && layouts == old(layouts)[f := layouts[f]]
      ensures layouts[f].Mid(f.cells, start, old(ipo.block), old(ipo.block) + 1, start + len)
      ensures SameOutside(l.Pending(), layouts[f].Pending(), start, start + len)
      ensures AllRemovable(old(segs)) ==> AllRemovable(segs)
    {
      hide HashOk, FilesOk, ListOk, FioFile.Valid, NoDup, LayoutsTied, SameOutside, Layout.Pending, Layout.CellsMid,
           Layout.SegsOk, Layout.OwnerOk;
      if start + len < ipo.block + ipo.nrBlk {
        KeepTailMid(l, f.cells, ipo, start, start + len);
        KeepTail(f, ipo, start + len);
      } else {
        DropMid(l, f.cells, ipo, start, start + len);
        DropPiece(f, ipo);
      }
    }

    lemma SplitRemovable(was: map<IoPiece, Seg>, p: IoPiece, t: IoPiece, start: nat, end: nat)
      requires p in was && was[p].block < start < end < was[p].End() && t.file == p.file
      ensures AllRemovable(was) ==> AllRemovable(was[t := was[p].From(end)][p := was[p].Upto(start)])
    {}

    /** The older piece reaches over the whole range: it keeps its head and a new piece gets its tail. */
    method SplitPiece(f: FioFile, ipo: IoPiece, start: nat, end: nat, ghost l: Layout<IoPiece>, ghost g: Seg)
        returns (t: IoPiece)
      requires f in files && f in layouts && layouts[f] == l && l.SegsOk(f.Blocks()) && l.OwnerOk()
      requires ipo in segs && ipo in l.segs && segs[ipo] == l.segs[ipo] == g && ipo.file == f
      requires g.block < start < end < g.End()
      requires Tied()
      modifies `buckets, `segs, `layouts, `list, `histLen, ipo, f`cells, f.map2
      ensures |old(f.cells)| == f.Blocks() && end < f.Blocks() && f.cells == old(f.cells)[end := Start]
      ensures fresh(t) && t !in l.segs && segs.Keys == old(segs).Keys + {t}
      ensures layouts == old(layouts)[f := l.Split(ipo, t, start, end)]
      ensures AllRemovable(old(segs)) ==> AllRemovable(segs)
      ensures Tied()
    {
      hide HashOk, FilesOk, ListOk, FioFile.Valid, NoDup, LayoutsTied, Tied, Layout.SegsOk, Layout.OwnerOk,
           AllRemovable;
      t := AddTail(f, ipo, end, l, g);
      assert l.Split(ipo, t, start, end).segs == l.Claim(t, g.From(end)).segs[ipo := g.Upto(start)];
      KeepHead(f, ipo, start, l.Split(ipo, t, start, end));
      SplitRemovable(old(segs), ipo, t, start, end);
    }

    /** The older piece starts before the claimed range. */
    method DivideBefore(f: FioFile, ipo: IoPiece, start: nat, len: nat, ghost l: Layout<IoPiece>)
      requires f in files && f in layouts && layouts[f] == l && |f.cells| == f.Blocks()
      requires ipo in segs && ipo in l.segs && ipo.file == f && segs[ipo] == l.segs[ipo] == ipo.AsSeg()
      requires ipo.block < start < ipo.block + ipo.nrBlk && len > 0 && start + len <= f.Blocks()
      requires l.Ok(f.cells)
      requires Tied()
      modifies `buckets, `segs, `layouts, `list, `histLen, ipo, f`cells, f.map2
      ensures Tied() && fresh(segs.Keys - old(segs).Keys) && |f.cells| == f.Blocks()
      ensures layouts.Keys == old(layouts).Keys && layouts == old(layouts)[f := layouts[f]]
      ensures layouts[f].Mid(f.cells, start, start, start, start + len)
      ensures f.cells[start] == old(f.cells)[start]
      ensures SameOutside(l.Pending(), layouts[f].Pending(), start, start + len)
      ensures AllRemovable(old(segs)) ==> AllRemovable(segs)
    {
      hide Tied, AllRemovable, HashOk, FilesOk, ListOk, FioFile.Valid, NoDup, LayoutsTied, SameOutside, Layout.Mid,
           Layout.Pending, Layout.CellsOk, Layout.SegsOk, Layout.OwnerOk;
      ghost var g, cells := segs[ipo], f.cells;
      if start + len < ipo.block + ipo.nrBlk {
        var t := SplitPiece(f, ipo, start, start + len, l, g);
        SplitMid(l, cells, ipo, t, start, start + len);
      } else {
        KeepHeadMid(l, cells, ipo, start, start + len);
        HeadRemovable(segs, ipo, start);
        KeepHead(f, ipo, start, l.Resize(ipo, g.Upto(start)));
      }
    }

    /**
      A range [start, start + len) of f is being claimed and an older piece that starts at block overlaps it.
      Afterwards no older piece holds the blocks of the range up to and including block, and outside the
      range every pending block still expects its version.
     */
    method OverlapDivide(f: FioFile, block: nat, start: nat, len: nat, ghost l: Layout<IoPiece>)
      requires f in files && f in layouts && layouts[f] == l && l.OwnerOk() && l.SegsOk(f.Blocks())
      requires block in l.owner && l.owner[block] in l.segs && l.segs[l.owner[block]].block == block
      requires |f.cells| == f.Blocks() && len > 0 && start + len <= f.Blocks() && block < start + len
      requires start <= block ==> l.Mid(f.cells, start, block, block, start + len)
      requires block < start ==> l.Ok(f.cells) && start < l.segs[l.owner[block]].End()
      requires Tied()
      modifies `buckets, `segs, `layouts, `list, `histLen, segs.Keys, f`cells, f.map2
      ensures Tied() && fresh(segs.Keys - old(segs).Keys) && |f.cells| == f.Blocks()
      ensures layouts.Keys == old(layouts).Keys && layouts == old(layouts)[f := layouts[f]]
      ensures start <= block ==> layouts[f].Mid(f.cells, start, block, block + 1, start + len)
      ensures block < start ==>
                layouts[f].Mid(f.cells, start, start, start, start + len) && f.cells[start] == old(f.cells)[start]
      ensures SameOutside(l.Pending(), layouts[f].Pending(), start, start + len)
      ensures AllRemovable(old(segs)) ==> AllRemovable(segs)
    {
      hide Tied, SameOutside, Layout.Mid, Layout.Pending, Layout.Ok, Layout.SegsOk, Layout.OwnerOk, AllRemovable;
      var ipo := FindPiece(f, block, l);
      if start <= block {
        DivideInside(f, ipo, start, len, l);
      } else {
        DivideBefore(f, ipo, start, len, l);
      }
    }

    /** Walks back from an IN cell to the START of its piece. */
    method FindStart(f: FioFile, block: nat, ghost l: Layout<IoPiece>) returns (b: nat)
      requires f.Valid() && l.Ok(f.cells) && block < |f.cells| && f.cells[block] == In
      ensures b < block && b in l.owner && l.owner[b] in l.segs
      ensures l.segs[l.owner[b]].block == b && l.owner[b] == l.owner[block] && block < l.segs[l.owner[b]].End()
    {
      var idx, bit := block / CELLS_PER_WORD, block % CELLS_PER_WORD;
      ghost var p := l.owner[block];
      ghost var g := l.segs[p];
      var s := In;
      while s != Start
        invariant 0 <= idx < f.map2.Length && 0 <= bit < CELLS_PER_WORD
        invariant g.block <= CELLS_PER_WORD * idx + bit <= block
        invariant s == f.cells[CELLS_PER_WORD * idx + bit]
        decreases CELLS_PER_WORD * idx + bit
      {
        assert g.Has(CELLS_PER_WORD * idx + bit);
        bit := bit + CELLS_PER_WORD;
        idx := if bit > CELLS_PER_WORD then idx else idx - 1;
        bit := (bit - 1) % CELLS_PER_WORD;
        assert g.Has(CELLS_PER_WORD * idx + bit);
        s := f.GetBlk(idx, bit);
      }
      b := CELLS_PER_WORD * idx + bit;
      assert g.Has(b);
    }

    lemma FileOk(f: FioFile)
      requires Tied() && f in files
      ensures f.Valid()
    {}

    /** Before the first cell is written: whatever covers the first block gives it up. */
    method ClearFirst(f: FioFile, block: nat, nrBlk: nat, ghost l: Layout<IoPiece>)
      requires f in files && f in layouts && layouts[f] == l && l.Ok(f.cells)
      requires nrBlk > 0 && block + nrBlk <= f.Blocks()
      requires Tied()
      modifies `buckets, `segs, `layouts, `list, `histLen, segs.Keys, f`cells, f.map2
      ensures Tied() && fresh(segs.Keys - old(segs).Keys) && |f.cells| == f.Blocks()
      ensures layouts.Keys == old(layouts).Keys && layouts == old(layouts)[f := layouts[f]]
      ensures layouts[f].Mid(f.cells, block, block, block + 1, block + nrBlk)
      ensures SameOutside(l.Pending(), layouts[f].Pending(), block, block + nrBlk)
      ensures AllRemovable(old(segs)) ==> AllRemovable(segs)
    {
      hide Tied, Layout.Mid, Layout.Pending, AllRemovable;
      FileOk(f);
      var s := f.GetBlk(block / CELLS_PER_WORD, block % CELLS_PER_WORD);
      if s == Start {
        ClaimBegins(l, f.cells, block, block + nrBlk);
        OverlapDivide(f, block, block, nrBlk, l);
      } else if s == In {
        var prev := FindStart(f, block, l);
        OverlapDivide(f, prev, block, nrBlk, l);
        ClaimSkips(layouts[f], f.cells, block, block, block + nrBlk);
      } else {
        ClaimBegins(l, f.cells, block, block + nrBlk);
        ClaimSkips(l, f.cells, block, block, block + nrBlk);
      }
    }

    /** One later cell: an older piece that starts here gives it up. */
    method ClearNext(f: FioFile, b: nat, block: nat, nrBlk: nat, ghost l: Layout<IoPiece>)
      requires f in files && f in layouts && layouts[f] == l
      requires block < b < block + nrBlk <= f.Blocks() && l.Mid(f.cells, block, b, b, block + nrBlk)
      requires Tied()
      modifies `buckets, `segs, `layouts, `list, `histLen, segs.Keys, f`cells, f.map2
      ensures Tied() && fresh(segs.Keys - old(segs).Keys) && |f.cells| == f.Blocks()
      ensures layouts.Keys == old(layouts).Keys && layouts == old(layouts)[f := layouts[f]]
      ensures layouts[f].Mid(f.cells, block, b, b + 1, block + nrBlk)
      ensures SameOutside(l.Pending(), layouts[f].Pending(), block, block + nrBlk)
      ensures AllRemovable(old(segs)) ==> AllRemovable(segs)
    {
      hide Tied, Layout.Pending, AllRemovable;
      FileOk(f);
      var s := f.GetBlk(b / CELLS_PER_WORD, b % CELLS_PER_WORD);
      if s == Start {
        OverlapDivide(f, b, block, nrBlk, l);
      } else {
        ClaimSkips(l, f.cells, block, b, block + nrBlk);
      }
    }

    /** Writes one claimed cell. */
    method WriteNext(f: FioFile, b: nat, block: nat, nrBlk: nat)
      requires f in files && f in layouts && block <= b < block + nrBlk <= f.Blocks()
      requires layouts[f].Mid(f.cells, block, b, b + 1, block + nrBlk)
      requires Tied()
      modifies f`cells, f.map2
      ensures Tied() && |f.cells| == f.Blocks()
      ensures layouts[f].Mid(f.cells, block, b + 1, b + 1, block + nrBlk)
    {
      hide Layout.Mid, HashOk, FilesOk, ListOk, FioFile.Valid, NoDup, LayoutsTied;
      ClaimWrites(layouts[f], f.cells, block, b, block + nrBlk);
      SetCell(f, b, if b == block then Start else In);
    }

    /** One turn of the loop: clear the next cell and write it. */
    method ClaimNext(f: FioFile, b: nat, block: nat, nrBlk: nat, ghost l: Layout<IoPiece>)
      requires f in files && f in layouts && SameOutside(l.Pending(), layouts[f].Pending(), block, block + nrBlk)
      requires block < b < block + nrBlk <= f.Blocks() && layouts[f].Mid(f.cells, block, b, b, block + nrBlk)
      requires Tied()
      modifies `buckets, `segs, `layouts, `list, `histLen, segs.Keys, f`cells, f.map2
      ensures Tied() && fresh(segs.Keys - old(segs).Keys) && |f.cells| == f.Blocks()
      ensures layouts.Keys == old(layouts).Keys && layouts == old(layouts)[f := layouts[f]]
      ensures layouts[f].Mid(f.cells, block, b + 1, b + 1, block + nrBlk)
      ensures SameOutside(l.Pending(), layouts[f].Pending(), block, block + nrBlk)
      ensures AllRemovable(old(segs)) ==> AllRemovable(segs)
    {
      hide Layout.Mid, Layout.Pending, Tied, SameOutside, AllRemovable;
      ghost var m := layouts[f];
      ClearNext(f, b, block, nrBlk, m);
      SameOutsideTransitive(l.Pending(), m.Pending(), layouts[f].Pending(), block, block + nrBlk);
      WriteNext(f, b, block, nrBlk);
    }

    /** Claims blocks [block, block + nrBlk) of f in the map, dividing every older piece that overlaps them. */
    method InsertSeg(f: FioFile, block: nat, nrBlk: nat, ghost l: Layout<IoPiece>)
      requires f in files && f in layouts && layouts[f] == l && l.Ok(f.cells)
      requires nrBlk > 0 && block + nrBlk <= f.Blocks()
      requires Tied()
      modifies `buckets, `segs, `layouts, `list, `histLen, segs.Keys, f`cells, f.map2
      ensures Tied() && fresh(segs.Keys - old(segs).Keys) && |f.cells| == f.Blocks()
      ensures layouts.Keys == old(layouts).Keys && layouts == old(layouts)[f := layouts[f]]
      ensures layouts[f].Mid(f.cells, block, block + nrBlk, block + nrBlk, block + nrBlk)
      ensures SameOutside(l.Pending(), layouts[f].Pending(), block, block + nrBlk)
      ensures AllRemovable(old(segs)) ==> AllRemovable(segs)
    {
      hide Layout.Mid, Layout.Pending, Layout.Ok, Tied, SameOutside, AllRemovable;
      ClearFirst(f, block, nrBlk, l);
      WriteNext(f, block, block, nrBlk);
      ClaimRest(f, block, nrBlk, l);
    }

    /** The loop of insert_seg after the first block. */
    method ClaimRest(f: FioFile, block: nat, nrBlk: nat, ghost l: Layout<IoPiece>)
      requires f in files && f in layouts && |f.cells| == f.Blocks() && nrBlk > 0 && block + nrBlk <= f.Blocks()
               && Tied()
      requires layouts[f].Mid(f.cells, block, block + 1, block + 1, block + nrBlk)
      requires SameOutside(l.Pending(), layouts[f].Pending(), block, block + nrBlk)
      modifies `buckets, `segs, `layouts, `list, `histLen, segs.Keys, f`cells, f.map2
      ensures Tied() && fresh(segs.Keys - old(segs).Keys) && |f.cells| == f.Blocks()
      ensures layouts.Keys == old(layouts).Keys && layouts == old(layouts)[f := layouts[f]]
      ensures layouts[f].Mid(f.cells, block, block + nrBlk, block + nrBlk, block + nrBlk)
      ensures SameOutside(l.Pending(), layouts[f].Pending(), block, block + nrBlk)
      ensures AllRemovable(old(segs)) ==> AllRemovable(segs)
    {
      hide Layout.Mid, Layout.Pending, Layout.Ok, Tied, SameOutside, AllRemovable;
      var finish := 1;
      while finish < nrBlk
        invariant 1 <= finish <= nrBlk && |f.cells| == f.Blocks()
        invariant Tied() && fresh(segs.Keys - old(segs).Keys)
        invariant layouts.Keys == old(layouts).Keys && layouts == old(layouts)[f := layouts[f]]
        invariant layouts[f].Mid(f.cells, block, block + finish, block + finish, block + nrBlk)
        invariant SameOutside(l.Pending(), layouts[f].Pending(), block, block + nrBlk)
        invariant AllRemovable(old(segs)) ==> AllRemovable(segs)
      {
        ClaimNext(f, block + finish, block, nrBlk, l);
        finish := finish + 1;
      }
    }

    // ---- log_io_piece and get_next_verify ----

    /** Links the new piece once its blocks are claimed. */
    method LinkClaimed(f: FioFile, p: IoPiece, ghost l: Layout<IoPiece>)
      requires f in files && f in layouts && layouts[f] == l && p.file == f && !p.hashed && !p.onList && p.nrBlk > 0
      requires l.Mid(f.cells, p.block, p.block + p.nrBlk, p.block + p.nrBlk, p.block + p.nrBlk)
      requires Tied()
      modifies `buckets, `segs, `layouts, `list, `histLen, p`hashed, p`onList
      ensures Tied() && layouts == old(layouts)[f := l.Claim(p, p.AsSeg())] && layouts[f].Ok(f.cells)
      ensures layouts[f].Pending() == Overlay(l.Pending(), p.block, p.block + p.nrBlk, p.version)
      ensures segs == old(segs)[p := p.AsSeg()] && list == old(list) + [p]
      ensures AllRemovable(old(segs)) && Removable(f, p.AsSeg()) ==> AllRemovable(segs)
    {
      hide AllRemovable, Removable, Overlay, Layout.SegsOk, Layout.OwnerOk, Layout.CellsOk, HashOk, FilesOk, ListOk,
           FioFile.Valid, NoDup, LayoutsTied, Layout.Mid, Layout.Pending, Layout.Ok;
      NewPiece(p);
      MoreRemovable(segs, p, p.AsSeg());
      LayoutOfPiece(files, segs, layouts, p);
      NoPieceAt(f, p.block, p.nrBlk);
      ClaimEnds(l, f.cells, p, p.AsSeg());
      LayoutsTiedUpdate(files, segs, layouts, p, p.AsSeg(), l.Claim(p, p.AsSeg()));
      AddPiece(p);
      layouts := layouts[f := l.Claim(p, p.AsSeg())];
    }

    lemma NoPieceAt(f: FioFile, block: nat, n: nat)
      requires Tied() && f in files && layouts[f].Mid(f.cells, block, block + n, block + n, block + n) && n > 0
      ensures forall q <- segs.Keys :: !(q.file == f && q.block == block)
    {
      forall q <- segs.Keys
        ensures !(q.file == f && q.block == block)
      {
        assert q.file == f ==> q in layouts[f].segs && layouts[f].segs[q] == q.AsSeg();
      }
    }

    /** The piece at the end of the list is g of f. */
    ghost predicate LastIs(f: FioFile, g: Seg)
      reads `list, set p <- list
    {
      |list| > 0 && list[|list| - 1].file == f && list[|list| - 1].AsSeg() == g
    }

    /** Claims the blocks of a completed write and links its piece. */
    method RecordWrite(f: FioFile, g: Seg, ghost l: Layout<IoPiece>)
      requires f in files && f in layouts && layouts[f] == l && l.Ok(f.cells)
      requires g.nrBlk > 0 && g.End() <= f.Blocks()
      requires Tied()
      modifies `buckets, `segs, `layouts, `list, `histLen, segs.Keys, f`cells, f.map2
      ensures Tied() && fresh(segs.Keys - old(segs).Keys)
      ensures layouts.Keys == old(layouts).Keys && layouts == old(layouts)[f := layouts[f]] && layouts[f].Ok(f.cells)
      ensures layouts[f].Pending() == Overlay(l.Pending(), g.block, g.End(), g.version)
      ensures LastIs(f, g)
      ensures AllRemovable(old(segs)) && Removable(f, g) ==> AllRemovable(segs)
    {
      hide Tied, Layout.Mid, Layout.Pending, Layout.Ok, Layout.Claim, SameOutside, AllRemovable, Removable, Overlay,
           LastIs;
      var ipo := new IoPiece(f, g.block, g.nrBlk, g.version);
      InsertSeg(f, g.block, g.nrBlk, l);
      ghost var m := layouts[f];
      LinkClaimed(f, ipo, m);
      OverlaySame(l.Pending(), m.Pending(), g);
      AtEnd(f, g, ipo);
    }

    lemma AtEnd(f: FioFile, g: Seg, p: IoPiece)
      requires |list| > 0 && list[|list| - 1] == p && p.file == f && p.AsSeg() == g
      ensures LastIs(f, g)
    {}

    method LogPiece(f: FioFile, g: Seg)
      requires Valid() && f in files && g.nrBlk > 0 && g.End() <= f.Blocks() && Unspoiled(trace, f)
      modifies this, segs.Keys, f`cells, f.map2
      ensures Valid() && fresh(segs.Keys - old(segs).Keys)
      ensures trace == old(trace) + [Logged(f, g)] && LastIs(f, g)
      ensures AllRemovable(old(segs)) && Removable(f, g) ==> AllRemovable(segs)
    {
      hide Tied, Layout.Pending, Layout.CellsOk, Layout.CellsLoose, Latest, AllRemovable, Removable, Unspoiled;
      assert Shows(f);
      RecordWrite(f, g, layouts[f]);
      trace := trace + [Logged(f, g)];
      OkIsLoose(layouts[f], f.cells);
      forall h <- files
        ensures Shows(h)
      {
        assert old(Shows(h));
        LatestStep(old(trace), Logged(f, g), h);
        UnspoiledStep(old(trace), Logged(f, g), h);
      }
    }

    /** A completed write of buflen bytes at offset enters the history. */
    method LogIoPiece(f: FioFile, offset: nat, buflen: nat, version: Unique, minBs: nat)
      requires Valid() && f in files && minBs > 0 && buflen > 0 && f.fileOffset <= offset
      requires FirstBlock(f, offset, minBs) + BlockCount(buflen, minBs) <= f.Blocks() && Unspoiled(trace, f)
      modifies this, segs.Keys, f`cells, f.map2
      ensures Valid() && fresh(segs.Keys - old(segs).Keys)
      ensures trace == old(trace) + [Logged(f, Seg(FirstBlock(f, offset, minBs), BlockCount(buflen, minBs), version))]
      ensures Spans(f, offset, buflen, minBs, Seg(FirstBlock(f, offset, minBs), BlockCount(buflen, minBs), version))
      ensures LastIs(f, Seg(FirstBlock(f, offset, minBs), BlockCount(buflen, minBs), version))
      ensures AllRemovable(old(segs))
              && Removable(f, Seg(FirstBlock(f, offset, minBs), BlockCount(buflen, minBs), version))
              ==> AllRemovable(segs)
    {
      hide Valid, AllRemovable, Removable, Unspoiled, Spans;
      PieceInBytes(f, offset, buflen, minBs, version);
      LogPiece(f, Seg(FirstBlock(f, offset, minBs), BlockCount(buflen, minBs), version));
    }

    method RemoveCells(f: FioFile, block: nat)
      requires FilesOk() && f in files && block < |f.cells| && f.cells[block] == Start
      modifies f`cells, f.map2
      ensures FilesOk()
      ensures f.cells == Cleared(old(f.cells), block, RemoveEnd(old(f.cells), f.numMaps, block))
    {
      f.RemoveSeg(f.numMaps, block);
    }

    lemma FirstListed()
      requires Tied() && list != []
      ensures list[0] in segs && list[0].file in files && segs[list[0]] == list[0].AsSeg()
    {}

    /** Takes the first piece off the list, out of the map and out of the hash. */
    method TakeFirst(f: FioFile, p: IoPiece, ghost l: Layout<IoPiece>)
      requires list != [] && p == list[0] && p.file == f && f in layouts && layouts[f] == l && l.Loose(f.cells)
      requires Tied()
      modifies `buckets, `segs, `layouts, `list, `histLen, p`hashed, p`onList, f`cells, f.map2
      ensures Tied() && p in l.segs && l.segs[p] == p.AsSeg() && p.block < |old(f.cells)|
      ensures layouts == old(layouts)[f := l.Drop(p)] && segs == old(segs) - {p} && list == old(list)[1..]
      ensures f.cells == Cleared(old(f.cells), p.block, RemoveEnd(old(f.cells), f.numMaps, p.block))
    {
      hide HashOk, FilesOk, ListOk, NoDup, LayoutsTied, Layout.Loose;
      FirstListed();
      Listed(p);
      LayoutOfPiece(files, segs, layouts, p);
      FirstCell(l, f.cells, p);
      RemoveCells(f, p.block);
      LayoutsTiedRemove(files, segs, layouts, p, l.Drop(p));
      RemovePiece(p);
      layouts := layouts[f := l.Drop(p)];
    }

    /** Every block of a listed piece is pending with the piece's version. */
    lemma HandedVersions(f: FioFile, p: IoPiece)
      requires Tied() && f in files && Shows(f) && p in segs && p.file == f
      ensures segs[p].nrBlk > 0
      ensures forall b: nat | segs[p].Has(b) :: b in Latest(trace, f) && Latest(trace, f)[b] == segs[p].version
    {
      hide ListOk, HashOk, FilesOk;
      LayoutOfPiece(files, segs, layouts, p);
      assert layouts[f].segs[p] == segs[p];
      assert forall b: nat | layouts[f].segs[p].Has(b) ::
          b in layouts[f].Pending() && layouts[f].Pending()[b] == layouts[f].segs[p].version;
    }

    /** Without its first piece, a file shows the rest of the run. */
    lemma ShowsAfterTake(f: FioFile, p: IoPiece, l: Layout<IoPiece>, cells: seq<Cell>, before: seq<Event>)
      requires f in layouts && p in l.segs && l.Loose(cells) && l.Pending() == Latest(before, f)
      requires l.CellsOk(cells) <==> Unspoiled(before, f)
      requires l.segs[p].block < |cells| && layouts[f] == l.Drop(p)
      requires f.cells == Cleared(cells, l.segs[p].block, RemoveEnd(cells, f.numMaps, l.segs[p].block))
      requires trace == before + [Handed(f, l.segs[p])]
      ensures Shows(f)
    {
      hide Layout.Pending, Layout.CellsOk, Layout.Loose, Latest, Unspoiled;
      TakeOk(l, cells, p, f.numMaps);
      UnspoiledStep(before, Handed(f, l.segs[p]), f);
      LatestStep(before, Handed(f, l.segs[p]), f);
    }

    method HandFirst(f: FioFile, p: IoPiece) returns (g: Seg)
      requires Valid() && list != [] && p == list[0] && p.file == f
      modifies this, p, f`cells, f.map2
      ensures f in files && g == p.AsSeg() == old(p.AsSeg()) && g.nrBlk > 0
      ensures trace == old(trace) + [Handed(f, g)] && list == old(list)[1..] && segs.Keys <= old(segs).Keys
      ensures forall b: nat | g.Has(b) :: b in Latest(old(trace), f) && Latest(old(trace), f)[b] == g.version
      ensures Valid() && (AllRemovable(old(segs)) ==> Removable(f, g) && AllRemovable(segs))
    {
      hide Tied, Layout.Pending, Latest, Layout.Loose, Layout.CellsOk, Unspoiled;
      FirstListed();
      assert Shows(f);
      ghost var l, cells, before := layouts[f], f.cells, trace;
      HandedVersions(f, p);
      TakeFirst(f, p, l);
      g := p.AsSeg();
      trace := trace + [Handed(f, g)];
      ShowsAfterTake(f, p, l, cells, before);
      forall h <- files | h != f
        ensures Shows(h)
      {
        assert old(Shows(h));
        LatestStep(before, Handed(f, g), h);
        UnspoiledStep(before, Handed(f, g), h);
      }
    }

    /**
      Hands the oldest piece to verify. Every block of it is pending with the piece's version. The views
      agree again afterwards; the map then shows nothing but pieces exactly if every piece handed out so far is
      one block or ends within the first num_maps words of the map.
     */
    method GetNextVerify(minBs: nat) returns (r: Handout, g: Seg)
      requires Valid()
      modifies this, segs.Keys, files, set f <- files :: f.map2
      ensures r.NoPiece? <==> old(list) == []
      ensures Valid() && (r.NoPiece? ==> trace == old(trace))
      ensures segs.Keys <= old(segs).Keys
      ensures r.HandOut? ==>
                && r.file in files && r.file == old(list)[0].file && g == old(list[0].AsSeg()) && g.nrBlk > 0
                && r.offset == g.block * minBs + r.file.fileOffset
                && r.buflen == g.nrBlk * minBs && r.version == g.version
                && trace == old(trace) + [Handed(r.file, g)] && list == old(list)[1..]
      ensures r.HandOut? ==> forall b: nat | g.Has(b) ::
                b in Latest(old(trace), r.file) && Latest(old(trace), r.file)[b] == g.version
      ensures AllRemovable(old(segs)) ==> AllRemovable(segs) && (r.HandOut? ==> Removable(r.file, g))
    {
      hide Tied, Latest, Shows, Removable;
      if list == [] {
        return NoPiece, Seg(0, 0, Unique(0, 0));
      }
      var p := list[0];
      FirstListed();
      g := HandFirst(p.file, p);
      r := HandOut(p.file, p.block * minBs + p.file.fileOffset, p.nrBlk * minBs, p.version);
    }
  }
}
