/**
  The pieces of write history of one file, as values: which blocks each piece covers and who owns
  each block. The steps of overlap_divide and insert_seg are functions on layouts; `Ok` is what every
  completed insertion and removal keeps between the layout and the cells of the two-bit map.
 */
module SegmentLayout {
  import opened SegmentMap

  /** The version stamped on a write: time of the first stamp and a running number. */
  datatype Unique = Unique(sec: nat, number: nat)

  /** The range of blocks a piece stands for, and the version of the write it came from. */
  datatype Seg = Seg(block: nat, nrBlk: nat, version: Unique)
  {
    function End(): nat
    {
      block + nrBlk
    }

    predicate Has(b: nat)
    {
      block <= b < End()
    }

    predicate PartOf(g: Seg)
    {
      version == g.version && nrBlk > 0 && g.block <= block && End() <= g.End()
    }

    /** The part from block b on. */
    function From(b: nat): Seg
      requires b <= End()
    {
      Seg(b, End() - b, version)
    }

    /** The part before block b. */
    function Upto(b: nat): Seg
      requires block <= b
    {
      Seg(block, b - block, version)
    }
  }

  // ---- block-indexed maps ----

  /** The map without the blocks [lo, hi). */
  ghost function Without<V>(m: map<nat, V>, lo: nat, hi: nat): (r: map<nat, V>)
    ensures forall b :: b in r <==> b in m && !(lo <= b < hi)
    ensures forall b <- r :: r[b] == m[b]
  {
    map b | b in m && !(lo <= b < hi) :: m[b]
  }

  /** The map with every block of [lo, hi) set to v. */
  ghost function Overlay<V>(m: map<nat, V>, lo: nat, hi: nat, v: V): (r: map<nat, V>)
    ensures forall b: nat :: b in r <==> b in m || lo <= b < hi
    ensures forall b <- r :: if lo <= b < hi then r[b] == v else r[b] == m[b]
  {
    m + map b {:trigger b in m} | lo <= b < hi :: v
  }

  // ---- layouts ----

  /** The pieces (identified by P), and the piece that owns each pending block. */
  datatype Layout<!P> = Layout(segs: map<P, Seg>, owner: map<nat, P>)
  {
    /** Every piece is nonempty and lies within the map of n cells. */
    ghost predicate SegsOk(n: nat)
    {
      forall p <- segs :: segs[p].nrBlk > 0 && segs[p].End() <= n
    }

    /** Every piece owns exactly its own blocks, so pieces are disjoint. */
    ghost predicate OwnerOk()
    {
      && (forall p, b: nat {:trigger segs[p].Has(b)} :: p in segs && segs[p].Has(b) ==> b in owner && owner[b] == p)
      && (forall b <- owner :: owner[b] in segs && segs[owner[b]].Has(b))
    }

    ghost function CellOf(b: nat): Cell
    {
      if b !in owner || owner[b] !in segs then Empty
      else if segs[owner[b]].block == b then Start
      else In
    }

    /** START at the first block of each piece, IN on its other blocks, EMPTY elsewhere. */
    ghost predicate CellsOk(cells: seq<Cell>)
    {
      forall b: nat | b < |cells| :: cells[b] == CellOf(b)
    }

    ghost predicate Ok(cells: seq<Cell>)
    {
      SegsOk(|cells|) && OwnerOk() && CellsOk(cells)
    }

    /** The cells show every piece, and no other START; a removed piece may leave IN cells, but not behind a piece. */
    ghost predicate CellsLoose(cells: seq<Cell>)
    {
      && (forall b: nat | b < |cells| :: if b in owner then cells[b] == CellOf(b) else cells[b] != Start)
      && (forall p <- segs :: segs[p].End() < |cells| ==> cells[segs[p].End()] != In)
    }

    ghost predicate Loose(cells: seq<Cell>)
    {
      SegsOk(|cells|) && OwnerOk() && CellsLoose(cells)
    }

    /** The version each pending block is expected to carry on disk. */
    ghost function Pending(): map<nat, Unique>
    {
      map b | b in owner && owner[b] in segs :: segs[owner[b]].version
    }

    /**
      While blocks [start, end) are being claimed: cells [start, mid) already belong to the new
      piece, cells [mid, free) are about to be written, and past free an unowned cell may be a leftover
      IN but never a START.
     */
    ghost predicate CellsMid(cells: seq<Cell>, start: nat, mid: nat, free: nat, end: nat)
    {
      forall b: nat | b < |cells| ::
        if start <= b < end then
          && (b < mid ==> cells[b] == if b == start then Start else In)
          && (free <= b ==> if b in owner then cells[b] == CellOf(b) else cells[b] != Start)
        else cells[b] == CellOf(b)
    }

    ghost predicate Mid(cells: seq<Cell>, start: nat, mid: nat, free: nat, end: nat)
    {
      && start <= mid <= free <= end <= |cells|
      && SegsOk(|cells|) && OwnerOk() && CellsMid(cells, start, mid, free, end)
      && (forall p <- segs :: segs[p].End() <= start || free <= segs[p].block)
    }

    /** p shrinks to the part g of its range; the rest is no longer owned. */
    ghost function Resize(p: P, g: Seg): Layout<P>
      requires p in segs
    {
      Layout(segs[p := g], Without(Without(owner, segs[p].block, g.block), g.End(), segs[p].End()))
    }

    ghost function Drop(p: P): Layout<P>
      requires p in segs
    {
      Layout(segs - {p}, Without(owner, segs[p].block, segs[p].End()))
    }

    /** The new piece p takes the blocks of g, which nobody owns. */
    ghost function Claim(p: P, g: Seg): Layout<P>
    {
      Layout(segs[p := g], Overlay(owner, g.block, g.End(), p))
    }

    /** p keeps its head before start and the new piece t gets its tail from end on. */
    ghost function Split(p: P, t: P, start: nat, end: nat): Layout<P>
      requires p in segs && t !in segs && segs[p].block < start < end < segs[p].End()
    {
      Resize(p, segs[p].Upto(start)).Claim(t, segs[p].From(end))
    }
  }

  // ---- disjointness, and the steps on ownership ----

  lemma PiecesDisjoint<P>(l: Layout<P>, n: nat, p: P, q: P)
    requires l.SegsOk(n) && l.OwnerOk() && p in l.segs && q in l.segs && p != q
    ensures l.segs[p].End() <= l.segs[q].block || l.segs[q].End() <= l.segs[p].block
  {
    var b := if l.segs[p].block <= l.segs[q].block then l.segs[q].block else l.segs[p].block;
    assert l.segs[p].Has(b) ==> l.owner[b] == p;
    assert l.segs[q].Has(b) ==> l.owner[b] == q;
  }

  lemma OthersApart<P>(l: Layout<P>, n: nat, p: P)
    requires l.SegsOk(n) && l.OwnerOk() && p in l.segs
    ensures forall q <- l.segs | q != p :: l.segs[p].End() <= l.segs[q].block || l.segs[q].End() <= l.segs[p].block
  {
    forall q <- l.segs | q != p
      ensures l.segs[p].End() <= l.segs[q].block || l.segs[q].End() <= l.segs[p].block
    {
      PiecesDisjoint(l, n, p, q);
    }
  }

  lemma ResizeOk<P>(l: Layout<P>, n: nat, p: P, g: Seg)
    requires l.SegsOk(n) && l.OwnerOk() && p in l.segs && g.PartOf(l.segs[p])
    ensures l.Resize(p, g).SegsOk(n) && l.Resize(p, g).OwnerOk()
  {
    var m := l.Resize(p, g);
    forall q, b: nat | q in m.segs && m.segs[q].Has(b)
      ensures b in m.owner && m.owner[b] == q
    {
      assert l.segs[q].Has(b);
      assert q != p ==> !l.segs[p].Has(b);
    }
    forall b <- m.owner
      ensures m.owner[b] in m.segs && m.segs[m.owner[b]].Has(b)
    {
      assert l.segs[l.owner[b]].Has(b);
    }
  }

  lemma ResizePending<P>(l: Layout<P>, p: P, g: Seg)
    requires l.OwnerOk() && p in l.segs && g.PartOf(l.segs[p])
    ensures l.Resize(p, g).Pending()
            == Without(Without(l.Pending(), l.segs[p].block, g.block), g.End(), l.segs[p].End())
  {
  }

  lemma DropOk<P>(l: Layout<P>, n: nat, p: P)
    requires l.SegsOk(n) && l.OwnerOk() && p in l.segs
    ensures l.Drop(p).SegsOk(n) && l.Drop(p).OwnerOk()
  {
    var m := l.Drop(p);
    forall q, b: nat | q in m.segs && m.segs[q].Has(b)
      ensures b in m.owner && m.owner[b] == q
    {
      assert l.segs[q].Has(b) && !l.segs[p].Has(b);
    }
    forall b <- m.owner
      ensures m.owner[b] in m.segs && m.segs[m.owner[b]].Has(b)
    {
      assert l.segs[l.owner[b]].Has(b);
    }
  }

  lemma DropPending<P>(l: Layout<P>, p: P)
    requires l.OwnerOk() && p in l.segs
    ensures l.Drop(p).Pending() == Without(l.Pending(), l.segs[p].block, l.segs[p].End())
  {
    forall b <- l.owner
      ensures b in Without(l.owner, l.segs[p].block, l.segs[p].End()) <==> l.owner[b] != p
    {
      assert l.segs[p].Has(b) ==> l.owner[b] == p;
    }
  }

  lemma ClaimOk<P>(l: Layout<P>, n: nat, p: P, g: Seg)
    requires l.SegsOk(n) && l.OwnerOk() && p !in l.segs && g.nrBlk > 0 && g.End() <= n
    requires forall b: nat | g.Has(b) :: b !in l.owner
    ensures l.Claim(p, g).SegsOk(n) && l.Claim(p, g).OwnerOk()
  {
    var m := l.Claim(p, g);
    forall q, b: nat | q in m.segs && m.segs[q].Has(b)
      ensures b in m.owner && m.owner[b] == q
    {
      if q != p {
        assert l.segs[q].Has(b);
        assert !g.Has(b);
      }
    }
    forall b <- m.owner
      ensures m.owner[b] in m.segs && m.segs[m.owner[b]].Has(b)
    {
      if !g.Has(b) {
        assert l.segs[l.owner[b]].Has(b);
      }
    }
  }

  lemma ClaimPending<P>(l: Layout<P>, p: P, g: Seg)
    requires l.OwnerOk() && p !in l.segs
    requires forall b: nat | g.Has(b) :: b !in l.owner
    ensures l.Claim(p, g).Pending() == Overlay(l.Pending(), g.block, g.End(), g.version)
  {
  }

  // ---- claiming a range, step by step ----

  /** Two maps that agree on the blocks outside [lo, hi). */
  ghost predicate SameOutside<V>(m: map<nat, V>, n: map<nat, V>, lo: nat, hi: nat)
  {
    forall b: nat | !(lo <= b < hi) :: (b in m <==> b in n) && (b in m ==> m[b] == n[b])
  }

  lemma SameOutsideTransitive<V>(m: map<nat, V>, n: map<nat, V>, o: map<nat, V>, lo: nat, hi: nat)
    requires SameOutside(m, n, lo, hi) && SameOutside(n, o, lo, hi)
    ensures SameOutside(m, o, lo, hi)
  {}

  lemma OverlaySame(m: map<nat, Unique>, n: map<nat, Unique>, g: Seg)
    requires SameOutside(m, n, g.block, g.End())
    ensures Overlay(m, g.block, g.End(), g.version) == Overlay(n, g.block, g.End(), g.version)
  {}

  /** No piece straddles a block whose cell is not IN. */
  lemma ClaimBegins<P>(l: Layout<P>, cells: seq<Cell>, start: nat, end: nat)
    requires l.Ok(cells) && start < end <= |cells| && cells[start] != In
    ensures l.Mid(cells, start, start, start, end)
  {
    forall p <- l.segs
      ensures l.segs[p].End() <= start || start <= l.segs[p].block
    {
      assert l.segs[p].Has(start) ==> l.owner[start] == p;
    }
  }

  /** Writing a cell that is not START needs no division. */
  lemma ClaimSkips<P>(l: Layout<P>, cells: seq<Cell>, start: nat, mid: nat, end: nat)
    requires l.Mid(cells, start, mid, mid, end) && mid < end && cells[mid] != Start
    ensures l.Mid(cells, start, mid, mid + 1, end)
  {
    forall p <- l.segs
      ensures l.segs[p].End() <= start || mid + 1 <= l.segs[p].block
    {
      assert l.segs[p].Has(mid) ==> mid in l.owner;
    }
  }

  lemma ClaimWrites<P>(l: Layout<P>, cells: seq<Cell>, start: nat, mid: nat, end: nat)
    requires l.Mid(cells, start, mid, mid + 1, end) && mid < end
    ensures l.Mid(cells[mid := if mid == start then Start else In], start, mid + 1, mid + 1, end)
  {
  }

  /** Once the whole range is written the new piece takes it, and its version overlays the range. */
  lemma ClaimEnds<P>(l: Layout<P>, cells: seq<Cell>, p: P, g: Seg)
    requires l.Mid(cells, g.block, g.End(), g.End(), g.End()) && g.nrBlk > 0 && p !in l.segs
    ensures l.Claim(p, g).Ok(cells)
    ensures l.Claim(p, g).Pending() == Overlay(l.Pending(), g.block, g.End(), g.version)
  {
    forall b: nat | g.Has(b)
      ensures b !in l.owner
    {
    }
    ClaimOk(l, |cells|, p, g);
    ClaimPending(l, p, g);
  }

  /** Shrinking p to g leaves the cell of every block that is still owned, except the new first block. */
  lemma ResizeCells<P>(l: Layout<P>, p: P, g: Seg, b: nat)
    requires l.OwnerOk() && p in l.segs && g.PartOf(l.segs[p])
    ensures b in l.Resize(p, g).owner <==> b in l.owner && (l.segs[p].Has(b) ==> g.Has(b))
    ensures b in l.Resize(p, g).owner && b != g.block ==> l.Resize(p, g).CellOf(b) == l.CellOf(b)
  {
  }

  lemma KeepTailCell<P>(l: Layout<P>, p: P, end: nat, b: nat)
    requires l.OwnerOk() && p in l.segs && l.segs[p].block < end < l.segs[p].End()
    ensures b in l.Resize(p, l.segs[p].From(end)).owner <==> b in l.owner && !(l.segs[p].block <= b < end)
    ensures b in l.Resize(p, l.segs[p].From(end)).owner ==>
              l.Resize(p, l.segs[p].From(end)).CellOf(b) == if b == end then Start else l.CellOf(b)
    ensures l.segs[p].block < b <= end ==> b in l.owner && l.CellOf(b) == In
  {
    ResizeCells(l, p, l.segs[p].From(end), b);
    assert l.segs[p].Has(b) ==> b in l.owner && l.owner[b] == p;
  }

  lemma KeepTailPending<P>(l: Layout<P>, p: P, start: nat, end: nat)
    requires l.OwnerOk() && p in l.segs && start <= l.segs[p].block < end < l.segs[p].End()
    ensures SameOutside(l.Pending(), l.Resize(p, l.segs[p].From(end)).Pending(), start, end)
  {
    ResizePending(l, p, l.segs[p].From(end));
  }

  /** The old piece starts in the range and reaches past it: it keeps its tail. */
  lemma KeepTailMid<P>(l: Layout<P>, cells: seq<Cell>, p: P, start: nat, end: nat)
    requires p in l.segs && l.segs[p].block < end < l.segs[p].End()
    requires l.Mid(cells, start, l.segs[p].block, l.segs[p].block, end)
    ensures l.Resize(p, l.segs[p].From(end)).Mid(cells[end := Start], start, l.segs[p].block, l.segs[p].block + 1, end)
    ensures SameOutside(l.Pending(), l.Resize(p, l.segs[p].From(end)).Pending(), start, end)
  {
    hide Layout.Pending, SameOutside;
    var g := l.segs[p].From(end);
    var n := l.Resize(p, g);
    ResizeOk(l, |cells|, p, g);
    KeepTailPending(l, p, start, end);
    OthersApart(l, |cells|, p);
    assert n.CellsMid(cells[end := Start], start, l.segs[p].block, l.segs[p].block + 1, end) by {
      forall b: nat | b < |cells|
        ensures b in n.owner <==> b in l.owner && !(l.segs[p].block <= b < end)
        ensures b in n.owner ==> n.CellOf(b) == if b == end then Start else l.CellOf(b)
        ensures l.segs[p].block < b <= end ==> b in l.owner && l.CellOf(b) == In
      {
        KeepTailCell(l, p, end, b);
      }
    }
  }

  lemma DropCell<P>(l: Layout<P>, p: P, b: nat)
    requires l.OwnerOk() && p in l.segs
    ensures b in l.Drop(p).owner <==> b in l.owner && !l.segs[p].Has(b)
    ensures b in l.Drop(p).owner ==> l.Drop(p).CellOf(b) == l.CellOf(b)
    ensures l.segs[p].block < b < l.segs[p].End() ==> b in l.owner && l.CellOf(b) == In
  {
    assert l.segs[p].Has(b) ==> b in l.owner && l.owner[b] == p;
  }

  lemma DropOutside<P>(l: Layout<P>, p: P, start: nat, end: nat)
    requires l.OwnerOk() && p in l.segs && start <= l.segs[p].block && l.segs[p].End() <= end
    ensures SameOutside(l.Pending(), l.Drop(p).Pending(), start, end)
  {
    DropPending(l, p);
  }

  /** The old piece lies in the range: it is dropped. */
  lemma DropMid<P>(l: Layout<P>, cells: seq<Cell>, p: P, start: nat, end: nat)
    requires p in l.segs && l.segs[p].End() <= end
    requires l.Mid(cells, start, l.segs[p].block, l.segs[p].block, end)
    ensures l.Drop(p).Mid(cells, start, l.segs[p].block, l.segs[p].block + 1, end)
    ensures SameOutside(l.Pending(), l.Drop(p).Pending(), start, end)
  {
    hide Layout.Pending, SameOutside;
    var n := l.Drop(p);
    DropOk(l, |cells|, p);
    DropOutside(l, p, start, end);
    OthersApart(l, |cells|, p);
    assert n.CellsMid(cells, start, l.segs[p].block, l.segs[p].block + 1, end) by {
      forall b: nat | b < |cells|
        ensures b in n.owner <==> b in l.owner && !l.segs[p].Has(b)
        ensures b in n.owner ==> n.CellOf(b) == l.CellOf(b)
        ensures l.segs[p].block < b < l.segs[p].End() ==> b in l.owner && l.CellOf(b) == In
      {
        DropCell(l, p, b);
      }
    }
  }

  lemma KeepHeadCell<P>(l: Layout<P>, p: P, start: nat, b: nat)
    requires l.OwnerOk() && p in l.segs && l.segs[p].block < start < l.segs[p].End()
    ensures b in l.Resize(p, l.segs[p].Upto(start)).owner <==> b in l.owner && !(start <= b < l.segs[p].End())
    ensures b in l.Resize(p, l.segs[p].Upto(start)).owner
            ==> l.Resize(p, l.segs[p].Upto(start)).CellOf(b) == l.CellOf(b)
    ensures start <= b < l.segs[p].End() ==> l.CellOf(b) == In
  {
    ResizeCells(l, p, l.segs[p].Upto(start), b);
    assert l.segs[p].Has(b) ==> b in l.owner && l.owner[b] == p;
  }

  /** The old piece starts before the range and ends in it: it keeps its head. */
  lemma KeepHeadMid<P>(l: Layout<P>, cells: seq<Cell>, p: P, start: nat, end: nat)
    requires l.Ok(cells) && p in l.segs && l.segs[p].block < start < l.segs[p].End() <= end <= |cells|
    ensures l.Resize(p, l.segs[p].Upto(start)).Mid(cells, start, start, start, end)
    ensures SameOutside(l.Pending(), l.Resize(p, l.segs[p].Upto(start)).Pending(), start, end)
  {
    var g := l.segs[p].Upto(start);
    var n := l.Resize(p, g);
    ResizeOk(l, |cells|, p, g);
    ResizePending(l, p, g);
    OthersApart(l, |cells|, p);
    assert n.CellsMid(cells, start, start, start, end) by {
      forall b: nat | b < |cells|
        ensures b in n.owner <==> b in l.owner && !(start <= b < l.segs[p].End())
        ensures b in n.owner ==> n.CellOf(b) == l.CellOf(b)
        ensures start <= b < l.segs[p].End() ==> l.CellOf(b) == In
      {
        KeepHeadCell(l, p, start, b);
      }
    }
  }

  lemma SplitOk<P>(l: Layout<P>, n: nat, p: P, t: P, start: nat, end: nat)
    requires l.SegsOk(n) && l.OwnerOk()
    requires p in l.segs && t !in l.segs && l.segs[p].block < start < end < l.segs[p].End()
    ensures l.Split(p, t, start, end).SegsOk(n) && l.Split(p, t, start, end).OwnerOk()
    ensures SameOutside(l.Pending(), l.Split(p, t, start, end).Pending(), start, end)
  {
    var head, tail := l.segs[p].Upto(start), l.segs[p].From(end);
    var h := l.Resize(p, head);
    ResizeOk(l, n, p, head);
    ResizePending(l, p, head);
    ClaimOk(h, n, t, tail);
    ClaimPending(h, t, tail);
    forall b: nat | tail.Has(b)
      ensures b in l.Pending() && l.Pending()[b] == tail.version
    {
      assert l.segs[p].Has(b);
    }
  }

  lemma SplitCell<P>(l: Layout<P>, p: P, t: P, start: nat, end: nat, b: nat)
    requires l.OwnerOk() && p in l.segs && t !in l.segs && l.segs[p].block < start < end < l.segs[p].End()
    ensures b in l.Split(p, t, start, end).owner <==> b in l.owner && !(start <= b < end)
    ensures b in l.Split(p, t, start, end).owner ==>
              l.Split(p, t, start, end).CellOf(b) == if b == end then Start else l.CellOf(b)
    ensures start <= b <= end ==> l.CellOf(b) == In
  {
    assert l.segs[p].Has(b) ==> b in l.owner && l.owner[b] == p;
  }

  lemma SplitCells<P>(l: Layout<P>, cells: seq<Cell>, p: P, t: P, start: nat, end: nat)
    requires l.Ok(cells) && p in l.segs && t !in l.segs && l.segs[p].block < start < end < l.segs[p].End() <= |cells|
    ensures l.Split(p, t, start, end).CellsMid(cells[end := Start], start, start, start, end)
  {
    hide Layout.Split, Layout.SegsOk, Layout.OwnerOk;
    var n := l.Split(p, t, start, end);
    forall b: nat | b < |cells|
      ensures b in n.owner <==> b in l.owner && !(start <= b < end)
      ensures b in n.owner ==> n.CellOf(b) == if b == end then Start else l.CellOf(b)
      ensures start <= b <= end ==> l.CellOf(b) == In
    {
      SplitCell(l, p, t, start, end, b);
    }
  }

  /** The old piece starts before the range and ends after it: it is split. */
  lemma SplitMid<P>(l: Layout<P>, cells: seq<Cell>, p: P, t: P, start: nat, end: nat)
    requires l.Ok(cells) && p in l.segs && t !in l.segs && l.segs[p].block < start < end < l.segs[p].End()
    ensures l.Split(p, t, start, end).Mid(cells[end := Start], start, start, start, end)
    ensures SameOutside(l.Pending(), l.Split(p, t, start, end).Pending(), start, end)
  {
    hide Layout.Pending, SameOutside, Layout.CellsMid, Layout.CellsOk;
    SplitOk(l, |cells|, p, t, start, end);
    OthersApart(l, |cells|, p);
    SplitCells(l, cells, p, t, start, end);
  }

  // ---- handing a piece out ----

  lemma PieceInCells<P>(l: Layout<P>, cells: seq<Cell>, p: P)
    requires l.Loose(cells) && p in l.segs
    ensures PieceAt(cells, l.segs[p].block, l.segs[p].nrBlk)
  {
    var g := l.segs[p];
    forall b: nat | g.Has(b)
      ensures cells[b] == if b == g.block then Start else In
    {
      assert b in l.owner && l.owner[b] == p;
    }
    assert g.Has(g.block);
    assert forall j: nat | g.block < j < g.End() :: g.Has(j);
  }

  /** Cells that show nothing but the pieces show them loosely too. */
  lemma OkIsLoose<P>(l: Layout<P>, cells: seq<Cell>)
    requires l.Ok(cells)
    ensures l.Loose(cells)
  {
    forall p <- l.segs | l.segs[p].End() < |cells|
      ensures cells[l.segs[p].End()] != In
    {
      var e := l.segs[p].End();
      if e in l.owner {
        PiecesDisjoint(l, |cells|, p, l.owner[e]);
      }
    }
  }

  lemma FirstCell<P>(l: Layout<P>, cells: seq<Cell>, p: P)
    requires l.Loose(cells) && p in l.segs
    ensures l.segs[p].block < |cells| && cells[l.segs[p].block] == Start
  {
    PieceInCells(l, cells, p);
  }

  lemma TakenCell<P>(l: Layout<P>, p: P, b: nat)
    requires l.OwnerOk() && p in l.segs
    ensures l.Drop(p).CellOf(b) == if l.segs[p].Has(b) then Empty else l.CellOf(b)
    ensures b in l.Drop(p).owner <==> b in l.owner && !l.segs[p].Has(b)
    ensures l.segs[p].Has(b) ==> b in l.owner
    ensures b !in l.owner ==> l.CellOf(b) == Empty
  {
    assert b in l.owner && l.segs[p].Has(b) ==> l.owner[b] == p;
  }

  lemma ClearedCells<P>(l: Layout<P>, cells: seq<Cell>, p: P, e: nat)
    requires l.Loose(cells) && p in l.segs && PieceAt(cells, l.segs[p].block, l.segs[p].nrBlk)
    requires l.segs[p].block < e <= l.segs[p].End()
    ensures l.Drop(p).CellsLoose(Cleared(cells, l.segs[p].block, e))
    ensures l.Drop(p).CellsOk(Cleared(cells, l.segs[p].block, e)) <==> l.CellsOk(cells) && e == l.segs[p].End()
  {
    hide Layout.OwnerOk, Layout.SegsOk, Layout.CellOf;
    var g, n, r := l.segs[p], l.Drop(p), Cleared(cells, l.segs[p].block, e);
    forall b: nat | b < |cells|
      ensures n.CellOf(b) == if g.Has(b) then Empty else l.CellOf(b)
      ensures b in n.owner <==> b in l.owner && !g.Has(b)
      ensures g.Has(b) ==> b in l.owner
      ensures b !in l.owner ==> l.CellOf(b) == Empty
    {
      TakenCell(l, p, b);
    }
    assert forall q <- n.segs :: q in l.segs && n.segs[q] == l.segs[q];
    if e < g.End() {
      assert r[e] == In && n.CellOf(e) == Empty;
    }
    if b: nat :| b < |cells| && cells[b] != l.CellOf(b) {
      assert b !in l.owner && r[b] == cells[b];
    }
  }

  /**
    Taking p out, with remove_seg following its cells through the first num words only, keeps the
    pieces and their owners in order, and the map goes on showing them. It shows nothing else exactly when it
    did not before and p is a single block or ends within those words.
   */
  lemma TakeOk<P>(l: Layout<P>, cells: seq<Cell>, p: P, num: nat)
    requires l.Loose(cells) && p in l.segs
    ensures l.Drop(p).Loose(Cleared(cells, l.segs[p].block, RemoveEnd(cells, num, l.segs[p].block)))
    ensures l.Drop(p).CellsOk(Cleared(cells, l.segs[p].block, RemoveEnd(cells, num, l.segs[p].block)))
            <==> l.CellsOk(cells) && (l.segs[p].nrBlk == 1 || l.segs[p].End() <= CELLS_PER_WORD * num)
    ensures l.Drop(p).Pending() == Without(l.Pending(), l.segs[p].block, l.segs[p].End())
  {
    var g := l.segs[p];
    DropOk(l, |cells|, p);
    DropPending(l, p);
    PieceInCells(l, cells, p);
    RemovesWholePiece(cells, num, g.block, g.nrBlk);
    ClearedCells(l, cells, p, RemoveEnd(cells, num, g.block));
  }
}
