/**
  The two-bit-per-block segment map of a file: one cell per block, sixteen cells to a word.
  A piece of write history is a START cell followed by IN cells; every other cell is EMPTY.
 */
module SegmentMap {
  import opened Words
  import opened Basics

  datatype Cell = Empty | Start | In | Err

  const CELLS_PER_WORD: nat := 16

  // ---- cells of a word ----

  /** The two low bits of a cell's code: EMPTY 0, ERR 1, START 2, IN 3. */
  function Code(s: Cell): (r: Word)
    ensures forall j | 0 <= j < WORD_BITS :: r[j] == ((j == 0 && s in {Err, In}) || (j == 1 && s in {Start, In}))
  {
    seq(WORD_BITS, j => (j == 0 && s in {Err, In}) || (j == 1 && s in {Start, In}))
  }

  function Decode(w: Word): Cell
  {
    if w[1] then (if w[0] then In else Start) else (if w[0] then Err else Empty)
  }

  /** `(w >> (bit * BITS_PER_BLK)) & BLK_MASK` */
  function CellIn(w: Word, c: nat): Cell
    requires c < CELLS_PER_WORD
  {
    Decode(And(ShiftRight(w, 2 * c), LowMask(2)))
  }

  /** `w & ~(BLK_MASK << k) | stat << k` for k the first bit of cell c. */
  function WithCell(w: Word, c: nat, s: Cell): Word
    requires c < CELLS_PER_WORD
  {
    Or(And(w, Not(ShiftLeft(LowMask(2), 2 * c))), ShiftLeft(Code(s), 2 * c))
  }

  lemma WithCellReads(w: Word, c: nat, s: Cell, d: nat)
    requires c < CELLS_PER_WORD && d < CELLS_PER_WORD
    ensures CellIn(WithCell(w, c, s), d) == if c == d then s else CellIn(w, d)
  {
    var x := WithCell(w, c, s);
    assert ShiftRight(x, 2 * d)[0] == x[2 * d] && ShiftRight(x, 2 * d)[1] == x[2 * d + 1];
    assert ShiftRight(w, 2 * d)[0] == w[2 * d] && ShiftRight(w, 2 * d)[1] == w[2 * d + 1];
  }

  // ---- what remove_seg clears ----

  /** First position from b on whose cell is not IN. */
  function RunEnd(cells: seq<Cell>, b: nat): (e: nat)
    requires b <= |cells|
    ensures b <= e <= |cells|
    ensures forall j | b <= j < e :: cells[j] == In
    ensures e < |cells| ==> cells[e] != In
    decreases |cells| - b
  {
    if b < |cells| && cells[b] == In then RunEnd(cells, b + 1) else b
  }

  /** Where remove_seg stops when it may follow IN cells through the first num words only. */
  function RemoveEnd(cells: seq<Cell>, num: nat, block: nat): (e: nat)
    requires block < |cells|
    ensures block < e <= |cells|
  {
    var e := RunEnd(cells, block + 1);
    if e <= CELLS_PER_WORD * num then e
    else if block + 1 <= CELLS_PER_WORD * num then CELLS_PER_WORD * num
    else block + 1
  }

  /** The cells from block on hold one piece of n blocks. */
  ghost predicate PieceAt(cells: seq<Cell>, block: nat, n: nat)
  {
    && 0 < n && block + n <= |cells|
    && cells[block] == Start
    && (forall j | block < j < block + n :: cells[j] == In)
    && (block + n < |cells| ==> cells[block + n] != In)
  }

  /** remove_seg clears a whole piece exactly when the piece is one block or ends within the first num words. */
  lemma RemovesWholePiece(cells: seq<Cell>, num: nat, block: nat, n: nat)
    requires PieceAt(cells, block, n)
    ensures RemoveEnd(cells, num, block) <= block + n
    ensures RemoveEnd(cells, num, block) == block + n <==> n == 1 || block + n <= CELLS_PER_WORD * num
  {
    var e := RunEnd(cells, block + 1);
    assert e == block + n;
  }

  /** A four-block piece across the boundary of the first of two words: two of its IN cells stay behind. */
  lemma RemoveStopsShort(cells: seq<Cell>)
    requires cells == Repeat(Empty, 14) + [Start, In, In, In] + Repeat(Empty, 14)
    ensures PieceAt(cells, 14, 4) && RemoveEnd(cells, 1, 14) == 16
    ensures Cleared(cells, 14, RemoveEnd(cells, 1, 14))[16] == In
  {
    RemovesWholePiece(cells, 1, 14, 4);
    assert RunEnd(cells, 15) == 18;
  }

  function Cleared(cells: seq<Cell>, lo: nat, hi: nat): (r: seq<Cell>)
    requires lo <= hi <= |cells|
    ensures |r| == |cells|
    ensures forall j | 0 <= j < |cells| :: r[j] == if lo <= j < hi then Empty else cells[j]
  {
    seq(|cells|, j requires 0 <= j < |cells| => if lo <= j < hi then Empty else cells[j])
  }

  // ---- what cells left behind lead to ----

  /** The nearest START before b, as the backward walk of insert_seg finds it; without one the walk leaves the map. */
  function WalkBack(cells: seq<Cell>, b: nat): (r: Option<nat>)
    requires b <= |cells|
    ensures r.Some? ==> r.value < b && cells[r.value] == Start && forall j | r.value < j < b :: cells[j] != Start
    ensures r.None? ==> forall j | 0 <= j < b :: cells[j] != Start
  {
    if b == 0 then None else if cells[b - 1] == Start then Some(b - 1) else WalkBack(cells, b - 1)
  }

  /**
    A write that starts at an IN cell that remove_seg left behind walks back to the piece before the removed one, if
    there is any. overlap_divide then gives that piece b - a blocks: more than it had, and some of the removed piece.
   */
  lemma StrayWalk(cells: seq<Cell>, num: nat, block: nat, n: nat, b: nat, m: nat)
    requires PieceAt(cells, block, n) && RemoveEnd(cells, num, block) <= b < block + n
    ensures var a := WalkBack(Cleared(cells, block, RemoveEnd(cells, num, block)), b);
            a == WalkBack(cells, block) && (a.Some? && PieceAt(cells, a.value, m) ==> a.value + m <= block < b)
  {
    RemovesWholePiece(cells, num, block, n);
    var c := Cleared(cells, block, RemoveEnd(cells, num, block));
    var a, w := WalkBack(c, b), WalkBack(cells, block);
    assert forall j | block <= j < b :: c[j] != Start;
    assert forall j | 0 <= j < block :: c[j] == cells[j];
    if a.Some? && w.Some? {
      assert !(a.value < w.value) && !(w.value < a.value);
      assert cells[block] != In;
    }
  }

  class FioFile {
    const fileOffset: nat
    /** The word count handed to remove_seg; the map itself has twice as many words. */
    const numMaps: nat
    const map2: array<Word>
    ghost var cells: seq<Cell>

    function Blocks(): nat
    {
      CELLS_PER_WORD * map2.Length
    }

    ghost predicate Valid()
      reads this, map2
    {
      && map2.Length == 2 * numMaps
      && |cells| == Blocks()
      && forall i, c {:trigger CellIn(map2[i], c)} ::
           0 <= i < map2.Length && 0 <= c < CELLS_PER_WORD ==> cells[CELLS_PER_WORD * i + c] == CellIn(map2[i], c)
    }

    constructor (offset: nat, num: nat)
      ensures Valid() && fresh(map2) && fileOffset == offset && numMaps == num
      ensures cells == Repeat(Empty, CELLS_PER_WORD * 2 * num)
    {
      fileOffset, numMaps := offset, num;
      map2 := new Word[2 * num](_ => ZERO);
      cells := Repeat(Empty, CELLS_PER_WORD * 2 * num);
    }

    method GetBlk(idx: nat, bit: nat) returns (s: Cell)
      requires Valid() && idx < map2.Length && bit < CELLS_PER_WORD
      ensures s == cells[CELLS_PER_WORD * idx + bit]
    {
      s := CellIn(map2[idx], bit);
    }

    method SetBit(idx: nat, bit: nat, s: Cell)
      requires Valid() && idx < map2.Length && bit < CELLS_PER_WORD
      modifies `cells, map2
      ensures Valid() && cells == old(cells)[CELLS_PER_WORD * idx + bit := s]
    {
      hide CellIn, WithCell;
      var w := map2[idx];
      map2[idx] := WithCell(w, bit, s);
      cells := cells[CELLS_PER_WORD * idx + bit := s];
      forall i, c | 0 <= i < map2.Length && 0 <= c < CELLS_PER_WORD
        ensures cells[CELLS_PER_WORD * i + c] == CellIn(map2[i], c)
      {
        if i == idx {
          WithCellReads(w, bit, s, c);
        }
      }
    }

    /** Clears the START cell at block and the IN cells after it, within the first num words. */
    method RemoveSeg(num: nat, block: nat)
      requires Valid() && num <= map2.Length && block < |cells|
      requires cells[block] == Start
      modifies `cells, map2
      ensures Valid()
      ensures cells == Cleared(old(cells), block, RemoveEnd(old(cells), num, block))
    {
      var idx: nat, bit: nat := block / CELLS_PER_WORD, block % CELLS_PER_WORD;
      ghost var e := RemoveEnd(cells, num, block);
      var more := true;
      while more
        invariant Valid() && idx <= map2.Length && bit < CELLS_PER_WORD
        invariant block <= CELLS_PER_WORD * idx + bit <= e
        invariant more <==> CELLS_PER_WORD * idx + bit < e
        invariant cells == Cleared(old(cells), block, CELLS_PER_WORD * idx + bit)
        decreases e - (CELLS_PER_WORD * idx + bit)
      {
        SetBit(idx, bit, Empty);
        bit := bit + 1;
        if bit == CELLS_PER_WORD {
          idx := idx + 1;
          bit := 0;
        }
        more := false;
        if idx < num {
          var s := GetBlk(idx, bit);
          more := s == In;
        }
      }
    }
  }
}
