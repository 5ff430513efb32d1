/**
  What the write history for fixed block sizes does, on values: a sorted sequence, a queue and the
  numbers of the pieces that are to be trimmed. Pieces are numbered in the order they are logged.
 */
module HistorySpec {
  import opened RbShape
  import opened TreeOrder
  import opened TreeAccounts
  import opened Lists
  import opened Basics

  /** The job options and file properties that decide where log_io_piece puts a fixed-size write. */
  datatype Mode = Mode(random: bool, overwrite: bool, randomMap: bool, verifies: bool, randomAgain: bool,
                       manyInSequence: bool, verifySort: bool)
  {
    predicate UsesTree()
    {
      !((!random || !overwrite) && (randomMap || !verifies) && (!randomAgain || !verifies) && !manyInSequence)
        || verifySort
    }

    /** A write is sorted if its key may have been written before, or if sorted reads are asked for. */
    lemma SortsIff()
      ensures UsesTree()
              <==> || (random && overwrite) || (verifies && !randomMap) || (verifies && randomAgain)
                   || manyInSequence || verifySort
    {}
  }

  /** What an io_u learns from the piece it is given. */
  datatype Handout<V> = Handout(key: Key, len: nat, version: V, trimmed: bool)

  datatype Entry<V> = Entry(id: nat, key: Key, len: nat, version: V, trimmed: bool)
  {
    function AsHandout(): Handout<V>
    {
      Handout(key, len, version, trimmed)
    }
  }

  function AsHandout<V>(p: Piece<V>): Handout<V>
  {
    Handout(p.key, p.len, p.version, p.trimmed)
  }

  datatype Abs<V> = Abs(sorted: seq<Entry<V>>, queue: seq<Entry<V>>, trim: seq<nat>, next: nat)

  /** One thing that can happen next to the history. */
  datatype Step<V> = Log(key: Key, len: nat, version: V, shouldTrim: bool, mode: Mode) | Verify | Trim(zero: bool)

  // ---- steps on values ----

  /** e in its place; it takes the place of an entry with the same key. */
  function Insert<V>(s: seq<Entry<V>>, e: Entry<V>): seq<Entry<V>>
  {
    if s == [] then [e]
    else if s[0].key.Below(e.key) then [s[0]] + Insert(s[1..], e)
    else if s[0].key == e.key then [e] + s[1..]
    else [e] + s
  }

  function Holder<V>(s: seq<Entry<V>>, id: nat): Option<Entry<V>>
  {
    if s == [] then None else if s[0].id == id then Some(s[0]) else Holder(s[1..], id)
  }

  function Same<V>(s: seq<Entry<V>>, k: Key): Option<Entry<V>>
  {
    if s == [] then None else if s[0].key == k then Some(s[0]) else Same(s[1..], k)
  }

  function Without<V>(s: seq<Entry<V>>, id: nat): seq<Entry<V>>
  {
    if s == [] then [] else if s[0].id == id then s[1..] else [s[0]] + Without(s[1..], id)
  }

  function Marked<V>(s: seq<Entry<V>>, id: nat): seq<Entry<V>>
  {
    seq(|s|, i requires 0 <= i < |s| => if s[i].id == id then s[i].(trimmed := true) else s[i])
  }

  function Stepped<V>(a: Abs<V>, s: Step<V>): Abs<V>
  {
    match s
    case Log(k, len, v, t, m) =>
      var e := Entry(a.next, k, len, v, false);
      var trim := if t then a.trim + [a.next] else a.trim;
      if !m.UsesTree() then Abs(a.sorted, a.queue + [e], trim, a.next + 1)
      else
        var d := Same(a.sorted, k);
        Abs(Insert(a.sorted, e), a.queue, if d.Some? then Unlink(trim, d.value.id) else trim, a.next + 1)
    case Verify =>
      if a.sorted != [] then a.(sorted := a.sorted[1..], trim := Unlink(a.trim, a.sorted[0].id))
      else if a.queue != [] then a.(queue := a.queue[1..], trim := Unlink(a.trim, a.queue[0].id))
      else a
    case Trim(zero) =>
      if a.trim == [] then a
      else
        var id := a.trim[0];
        if zero then a.(sorted := Marked(a.sorted, id), queue := Marked(a.queue, id), trim := a.trim[1..])
        else a.(sorted := Without(a.sorted, id), queue := Without(a.queue, id), trim := a.trim[1..])
  }

  /** The piece a step hands out: the first of the tree, else of the list; the first to be trimmed. */
  function Given<V>(a: Abs<V>, s: Step<V>): Option<Handout<V>>
  {
    match s
    case Log(_, _, _, _, _) => None
    case Verify =>
      if a.sorted != [] then Some(a.sorted[0].AsHandout())
      else if a.queue != [] then Some(a.queue[0].AsHandout())
      else None
    case Trim(_) =>
      if a.trim == [] then None
      else
        var x, y := Holder(a.sorted, a.trim[0]), Holder(a.queue, a.trim[0]);
        if x.Some? then Some(x.value.AsHandout()) else if y.Some? then Some(y.value.AsHandout()) else None
  }

  function SteppedAll<V>(a: Abs<V>, steps: seq<Step<V>>): Abs<V>
  {
    if steps == [] then a else Stepped(SteppedAll(a, steps[..|steps| - 1]), steps[|steps| - 1])
  }

  lemma NoStep<V>(a: Abs<V>, steps: seq<Step<V>>)
    ensures SteppedAll(a, steps[..0]) == a
  {}

  lemma OneMore<V>(a: Abs<V>, steps: seq<Step<V>>, i: nat)
    requires i < |steps|
    ensures SteppedAll(a, steps[..i + 1]) == Stepped(SteppedAll(a, steps[..i]), steps[i])
  {
    assert steps[..i + 1][..i] == steps[..i];
  }

  /** A sorted write has the length of an earlier one at its place, as log_io_piece asserts. */
  ghost predicate Legal<V>(a: Abs<V>, s: Step<V>)
  {
    s.Log? && s.mode.UsesTree() ==> forall e <- a.sorted :: e.key == s.key ==> e.len == s.len
  }

  // ---- the history seen as values ----

  datatype State<V> = State(order: seq<RbNode>, list: seq<RbNode>, trim: seq<RbNode>, ps: Pieces<V>)
  {
    ghost predicate Ok()
    {
      Accounted(order, list, trim, ps, {})
    }
  }

  type Numbers = map<RbNode, nat>

  ghost predicate Numbered<V>(ps: Pieces<V>, ids: Numbers, next: nat)
  {
    ps.Keys <= ids.Keys && Distinct(ids, next)
  }

  ghost predicate Distinct(ids: Numbers, next: nat)
  {
    (forall n <- ids :: ids[n] < next) && (forall m, n | m in ids && n in ids && ids[m] == ids[n] :: m == n)
  }

  ghost predicate Covers<V>(s: seq<RbNode>, ps: Pieces<V>, ids: Numbers)
  {
    forall n <- s :: n in ps && n in ids
  }

  ghost function EntryOf<V>(n: RbNode, ps: Pieces<V>, ids: Numbers): Entry<V>
    requires n in ps && n in ids
  {
    Entry(ids[n], ps[n].key, ps[n].len, ps[n].version, ps[n].trimmed)
  }

  ghost function Entries<V>(s: seq<RbNode>, ps: Pieces<V>, ids: Numbers): (r: seq<Entry<V>>)
    requires Covers(s, ps, ids)
    ensures |r| == |s| && forall i | 0 <= i < |s| :: r[i] == EntryOf(s[i], ps, ids)
  {
    seq(|s|, i requires 0 <= i < |s| => EntryOf(s[i], ps, ids))
  }

  ghost function IdsOf(s: seq<RbNode>, ids: Numbers): (r: seq<nat>)
    requires forall n <- s :: n in ids
    ensures |r| == |s| && forall i | 0 <= i < |s| :: r[i] == ids[s[i]]
  {
    seq(|s|, i requires 0 <= i < |s| => ids[s[i]])
  }

  ghost predicate Fit<V>(st: State<V>, ids: Numbers, next: nat)
  {
    && st.Ok() && Numbered(st.ps, ids, next)
    && Covers(st.order, st.ps, ids) && Covers(st.list, st.ps, ids) && Covers(st.trim, st.ps, ids)
  }

  ghost function Seen<V>(st: State<V>, ids: Numbers, next: nat): Abs<V>
    requires Fit(st, ids, next)
  {
    Abs(Entries(st.order, st.ps, ids), Entries(st.list, st.ps, ids), IdsOf(st.trim, ids), next)
  }

  lemma FitOf<V>(st: State<V>, ids: Numbers, next: nat)
    requires st.Ok() && Numbered(st.ps, ids, next)
    ensures Fit(st, ids, next)
  {}

  // ---- the parts of a step ----

  lemma EntriesSame<V>(s: seq<RbNode>, ps: Pieces<V>, ids: Numbers, qs: Pieces<V>, js: Numbers)
    requires Covers(s, ps, ids) && forall n <- s :: n in qs && n in js && qs[n] == ps[n] && js[n] == ids[n]
    ensures Covers(s, qs, js) && Entries(s, qs, js) == Entries(s, ps, ids)
  {}

  lemma EntriesConcat<V>(a: seq<RbNode>, b: seq<RbNode>, ps: Pieces<V>, ids: Numbers)
    requires Covers(a + b, ps, ids)
    ensures Covers(a, ps, ids) && Covers(b, ps, ids)
            && Entries(a + b, ps, ids) == Entries(a, ps, ids) + Entries(b, ps, ids)
  {
    assert forall n <- a :: n in a + b;
    assert forall n <- b :: n in a + b;
  }

  lemma {:induction false} EntriesUnlink<V>(s: seq<RbNode>, ps: Pieces<V>, ids: Numbers, next: nat, n: RbNode)
    requires Covers(s, ps, ids) && Numbered(ps, ids, next) && n in ids
    ensures Covers(Unlink(s, n), ps, ids) && Entries(Unlink(s, n), ps, ids) == Without(Entries(s, ps, ids), ids[n])
  {
    hide NoDup, Unlink, Without, EntryOf;
    var e := Entries(s, ps, ids);
    if s == [] {
      NothingToUnlink(n, ids[n]);
      WithoutNothing(e, ids[n]);
    } else {
      var t, f := s[1..], e[1..];
      assert f == Entries(t, ps, ids);
      KeyOf(s[0], ps, ids);
      WithoutStep(e, ids[n]);
      if s[0] == n {
        UnlinkFirst(s, n);
      } else {
        EntriesUnlink(t, ps, ids, next, n);
        UnlinkOther(s, n);
        EntriesCons(s[0], Unlink(t, n), ps, ids);
      }
    }
  }

  lemma EntriesCons<V>(x: RbNode, s: seq<RbNode>, ps: Pieces<V>, ids: Numbers)
    requires x in ps && x in ids && Covers(s, ps, ids)
    ensures Covers([x] + s, ps, ids) && Entries([x] + s, ps, ids) == [EntryOf(x, ps, ids)] + Entries(s, ps, ids)
  {}

  lemma WithoutNothing<V>(e: seq<Entry<V>>, id: nat)
    ensures e == [] ==> Without(e, id) == []
  {}

  lemma WithoutStep<V>(e: seq<Entry<V>>, id: nat)
    requires e != []
    ensures Without(e, id) == if e[0].id == id then e[1..] else [e[0]] + Without(e[1..], id)
  {}

  lemma {:induction false} IdsUnlink(s: seq<RbNode>, ids: Numbers, next: nat, n: RbNode)
    requires (forall m <- s :: m in ids) && Distinct(ids, next) && n in ids
    ensures (forall m <- Unlink(s, n) :: m in ids) && IdsOf(Unlink(s, n), ids) == Unlink(IdsOf(s, ids), ids[n])
  {
    hide NoDup, Unlink;
    var e := IdsOf(s, ids);
    if s == [] {
      NothingToUnlink(n, ids[n]);
    } else {
      var t, f := s[1..], e[1..];
      assert f == IdsOf(t, ids);
      if s[0] == n {
        UnlinkFirst(s, n);
        UnlinkFirst(e, ids[n]);
      } else {
        IdsUnlink(t, ids, next, n);
        UnlinkOther(s, n);
        UnlinkOther(e, ids[n]);
        IdsCons(s[0], Unlink(t, n), ids);
      }
    }
  }

  lemma NothingToUnlink(n: RbNode, id: nat)
    ensures Unlink([], n) == [] && Unlink([], id) == []
  {}

  lemma IdsCons(x: RbNode, s: seq<RbNode>, ids: Numbers)
    requires x in ids && forall m <- s :: m in ids
    ensures (forall m <- [x] + s :: m in ids) && IdsOf([x] + s, ids) == [ids[x]] + IdsOf(s, ids)
  {}

  lemma {:induction false} HolderOf<V>(s: seq<RbNode>, ps: Pieces<V>, ids: Numbers, next: nat, n: RbNode)
    requires Covers(s, ps, ids) && Numbered(ps, ids, next) && n in ids && n in ps
    ensures Holder(Entries(s, ps, ids), ids[n]) == if n in s then Some(EntryOf(n, ps, ids)) else None
  {
    if s != [] {
      assert Entries(s, ps, ids)[1..] == Entries(s[1..], ps, ids);
      HolderOf(s[1..], ps, ids, next, n);
    }
  }

  lemma {:induction false} InsertBetween<V>(a: seq<Entry<V>>, mid: seq<Entry<V>>, b: seq<Entry<V>>, e: Entry<V>)
    requires forall x <- a :: x.key.Below(e.key)
    requires forall x <- b :: e.key.Below(x.key)
    requires |mid| <= 1 && forall x <- mid :: x.key == e.key
    ensures Insert(a + mid + b, e) == a + [e] + b
    ensures Same(a + mid + b, e.key) == if mid == [] then None else Some(mid[0])
  {
    var s := a + mid + b;
    if a != [] {
      assert s[0] == a[0] && s[1..] == a[1..] + mid + b;
      InsertBetween(a[1..], mid, b, e);
    } else if mid != [] {
      assert s[0] == mid[0] && s[1..] == b;
    } else {
      assert s == b;
      NoneSame(b, e.key);
    }
  }

  lemma {:induction false} NoneSame<V>(b: seq<Entry<V>>, k: Key)
    requires forall x <- b :: k.Below(x.key)
    ensures Same(b, k) == None
  {
    if b != [] {
      NoneSame(b[1..], k);
    }
  }

  lemma EntriesBelow<V>(a: seq<RbNode>, ps: Pieces<V>, ids: Numbers, k: Key)
    requires Covers(a, ps, ids)
    ensures AllBelow(a, k, ps) ==> forall x <- Entries(a, ps, ids) :: x.key.Below(k)
    ensures AllAbove(a, k, ps) ==> forall x <- Entries(a, ps, ids) :: k.Below(x.key)
  {
    forall x | x in Entries(a, ps, ids)
      ensures (AllBelow(a, k, ps) ==> x.key.Below(k)) && (AllAbove(a, k, ps) ==> k.Below(x.key))
    {
      var i :| 0 <= i < |a| && x == Entries(a, ps, ids)[i];
      assert a[i] in a;
    }
  }

  // ---- each step of the history is a step on values ----

  lemma SeeListed<V>(st: State<V>, ids: Numbers, next: nat, n: RbNode, s: Step<V>, to: State<V>)
    requires Fit(st, ids, next) && n !in ids && s.Log? && !s.mode.UsesTree() && to.Ok()
    requires to.order == st.order && to.list == st.list + [n] && to.trim == st.trim + (if s.shouldTrim then [n] else [])
    requires to.ps == st.ps[n := Piece(s.key, s.len, s.version, false, true, false)]
    ensures Fit(to, ids[n := next], next + 1) && Seen(to, ids[n := next], next + 1) == Stepped(Seen(st, ids, next), s)
  {
    hide Accounted, Mode.UsesTree;
    var js := ids[n := next];
    NumberedMore(st.ps, ids, next, n, to.ps);
    InPieces(to);
    FitOf(to, js, next + 1);
    EntriesSame(st.order, st.ps, ids, to.ps, js);
    EntriesSame(st.list, st.ps, ids, to.ps, js);
    EntriesConcat(st.list, [n], to.ps, js);
    assert IdsOf(to.trim, js) == IdsOf(st.trim, ids) + if s.shouldTrim then [next] else [];
  }

  lemma SeeSorted<V>(st: State<V>, ids: Numbers, next: nat, n: RbNode, s: Step<V>, to: State<V>,
                     a: seq<RbNode>, same: Option<RbNode>, b: seq<RbNode>)
    requires Fit(st, ids, next) && n !in ids && s.Log? && s.mode.UsesTree() && to.Ok()
    requires Parted(st.order, a, same, b, st.ps, s.key) && to.order == a + [n] + b && to.list == st.list
    requires to.trim == LessOf(st.trim + (if s.shouldTrim then [n] else []), same)
    requires to.ps == Less(st.ps, same)[n := Piece(s.key, s.len, s.version, true, false, false)]
    ensures Fit(to, ids[n := next], next + 1) && Seen(to, ids[n := next], next + 1) == Stepped(Seen(st, ids, next), s)
  {
    hide Accounted, Mode.UsesTree, Parted, NoDup, LessOf, Sorts, Untrims, Stepped;
    var js := ids[n := next];
    NumberedMore(st.ps, ids, next, n, to.ps);
    InPieces(to);
    InPieces(st);
    FitOf(to, js, next + 1);
    EntriesSame(st.list, st.ps, ids, to.ps, js);
    var d := SortedPart(st.order, st.ps, ids, next, n, to.order, to.ps, a, same, b);
    TrimPart(st, ids, next, n, s.shouldTrim, same, d, to.trim);
    LogSorted(Seen(st, ids, next), s, EntryOf(n, to.ps, js), d, Seen(to, js, next + 1));
  }

  /** r is s with e sorted in, and d the entry that makes room for it. */
  ghost predicate Sorts<V>(s: seq<Entry<V>>, e: Entry<V>, d: Option<Entry<V>>, r: seq<Entry<V>>)
  {
    r == Insert(s, e) && d == Same(s, e.key)
  }

  ghost predicate Untrims<V>(trim: seq<nat>, d: Option<Entry<V>>, r: seq<nat>)
  {
    r == if d.Some? then Unlink(trim, d.value.id) else trim
  }

  lemma LogSorted<V>(x: Abs<V>, s: Step<V>, e: Entry<V>, d: Option<Entry<V>>, y: Abs<V>)
    requires s.Log? && s.mode.UsesTree() && e == Entry(x.next, s.key, s.len, s.version, false)
    requires Sorts(x.sorted, e, d, y.sorted) && y.queue == x.queue && y.next == x.next + 1
    requires Untrims(x.trim + (if s.shouldTrim then [x.next] else []), d, y.trim)
    ensures y == Stepped(x, s)
  {
    assert !s.shouldTrim ==> x.trim + [] == x.trim;
  }

  lemma SortedPart<V>(order: seq<RbNode>, ps: Pieces<V>, ids: Numbers, next: nat, n: RbNode, to: seq<RbNode>,
                      qs: Pieces<V>, a: seq<RbNode>, same: Option<RbNode>, b: seq<RbNode>)
      returns (d: Option<Entry<V>>)
    requires Covers(order, ps, ids) && n !in ids && n in qs && Parted(order, a, same, b, ps, qs[n].key)
    requires to == a + [n] + b && Covers(to, qs, ids[n := next])
             && (forall m <- qs :: m == n || (m in ps && qs[m] == ps[m]))
    ensures same.Some? ==> same.value in ps && same.value in ids
    ensures d == if same.Some? then Some(EntryOf(same.value, ps, ids)) else None
    ensures Sorts(Entries(order, ps, ids), EntryOf(n, qs, ids[n := next]), d, Entries(to, qs, ids[n := next]))
  {
    hide AllBelow, AllAbove, EntryOf;
    var js, k := ids[n := next], qs[n].key;
    var mid := if same.Some? then [same.value] else [];
    assert order == a + mid + b;
    EntriesConcat(a + mid, b, ps, ids);
    EntriesConcat(a, mid, ps, ids);
    EntriesConcat(a + [n], b, qs, js);
    EntriesConcat(a, [n], qs, js);
    EntriesSame(a, ps, ids, qs, js);
    EntriesSame(b, ps, ids, qs, js);
    EntriesBelow(a, ps, ids, k);
    EntriesBelow(b, ps, ids, k);
    KeyOf(n, qs, js);
    if same.Some? {
      KeyOf(same.value, ps, ids);
      assert Entries(mid, ps, ids) == [EntryOf(same.value, ps, ids)];
    }
    d := if same.Some? then Some(EntryOf(same.value, ps, ids)) else None;
    assert Entries([n], qs, js) == [EntryOf(n, qs, js)];
    InsertBetween(Entries(a, ps, ids), Entries(mid, ps, ids), Entries(b, ps, ids), EntryOf(n, qs, js));
  }

  lemma KeyOf<V>(n: RbNode, ps: Pieces<V>, ids: Numbers)
    requires n in ps && n in ids
    ensures EntryOf(n, ps, ids).key == ps[n].key && EntryOf(n, ps, ids).id == ids[n]
  {}

  lemma TrimPart<V>(st: State<V>, ids: Numbers, next: nat, n: RbNode, t: bool, same: Option<RbNode>,
                    d: Option<Entry<V>>, to: seq<RbNode>)
    requires Fit(st, ids, next) && n !in ids && to == LessOf(st.trim + (if t then [n] else []), same)
    requires if same.Some? then same.value in ids && d.Some? && d.value.id == ids[same.value] else d.None?
    ensures (forall m <- to :: m in ids[n := next])
    ensures Untrims(IdsOf(st.trim, ids) + (if t then [next] else []), d, IdsOf(to, ids[n := next]))
  {
    hide Accounted;
    InPieces(st);
    var js := ids[n := next];
    var trim := st.trim + if t then [n] else [];
    assert IdsOf(trim, js) == IdsOf(st.trim, ids) + if t then [next] else [];
    NumberedMore(st.ps, ids, next, n, st.ps);
    if same.Some? {
      IdsUnlink(trim, js, next + 1, same.value);
    }
  }

  lemma SeeVerified<V>(st: State<V>, ids: Numbers, next: nat, to: State<V>, r: Option<Handout<V>>)
    requires Fit(st, ids, next) && to.Ok()
    requires if st.order != [] then Drops(st, st.order[0], to, r) && to.order == st.order[1..] && to.list == st.list
             else if st.list != [] then Drops(st, st.list[0], to, r) && to.order == st.order && to.list == st.list[1..]
             else to == st && r == None
    ensures Fit(to, ids, next) && Seen(to, ids, next) == Stepped(Seen(st, ids, next), Verify)
    ensures r == Given(Seen(st, ids, next), Verify)
  {
    hide Accounted;
    InPieces(st);
    InPieces(to);
    FitOf(to, ids, next);
    EntriesSame(to.order, to.ps, ids, st.ps, ids);
    EntriesSame(to.list, to.ps, ids, st.ps, ids);
    if st.order != [] {
      IdsUnlink(st.trim, ids, next, st.order[0]);
    } else if st.list != [] {
      IdsUnlink(st.trim, ids, next, st.list[0]);
    }
  }

  /** Exactly the piece of n has left, and the trim list if it was there; it was handed out. */
  ghost predicate Drops<V>(st: State<V>, n: RbNode, to: State<V>, r: Option<Handout<V>>)
  {
    n in st.ps && r == Some(AsHandout(st.ps[n])) && to.ps == st.ps - {n} && to.trim == Unlink(st.trim, n)
  }

  lemma SeeTrimmed<V>(st: State<V>, ids: Numbers, next: nat, zero: bool, to: State<V>, r: Option<Handout<V>>)
    requires Fit(st, ids, next) && to.Ok()
    requires if st.trim == [] then to == st && r == None
             else
               var n := st.trim[0];
               && n in st.ps && r == Some(AsHandout(st.ps[n])) && to.trim == st.trim[1..]
               && if zero
                  then to.order == st.order && to.list == st.list && to.ps == st.ps[n := st.ps[n].(trimmed := true)]
                  else to.order == Unlink(st.order, n) && to.list == Unlink(st.list, n) && to.ps == st.ps - {n}
    ensures Fit(to, ids, next) && Seen(to, ids, next) == Stepped(Seen(st, ids, next), Trim(zero))
    ensures r == Given(Seen(st, ids, next), Trim(zero))
  {
    hide Accounted, Unlink, Without, Holder;
    FitOf(to, ids, next);
    if st.trim != [] {
      var n := st.trim[0];
      FirstTrimmed(st, ids, next, n);
      assert IdsOf(to.trim, ids) == IdsOf(st.trim, ids)[1..];
      if zero {
        EntriesMarked(st.order, st.ps, ids, next, n);
        EntriesMarked(st.list, st.ps, ids, next, n);
      } else {
        InPieces(st);
        InPieces(to);
        EntriesCut(st.order, st.ps, ids, next, n, to.order, to.ps);
        EntriesCut(st.list, st.ps, ids, next, n, to.list, to.ps);
      }
    }
  }

  lemma EntriesMarked<V>(s: seq<RbNode>, ps: Pieces<V>, ids: Numbers, next: nat, n: RbNode)
    requires Covers(s, ps, ids) && Numbered(ps, ids, next) && n in ps
    ensures Entries(s, ps[n := ps[n].(trimmed := true)], ids) == Marked(Entries(s, ps, ids), ids[n])
  {}

  lemma EntriesCut<V>(s: seq<RbNode>, ps: Pieces<V>, ids: Numbers, next: nat, n: RbNode, t: seq<RbNode>, qs: Pieces<V>)
    requires Covers(s, ps, ids) && Numbered(ps, ids, next) && n in ps && NoDup(s) && t == Unlink(s, n) && qs == ps - {n}
    requires Covers(t, qs, ids)
    ensures Entries(t, qs, ids) == Without(Entries(s, ps, ids), ids[n])
  {
    EntriesUnlink(s, ps, ids, next, n);
    EntriesSame(t, qs, ids, ps, ids);
  }

  lemma FirstTrimmed<V>(st: State<V>, ids: Numbers, next: nat, n: RbNode)
    requires Fit(st, ids, next) && st.trim != [] && n == st.trim[0]
    ensures Given(Seen(st, ids, next), Trim(true)) == Given(Seen(st, ids, next), Trim(false))
            == Some(AsHandout(st.ps[n]))
  {
    HolderOf(st.order, st.ps, ids, next, n);
    HolderOf(st.list, st.ps, ids, next, n);
  }

  lemma LegalLength<V>(st: State<V>, ids: Numbers, next: nat, s: Step<V>)
    requires Fit(st, ids, next) && Legal(Seen(st, ids, next), s) && s.Log?
    ensures s.mode.UsesTree() ==> SameLength(st.order, st.ps, s.key, s.len)
  {
    hide Mode.UsesTree;
    var e := Entries(st.order, st.ps, ids);
    forall n | s.mode.UsesTree() && n in st.order && n in st.ps && st.ps[n].key == s.key ensures st.ps[n].len == s.len {
      var i :| 0 <= i < |st.order| && st.order[i] == n;
      assert e[i] in e;
    }
  }

  lemma NumberedMore<V>(ps: Pieces<V>, ids: Numbers, next: nat, n: RbNode, qs: Pieces<V>)
    requires Numbered(ps, ids, next) && n !in ids && qs.Keys <= ps.Keys + {n}
    ensures Numbered(qs, ids[n := next], next + 1)
  {}

  lemma InPieces<V>(st: State<V>)
    requires st.Ok()
    ensures (forall m <- st.order :: m in st.ps) && (forall m <- st.list :: m in st.ps)
            && (forall m <- st.trim :: m in st.ps)
    ensures NoDup(st.list) && NoDup(st.trim) && NoDup(st.order)
  {}
}
