/**
  Write history for fixed block sizes: a red-black tree by (file, offset), a list for writes that need
  no sorting, and a list of the pieces that are to be trimmed.
 */
module TreeHistory {
  import opened RbShape
  import opened RbColour
  import opened RbSplice
  import opened RbTree
  import opened TreeOrder
  import opened TreeAccounts
  import opened HistorySpec
  import opened HistoryMeaning
  import opened Lists
  import opened Basics

  ghost predicate Among<V>(out: seq<Handout<V>>, k: Key)
  {
    exists i :: 0 <= i < |out| && out[i].key == k
  }

  lemma AmongStep<V>(out: seq<Handout<V>>, h: Handout<V>)
    ensures forall k :: Among(out + [h], k) <==> Among(out, k) || k == h.key
  {
    forall k ensures Among(out + [h], k) <==> Among(out, k) || k == h.key {
      if Among(out, k) {
        var i :| 0 <= i < |out| && out[i].key == k;
        assert (out + [h])[i].key == k;
      }
      assert (out + [h])[|out|] == h;
    }
  }

  class History<V(==)> {
    const root: RbRoot
    var pieces: Pieces<V>
    var list: seq<RbNode>
    var trimList: seq<RbNode>
    var trimEntries: nat
    var histLen: nat
    ghost var tree: Tree
    ghost var trace: seq<Event<V>>

    ghost predicate TreeOk()
      reads `tree, root, root.mem.links.Keys
    {
      root.Tied() && root.mem.Holds([], tree) && RedBlack(tree)
    }

    /** The whole state, with the pieces in limbo not yet in the tree or on the list. */
    ghost predicate Ok(limbo: set<RbNode>)
      reads this, root, root.mem.links.Keys
    {
      && TreeOk()
      && Accounted(tree.InOrder(), list, trimList, pieces, limbo)
      && Remembered(tree.InOrder(), pieces, trace)
      && trimEntries == |trimList|
      && histLen == |tree.InOrder()| + |list|
    }

    ghost predicate Valid()
      reads this, root, root.mem.links.Keys
    {
      Ok({})
    }

    /** The history as values. */
    ghost function Now(): State<V>
      reads this
    {
      State(tree.InOrder(), list, trimList, pieces)
    }

    constructor ()
      ensures Valid() && fresh(root) && root.mem.links == map[] && trace == [] && pieces == map[] && list == []
              && trimList == [] && tree.Leaf?
    {
      var r := new RbRoot();
      root, pieces, list, trimList, trimEntries, histLen := r, map[], [], [], 0, 0;
      tree, trace := Leaf, [];
      new;
      assert Rb(Leaf, 0);
    }

    // ---- the tree ----

    /** The loop of log_io_piece that looks for the place of a key. */
    method Descend(k: Key) returns (found: RbNode?, parent: RbNode?, link: Slot, ghost ctx: Ctx, ghost t: Tree)
      requires TreeOk() && Ascending(tree.InOrder(), pieces)
      ensures root.mem.Holds(ctx, t) && Plug(ctx, t) == tree && found == t.Root()
      ensures found != null ==> found in pieces && pieces[found].key == k
      ensures found == null ==> parent == Parent(ctx) && link == SlotOf(ctx)
      ensures found == null ==> AllBelow(Before(ctx), k, pieces) && AllAbove(After(ctx), k, pieces)
    {
      hide RbRoot.Tied, Mem.Holds, RedBlack, Plug, AllBelow, AllAbove, Ascending;
      ctx, t := [], tree;
      NothingAround(k);
      PlugNone(tree);
      CtxLinks(root.mem, ctx, t);
      root.RootIs();
      found, parent, link := root.node, null, AtRoot;
      while found != null
        invariant root.mem.Holds(ctx, t) && Plug(ctx, t) == tree && found == t.Root()
        invariant parent == Parent(ctx) && link == SlotOf(ctx)
        invariant AllBelow(Before(ctx), k, pieces) && AllAbove(After(ctx), k, pieces)
        decreases t
      {
        CtxLinks(root.mem, ctx, t);
        root.Look(found);
        Passing(ctx, t, k);
        var at := pieces[found].key;
        if k.file < at.file || (k.file == at.file && k.offset < at.offset) {
          parent, link := found, LeftOf(found);
          ghost var f := InLeft(t.n, t.black, t.r);
          MoveUpOnce(root.mem, f, ctx, t.l);
          PlugOnce(f, ctx, t.l);
          found, ctx, t := found.left, [f] + ctx, t.l;
        } else if k.file > at.file || k.offset > at.offset {
          parent, link := found, RightOf(found);
          ghost var f := InRight(t.n, t.black, t.l);
          MoveUpOnce(root.mem, f, ctx, t.r);
          PlugOnce(f, ctx, t.r);
          found, ctx, t := found.right, [f] + ctx, t.r;
        } else {
          break;
        }
      }
    }

    lemma NothingAround(k: Key)
      ensures AllBelow(Before([]), k, pieces) && AllAbove(After([]), k, pieces)
    {}

    lemma Passing(ctx: Ctx, t: Tree, k: Key)
      requires Plug(ctx, t) == tree && t.Node? && Ascending(tree.InOrder(), pieces)
      requires AllBelow(Before(ctx), k, pieces) && AllAbove(After(ctx), k, pieces)
      ensures t.n in pieces
      ensures k.Below(pieces[t.n].key)
              ==> var c := [InLeft(t.n, t.black, t.r)] + ctx;
                AllBelow(Before(c), k, pieces)
                && AllAbove(After(c), k, pieces)
      ensures pieces[t.n].key.Below(k)
              ==> var c := [InRight(t.n, t.black, t.l)] + ctx;
                AllBelow(Before(c), k, pieces)
                && AllAbove(After(c), k, pieces)
    {
      hide AllBelow, AllAbove, Plug;
      PlugInOrder(ctx, t);
      NodeOrder(t.l, t.n, t.black, t.r);
      var l, r := [InLeft(t.n, t.black, t.r)] + ctx, [InRight(t.n, t.black, t.l)] + ctx;
      assert l[1..] == ctx && r[1..] == ctx;
      var b, a := Before(ctx), After(ctx);
      assert t.n in b + (t.l.InOrder() + [t.n] + t.r.InOrder()) + a;
      if k.Below(pieces[t.n].key) {
        GoLeft(b, t.l.InOrder(), t.n, t.r.InOrder(), a, k, pieces);
      }
      if pieces[t.n].key.Below(k) {
        GoRight(b, t.l.InOrder(), t.n, t.r.InOrder(), a, k, pieces);
      }
    }

    /** rb_erase of a node of the tree: the others keep their order. */
    method EraseNode(n: RbNode) returns (ghost a: seq<RbNode>, ghost b: seq<RbNode>)
      requires TreeOk() && n in tree.InOrder()
      modifies `tree, root, root.mem.links.Keys
      ensures TreeOk() && old(tree).InOrder() == a + [n] + b && tree.InOrder() == a + b
      ensures root.mem.links.Keys <= old(root.mem).links.Keys
    {
      hide RbRoot.Tied, Mem.Holds, RedBlack, Plug;
      InOrderNodes(tree);
      PlugNone(tree);
      ghost var ctx, s := Locate(tree, n, []);
      MoveAlong(root.mem, ctx, [], s);
      assert ctx + [] == ctx;
      PlugInOrder(ctx, s);
      NodeOrder(s.l, n, s.black, s.r);
      a, b := Before(ctx) + s.l.InOrder(), s.r.InOrder() + After(ctx);
      ErasedSequence(Before(ctx), s.l.InOrder(), n, s.r.InOrder(), After(ctx));
      tree := root.Erase(n, ctx, s.l, s.black, s.r);
    }

    /** remove_trim_entry */
    method RemoveTrimEntry(n: RbNode)
      requires NoDup(trimList) && trimEntries == |trimList|
      modifies `trimList, `trimEntries
      ensures trimList == Unlink(old(trimList), n) && trimEntries == |trimList|
    {
      if n in trimList {
        trimList := Unlink(trimList, n);
        trimEntries := trimEntries - 1;
      }
    }

    /** Takes a piece out of the tree, off the trim list and out of the count, and frees it. */
    method DropFromTree(n: RbNode, ghost limbo: set<RbNode>) returns (ghost a: seq<RbNode>, ghost b: seq<RbNode>)
      requires Ok(limbo) && n in tree.InOrder()
      modifies this, root, root.mem.links.Keys
      ensures Ok(limbo) && list == old(list) && trimList == Unlink(old(trimList), n)
      ensures n in old(pieces) && pieces == old(pieces) - {n} && trace == old(trace) + [Gone(old(pieces)[n].key)]
      ensures old(tree).InOrder() == a + [n] + b && tree.InOrder() == a + b && n !in a
              && root.mem.links.Keys <= old(root.mem).links.Keys
      ensures !HasKey(tree.InOrder(), pieces, old(pieces)[n].key)
      ensures AllBelow(a, old(pieces)[n].key, old(pieces)) && AllAbove(b, old(pieces)[n].key, old(pieces))
    {
      hide TreeOk, Accounted, Remembered, Ascending, HasKey, NoDup;
      AccountedTrim(tree.InOrder(), limbo);
      a, b := EraseNode(n);
      AccountErased(a, n, b, list, trimList, pieces, limbo);
      RememberErased(a, n, b, pieces, trace);
      KeyGone(a, n, b, pieces);
      RemoveAscending(a, n, b, pieces);
      trace := trace + [Gone(pieces[n].key)];
      RemoveTrimEntry(n);
      histLen := histLen - 1;
      pieces := pieces - {n};
    }

    // ---- logging ----

    /** The place where a piece with key k belongs. */
    ghost predicate OpenPlace(k: Key, parent: RbNode?, link: Slot, ctx: Ctx)
      reads this, root
    {
      && root.mem.Holds(ctx, Leaf) && Plug(ctx, Leaf) == tree && parent == Parent(ctx) && link == SlotOf(ctx)
      && AllBelow(Before(ctx), k, pieces) && AllAbove(After(ctx), k, pieces)
    }

    /** One pass through the tree; a piece with the key of n is thrown out. */
    method Pass(n: RbNode)
        returns (again: bool, parent: RbNode?, link: Slot, ghost ctx: Ctx, ghost same: Option<RbNode>,
                 ghost a: seq<RbNode>, ghost b: seq<RbNode>)
      requires Ok({n}) && n in pieces && SameLength(tree.InOrder(), pieces, pieces[n].key, pieces[n].len)
      modifies this, root, root.mem.links.Keys
      ensures Ok({n}) && list == old(list) && root.mem.links.Keys <= old(root.mem).links.Keys
      ensures pieces == Less(old(pieces), same) && trimList == LessOf(old(trimList), same) && same != Some(n)
      ensures again == same.Some? == old(HasKey(tree.InOrder(), pieces, pieces[n].key))
      ensures Parted(old(tree).InOrder(), a, same, b, old(pieces), old(pieces)[n].key) && tree.InOrder() == a + b
      ensures !again ==> trace == old(trace) && OpenPlace(pieces[n].key, parent, link, ctx)
      ensures again ==> trace == old(trace) + [Gone(pieces[n].key)] && !HasKey(tree.InOrder(), pieces, pieces[n].key)
    {
      hide TreeOk, Accounted, Remembered, HasKey, Ascending, AllBelow, AllAbove, Plug, Mem.Holds;
      AccountedTrim(tree.InOrder(), {n});
      var found;
      ghost var t;
      found, parent, link, ctx, t := Descend(pieces[n].key);
      again := found != null;
      if again {
        FoundInTree(ctx, t, {n});
        assert pieces[found].len == pieces[n].len;
        same := Some(found);
        a, b := DropFromTree(found, {n});
      } else {
        NotFound(ctx, pieces[n].key);
        same, a, b := None, Before(ctx), After(ctx);
      }
    }

    /** Sorts a piece into the tree; a piece with the same key is thrown out first, and at most once. */
    method SortIn(n: RbNode) returns (ghost same: Option<RbNode>, ghost a: seq<RbNode>, ghost b: seq<RbNode>)
      requires Ok({n}) && n in pieces && SameLength(tree.InOrder(), pieces, pieces[n].key, pieces[n].len)
      modifies this, n, root, root.mem.links.Keys
      ensures Valid() && list == old(list) && root.mem.links.Keys <= old(root.mem).links.Keys + {n}
      ensures Parted(old(tree).InOrder(), a, same, b, old(pieces), old(pieces)[n].key) && tree.InOrder() == a + [n] + b
      ensures pieces == Less(old(pieces), same)[n := old(pieces)[n].(onTree := true)]
              && trimList == LessOf(old(trimList), same)
      ensures trace == old(trace) + [Logged(old(pieces)[n].key, old(pieces)[n].version)]
    {
      hide Ok, OpenPlace, HasKey, AllBelow, AllAbove, SameLength;
      ghost var was, p := trace, pieces[n];
      var again, parent, link;
      ghost var ctx;
      again, parent, link, ctx, same, a, b := Pass(n);
      while again
        invariant Ok({n}) && list == old(list) && n in pieces && pieces[n] == p
                  && root.mem.links.Keys <= old(root.mem).links.Keys
        invariant pieces == Less(old(pieces), same) && trimList == LessOf(old(trimList), same)
        invariant Parted(old(tree).InOrder(), a, same, b, old(pieces), p.key) && tree.InOrder() == a + b
        invariant trace == if same.None? then was else was + [Gone(p.key)]
        invariant if again then !HasKey(tree.InOrder(), pieces, p.key) else OpenPlace(p.key, parent, link, ctx)
        decreases again
      {
        ghost var none, c, d;
        NoLength(tree.InOrder(), pieces, p.key, p.len);
        again, parent, link, ctx, none, c, d := Pass(n);
      }
      SamePlace(ctx, a, b, old(pieces), p.key, parent, link);
      Hang(n, parent, link, ctx, was);
    }

    lemma SamePlace(ctx: Ctx, a: seq<RbNode>, b: seq<RbNode>, was: Pieces<V>, k: Key, parent: RbNode?, link: Slot)
      requires OpenPlace(k, parent, link, ctx) && tree.InOrder() == a + b && AllBelow(a, k, was) && AllAbove(b, k, was)
      requires forall m <- pieces :: m in was && was[m] == pieces[m]
      ensures Before(ctx) == a && After(ctx) == b
    {
      hide Plug, Mem.Holds;
      PlugInOrder(ctx, Leaf);
      assert Before(ctx) + Leaf.InOrder() + After(ctx) == Before(ctx) + After(ctx);
      OnePlace(Before(ctx), After(ctx), a, b, was, k);
    }

    method InsertNode(n: RbNode, parent: RbNode?, link: Slot, ghost ctx: Ctx)
      requires TreeOk() && root.mem.Holds(ctx, Leaf) && Plug(ctx, Leaf) == tree && parent == Parent(ctx)
               && link == SlotOf(ctx)
      requires n !in root.mem.links
      modifies `tree, n, root, root.mem.links.Keys
      ensures TreeOk() && tree.InOrder() == Before(ctx) + [n] + After(ctx)
              && old(tree).InOrder() == Before(ctx) + After(ctx)
      ensures root.mem.links.Keys == old(root.mem).links.Keys + {n}
    {
      hide RbRoot.Tied, Mem.Holds, RedBlack, Plug;
      PlugInOrder(ctx, Leaf);
      assert Leaf.InOrder() == [];
      assert Before(ctx) + [] + After(ctx) == Before(ctx) + After(ctx);
      tree := root.Insert(n, parent, link, ctx);
    }

    /** Links the piece into its place and accounts for it. */
    method Hang(n: RbNode, parent: RbNode?, link: Slot, ghost ctx: Ctx, ghost was: seq<Event<V>>)
      requires Ok({n}) && n in pieces && OpenPlace(pieces[n].key, parent, link, ctx)
      requires trace == was || trace == was + [Gone(pieces[n].key)]
      modifies this, n, root, root.mem.links.Keys
      ensures Valid() && list == old(list) && trimList == old(trimList)
              && tree.InOrder() == Before(ctx) + [n] + After(ctx)
      ensures trace == was + [Logged(old(pieces)[n].key, old(pieces)[n].version)]
      ensures pieces == old(pieces)[n := old(pieces)[n].(onTree := true)]
      ensures root.mem.links.Keys == old(root.mem).links.Keys + {n}
    {
      hide TreeOk, Accounted, Remembered, AllBelow, AllAbove, Plug, Mem.Holds;
      NotInTree(n);
      ghost var order := tree.InOrder();
      InsertNode(n, parent, link, ctx);
      Inserted(Before(ctx), n, After(ctx), was);
      trace := was + [Logged(pieces[n].key, pieces[n].version)];
      pieces := pieces[n := pieces[n].(onTree := true)];
      histLen := histLen + 1;
    }

    lemma Inserted(a: seq<RbNode>, n: RbNode, b: seq<RbNode>, was: seq<Event<V>>)
      requires Accounted(a + b, list, trimList, pieces, {n}) && n in pieces && Remembered(a + b, pieces, trace)
      requires AllBelow(a, pieces[n].key, pieces) && AllAbove(b, pieces[n].key, pieces)
      requires trace == was || trace == was + [Gone(pieces[n].key)]
      ensures var ps := pieces[n := pieces[n].(onTree := true)];
              Accounted(a + [n] + b, list, trimList, ps, {})
                && Remembered(a + [n] + b, ps, was + [Logged(pieces[n].key, pieces[n].version)])
    {
      hide Accounted, AllBelow, AllAbove;
      var e := Logged(pieces[n].key, pieces[n].version);
      var ps := pieces[n := pieces[n].(onTree := true)];
      AccountInserted(a, b, list, trimList, pieces, n);
      RememberInserted(a, n, b, pieces, trace);
      LoggedAgain(was, e.key, e.version);
      RememberTrace(a + [n] + b, pieces, trace + [e], was + [e]);
      RememberSame(a + [n] + b, pieces, ps, was + [e]);
    }

    lemma NotInTree(n: RbNode)
      requires TreeOk() && Accounted(tree.InOrder(), list, trimList, pieces, {n})
      ensures n !in root.mem.links
    {
      InOrderNodes(tree);
    }

    lemma FoundInTree(ctx: Ctx, t: Tree, limbo: set<RbNode>)
      requires Plug(ctx, t) == tree && t.Node? && Accounted(tree.InOrder(), list, trimList, pieces, limbo)
      ensures t.n in tree.InOrder() && t.n in pieces && pieces[t.n].onTree && t.n !in limbo
      ensures HasKey(tree.InOrder(), pieces, pieces[t.n].key)
    {
      PlugInOrder(ctx, t);
      assert tree.InOrder() == Before(ctx) + (t.l.InOrder() + [t.n] + t.r.InOrder()) + After(ctx);
      assert tree.InOrder()[|Before(ctx)| + |t.l.InOrder()|] == t.n;
    }

    lemma NotFound(ctx: Ctx, k: Key)
      requires Plug(ctx, Leaf) == tree && AllBelow(Before(ctx), k, pieces) && AllAbove(After(ctx), k, pieces)
      ensures !HasKey(tree.InOrder(), pieces, k) && tree.InOrder() == Before(ctx) + After(ctx)
    {
      PlugInOrder(ctx, Leaf);
      assert Before(ctx) + Leaf.InOrder() + After(ctx) == Before(ctx) + After(ctx);
      var s := tree.InOrder();
      forall i | 0 <= i < |s| ensures s[i] in pieces && pieces[s[i]].key != k {
        assert s[i] in Before(ctx) || s[i] in After(ctx);
      }
    }

    /** The piece as log_io_piece sets it up, with its place on the trim list. */
    method NewPiece(k: Key, len: nat, version: V, shouldTrim: bool) returns (n: RbNode)
      requires Valid()
      modifies `pieces, `trimList, `trimEntries
      ensures Ok({n}) && fresh(n) && pieces == old(pieces)[n := Piece(k, len, version, false, false, false)]
      ensures trimList == old(trimList) + if shouldTrim then [n] else []
    {
      hide Accounted, Remembered;
      n := new RbNode();
      AccountedKeys({});
      var ps := pieces[n := Piece(k, len, version, false, false, false)];
      AccountNew(tree.InOrder(), list, trimList, pieces, n, ps[n]);
      RememberSame(tree.InOrder(), pieces, ps, trace);
      pieces := ps;
      if shouldTrim {
        trimList := trimList + [n];
        trimEntries := trimEntries + 1;
      }
    }

    lemma NowOk()
      requires Valid()
      ensures Now().Ok()
    {}

    lemma OrderKnown()
      requires Valid()
      ensures forall m <- tree.InOrder() :: m in pieces
    {}

    method AppendToList(n: RbNode)
      requires Ok({n}) && n in pieces
      modifies `list, `pieces, `histLen
      ensures Valid() && list == old(list) + [n] && pieces == old(pieces)[n := old(pieces)[n].(onList := true)]
    {
      hide Accounted, Remembered;
      AccountedKeys({n});
      AccountListed(tree.InOrder(), list, trimList, pieces, n);
      RememberSame(tree.InOrder(), pieces, pieces[n := pieces[n].(onList := true)], trace);
      list := list + [n];
      pieces := pieces[n := pieces[n].(onList := true)];
      histLen := histLen + 1;
    }

    /**
      log_io_piece for a fixed block size. A piece that is sorted goes where its key belongs, and the piece with the
      same key, if there is one, leaves the tree and the trim list; all others stay as they are.
     */
    method LogIoPiece(k: Key, len: nat, version: V, shouldTrim: bool, mode: Mode)
        returns (n: RbNode, ghost same: Option<RbNode>, ghost a: seq<RbNode>, ghost b: seq<RbNode>)
      requires Valid() && (mode.UsesTree() ==> SameLength(tree.InOrder(), pieces, k, len))
      modifies this, root, root.mem.links.Keys
      ensures Valid() && fresh(n) && fresh(root.mem.links.Keys - old(root.mem).links.Keys)
      ensures pieces == Less(old(pieces), same)[n := Piece(k, len, version, mode.UsesTree(), !mode.UsesTree(), false)]
      ensures trimList == LessOf(old(trimList) + if shouldTrim then [n] else [], same)
      ensures n in tree.InOrder()
              <==> || (mode.random && mode.overwrite) || (mode.verifies && !mode.randomMap)
                   || (mode.verifies && mode.randomAgain) || mode.manyInSequence || mode.verifySort
      ensures mode.UsesTree() ==> trace == old(trace) + [Logged(k, version)] && list == old(list)
      ensures mode.UsesTree() ==>
                Parted(old(tree).InOrder(), a, same, b, old(pieces), k) && tree.InOrder() == a + [n] + b
      ensures !mode.UsesTree() ==> trace == old(trace) && tree == old(tree) && list == old(list) + [n] && same.None?
    {
      hide Ok, SameLength, Parted, Mode.UsesTree, Less, LessOf;
      OrderKnown();
      mode.SortsIff();
      n := NewPiece(k, len, version, shouldTrim);
      ghost var before := pieces;
      assert before == old(pieces)[n := before[n]] && n !in old(pieces);
      if !mode.UsesTree() {
        AppendToList(n);
        same, a, b := None, [], [];
        NothingLess(old(pieces), trimList);
      } else {
        LengthStays(old(tree).InOrder(), old(pieces), n, before[n], k, len);
        same, a, b := SortIn(n);
        PartedStays(old(tree).InOrder(), a, same, b, old(pieces), n, before[n], k);
        LessUpdate(old(pieces), same, n, before[n], pieces[n]);
      }
    }

    // ---- handing out ----

    /** Takes a piece off the list, off the trim list and out of the count, and frees it. */
    method DropFromList(n: RbNode)
      requires Valid() && n in list
      modifies `list, `trimList, `trimEntries, `pieces, `histLen
      ensures Valid() && list == Unlink(old(list), n) && trimList == Unlink(old(trimList), n)
      ensures n in old(pieces) && pieces == old(pieces) - {n}
    {
      hide Accounted, Remembered, NoDup;
      AccountedTrim(tree.InOrder(), {});
      AccountedKeys({});
      AccountUnlisted(tree.InOrder(), list, trimList, pieces, n);
      RememberSame(tree.InOrder(), pieces, pieces - {n}, trace);
      list := Unlink(list, n);
      RemoveTrimEntry(n);
      histLen := histLen - 1;
      pieces := pieces - {n};
    }

    lemma Flags(n: RbNode)
      requires Valid() && n in pieces
      ensures pieces[n].onTree <==> n in tree.InOrder()
      ensures pieces[n].onList <==> n in list
      ensures pieces[n].onTree != pieces[n].onList
    {}

    lemma FirstFlags()
      requires Valid()
      ensures forall n <- trimList :: n in pieces
      ensures forall n <- list :: n in pieces && pieces[n].onList && n !in tree.InOrder()
      ensures |trimList| == trimEntries
    {}

    lemma FirstInOrder()
      requires Valid() && tree.Node?
      ensures |tree.InOrder()| > 0
      ensures var n := tree.InOrder()[0];
              && n in pieces && pieces[n].onTree && pieces[n].key in Latest(trace)
              && Latest(trace)[pieces[n].key] == pieces[n].version
              && forall k <- Latest(trace) :: k == pieces[n].key || pieces[n].key.Below(k)
    {
      assert tree.InOrder() == tree.l.InOrder() + [tree.n] + tree.r.InOrder();
      FirstIsSmallest(tree.InOrder(), pieces, trace);
    }

    lemma RootMeansTree()
      requires Valid()
      ensures root.node == null <==> tree.Leaf?
    {}

    /**
      get_next_verify: pieces of the tree come first, smallest key first, with the version that was
      logged last for that key; then the pieces of the list, oldest first.
     */
    method GetNextVerify() returns (r: Option<Handout<V>>)
      requires Valid()
      modifies this, root, root.mem.links.Keys
      ensures Valid() && root.mem.links.Keys <= old(root.mem).links.Keys
      ensures r.None? <==> old(tree).Leaf? && old(list) == []
      ensures r.None? ==> Now() == old(Now()) && trace == old(trace)
      ensures old(tree).Node? ==>
                && r.Some? && list == old(list) && trace == old(trace) + [Gone(r.value.key)]
                && |old(tree).InOrder()| > 0 && Leaves(old(tree).InOrder()[0], r.value, old(pieces), old(trimList))
                && tree.InOrder() == old(tree).InOrder()[1..]
                && r.value.key in Latest(old(trace)) && r.value.version == Latest(old(trace))[r.value.key]
                && forall k <- Latest(old(trace)) :: k == r.value.key || r.value.key.Below(k)
      ensures old(tree).Leaf? && old(list) != [] ==>
                && r.Some? && list == old(list)[1..] && trace == old(trace) && tree == old(tree)
                && Leaves(old(list)[0], r.value, old(pieces), old(trimList))
    {
      hide Ok;
      RootMeansTree();
      FirstFlags();
      if root.node != null {
        FirstInOrder();
        TreeIsOk();
        var n := root.First(tree);
        assert pieces[n].onTree;
        r := Some(AsHandout(pieces[n]));
        ghost var a, b := DropFromTree(n, {});
        FirstOf(old(tree).InOrder(), a, n, b);
      } else if list != [] {
        var n := list[0];
        assert pieces[n].onList;
        r := Some(AsHandout(pieces[n]));
        DropFromList(n);
      } else {
        r := None;
      }
    }

    /** Exactly the piece of n has left the history, and the trim list if it was there; it went to the handout. */
    ghost predicate Leaves(n: RbNode, h: Handout<V>, was: Pieces<V>, trim: seq<RbNode>)
      reads `pieces, `trimList
    {
      && n in was && h.key == was[n].key && h.len == was[n].len && h.version == was[n].version
      && h.trimmed == was[n].trimmed && pieces == was - {n} && trimList == Unlink(trim, n)
    }

    /** Taking out the first of a strictly ascending order leaves the rest. */
    lemma FirstOf(order: seq<RbNode>, a: seq<RbNode>, n: RbNode, b: seq<RbNode>)
      requires order == a + [n] + b && order[0] == n && n !in a
      ensures a + b == order[1..]
    {
      var first := order[0];
      assert |a| > 0 ==> first in a;
    }

    lemma TreeIsOk()
      requires Valid()
      ensures root.Tied() && root.mem.Holds([], tree)
    {}

    /** get_next_trim: hands out the oldest piece to trim; unless zeroes are to be verified, it leaves the history. */
    method GetNextTrim(trimZero: bool) returns (r: Option<Handout<V>>)
      requires Valid()
      modifies this, root, root.mem.links.Keys
      ensures Valid() && root.mem.links.Keys <= old(root.mem).links.Keys
      ensures r.None? <==> old(trimList) == []
      ensures r.None? ==> Now() == old(Now()) && trace == old(trace)
      ensures r.Some? ==>
                var n := old(trimList)[0];
                && n in old(pieces) && trimList == old(trimList)[1..]
                && r.value.key == old(pieces)[n].key && r.value.len == old(pieces)[n].len
                && r.value.version == old(pieces)[n].version && r.value.trimmed == old(pieces)[n].trimmed
                && (trimZero ==> tree == old(tree) && list == old(list) && trace == old(trace)
                                 && pieces == old(pieces)[n := old(pieces)[n].(trimmed := true)])
                && (!trimZero ==> pieces == old(pieces) - {n} && list == Unlink(old(list), n)
                                  && tree.InOrder() == Unlink(old(tree).InOrder(), n)
                                  && trace == if old(pieces)[n].onTree then old(trace) + [Gone(r.value.key)]
                                     else old(trace))
    {
      hide Ok;
      FirstFlags();
      if trimList == [] {
        return None;
      }
      assert trimEntries > 0;
      var n := trimList[0];
      Flags(n);
      r := Some(AsHandout(pieces[n]));
      if trimZero {
        MarkTrimmed(n);
      } else if pieces[n].onList {
        DropFromList(n);
      } else {
        assert pieces[n].onTree;
        ghost var a, b := DropFromTree(n, {});
        UnlinkMiddle(a, n, b);
      }
    }

    method MarkTrimmed(n: RbNode)
      requires Valid() && n in pieces
      modifies `trimList, `trimEntries, `pieces
      ensures Valid() && trimList == Unlink(old(trimList), n)
              && pieces == old(pieces)[n := old(pieces)[n].(trimmed := true)]
    {
      hide Accounted, Remembered, NoDup;
      AccountedTrim(tree.InOrder(), {});
      AccountedKeys({});
      AccountTrimmed(tree.InOrder(), list, trimList, pieces, n);
      RememberSame(tree.InOrder(), pieces, pieces[n := pieces[n].(trimmed := true)], trace);
      RemoveTrimEntry(n);
      pieces := pieces[n := pieces[n].(trimmed := true)];
    }

    /** Verifying until the tree is empty reads every remembered key once, in ascending order, with its last version. */
    method DrainTree() returns (out: seq<Handout<V>>)
      requires Valid()
      modifies this, root, root.mem.links.Keys
      ensures Valid() && tree.Leaf? && list == old(list)
      ensures forall i, j | 0 <= i < j < |out| ::
                && out[i].key.file <= out[j].key.file
                && (out[i].key.file == out[j].key.file ==> out[i].key.offset < out[j].key.offset)
      ensures forall h <- out :: h.key in Latest(old(trace)) && h.version == Latest(old(trace))[h.key]
      ensures forall k <- Latest(old(trace)) :: Among(out, k)
    {
      hide Ok, Latest, Leaves, Among, Key.Below;
      out := [];
      RootMeansTree();
      while root.node != null
        invariant Valid() && list == old(list) && root.mem.links.Keys <= old(root.mem).links.Keys
        invariant root.node == null <==> tree.Leaf?
        invariant forall i, j | 0 <= i < j < |out| :: out[i].key.Below(out[j].key)
        invariant forall h <- out :: h.key in Latest(old(trace)) && h.version == Latest(old(trace))[h.key]
        invariant forall k <- Latest(trace) :: k in Latest(old(trace)) && Latest(trace)[k] == Latest(old(trace))[k]
        invariant forall h <- out, k <- Latest(trace) :: h.key.Below(k)
        invariant forall k <- Latest(old(trace)) :: k in Latest(trace) || Among(out, k)
        decreases |tree.InOrder()|
      {
        ghost var was := trace;
        var r := GetNextVerify();
        LatestStep(was, Gone(r.value.key));
        AmongStep(out, r.value);
        out := out + [r.value];
        RootMeansTree();
      }
      NothingLeft();
      Rises(out);
    }

    lemma Rises(out: seq<Handout<V>>)
      requires forall i, j | 0 <= i < j < |out| :: out[i].key.Below(out[j].key)
      ensures forall i, j | 0 <= i < j < |out| ::
                && out[i].key.file <= out[j].key.file
                && (out[i].key.file == out[j].key.file ==> out[i].key.offset < out[j].key.offset)
    {}

    lemma NothingLeft()
      requires Valid() && tree.Leaf?
      ensures Latest(trace) == map[]
    {
      assert forall k :: !HasKey(tree.InOrder(), pieces, k);
    }

    lemma AccountedKeys(limbo: set<RbNode>)
      requires Accounted(tree.InOrder(), list, trimList, pieces, limbo)
      ensures forall m <- tree.InOrder() :: m in pieces
      ensures forall m <- list :: m in pieces
      ensures forall m <- trimList :: m in pieces
    {}

    lemma AccountedTrim(order: seq<RbNode>, limbo: set<RbNode>)
      requires Accounted(order, list, trimList, pieces, limbo)
      ensures NoDup(trimList) && NoDup(list) && Ascending(order, pieces)
    {}
  }

  lemma NothingLess<V>(ps: Pieces<V>, trim: seq<RbNode>)
    ensures Less(ps, None) == ps && LessOf(trim, None) == trim
  {}

  lemma LessUpdate<V>(ps: Pieces<V>, gone: Option<RbNode>, n: RbNode, p: Piece<V>, q: Piece<V>)
    requires gone != Some(n)
    ensures Less(ps[n := p], gone)[n := q] == Less(ps, gone)[n := q]
  {}

  lemma LengthStays<V>(order: seq<RbNode>, ps: Pieces<V>, n: RbNode, p: Piece<V>, k: Key, len: nat)
    requires SameLength(order, ps, k, len) && n !in ps && forall m <- order :: m in ps
    ensures SameLength(order, ps[n := p], k, len)
  {}

  lemma NoLength<V>(order: seq<RbNode>, ps: Pieces<V>, k: Key, len: nat)
    requires !HasKey(order, ps, k)
    ensures SameLength(order, ps, k, len)
  {
    forall m | m in order && m in ps ensures ps[m].key != k {
      var i :| 0 <= i < |order| && order[i] == m;
    }
  }

  /** What parts the order does so without a piece that is not in it. */
  lemma PartedStays<V>(order: seq<RbNode>, a: seq<RbNode>, same: Option<RbNode>, b: seq<RbNode>, ps: Pieces<V>,
                       n: RbNode, p: Piece<V>, k: Key)
    requires Parted(order, a, same, b, ps[n := p], k) && n !in ps && forall m <- order :: m in ps
    ensures Parted(order, a, same, b, ps, k) && same != Some(n)
  {
    assert forall m <- a :: m in order;
    assert forall m <- b :: m in order;
    assert same.Some? ==> order[|a|] == same.value;
  }

  lemma ErasedSequence(b: seq<RbNode>, l: seq<RbNode>, n: RbNode, r: seq<RbNode>, a: seq<RbNode>)
    ensures b + (l + [n] + r) + a == (b + l) + [n] + (r + a) && b + l + r + a == (b + l) + (r + a)
  {}

  lemma RememberTrace<V>(order: seq<RbNode>, ps: Pieces<V>, trace: seq<Event<V>>, other: seq<Event<V>>)
    requires Remembered(order, ps, trace) && Latest(trace) == Latest(other)
    ensures Remembered(order, ps, other)
  {}

  lemma KeyGone<V>(a: seq<RbNode>, n: RbNode, b: seq<RbNode>, ps: Pieces<V>)
    requires Ascending(a + [n] + b, ps) && n in ps
    ensures !HasKey(a + b, ps - {n}, ps[n].key)
  {
    RemoveAscending(a, n, b, ps);
    forall i | 0 <= i < |a + b| ensures (a + b)[i] in ps && ps[(a + b)[i]].key != ps[n].key {
      assert i < |a| ==> (a + b)[i] in a;
      assert i >= |a| ==> (a + b)[i] in b;
    }
  }

  // ---- runs ----

  method LogStep<V(==)>(h: History<V>, s: Step<V>, ghost ids: Numbers, ghost next: nat) returns (ghost js: Numbers)
    requires h.Valid() && Fit(h.Now(), ids, next) && s.Log? && Legal(Seen(h.Now(), ids, next), s)
    modifies h, h.root, h.root.mem.links.Keys
    ensures h.Valid() && fresh(h.root.mem.links.Keys - old(h.root.mem).links.Keys) && Fit(h.Now(), js, next + 1)
    ensures Seen(h.Now(), js, next + 1) == Stepped(old(Seen(h.Now(), ids, next)), s)
  {
    hide History.Valid, Fit, Stepped, Seen, Legal, SameLength, Mode.UsesTree, State.Ok, Parted, Less, LessOf;
    ghost var was := h.Now();
    LegalLength(was, ids, next, s);
    var n;
    ghost var same, a, b;
    n, same, a, b := h.LogIoPiece(s.key, s.len, s.version, s.shouldTrim, s.mode);
    h.NowOk();
    js := ids[n := next];
    if s.mode.UsesTree() {
      SeeSorted(was, ids, next, n, s, h.Now(), a, same, b);
    } else {
      NothingLess(was.ps, was.trim + if s.shouldTrim then [n] else []);
      SeeListed(was, ids, next, n, s, h.Now());
    }
  }

  method VerifyStep<V(==)>(h: History<V>, ghost ids: Numbers, ghost next: nat) returns (r: Option<Handout<V>>)
    requires h.Valid() && Fit(h.Now(), ids, next)
    modifies h, h.root, h.root.mem.links.Keys
    ensures h.Valid() && fresh(h.root.mem.links.Keys - old(h.root.mem).links.Keys) && Fit(h.Now(), ids, next)
    ensures Seen(h.Now(), ids, next) == Stepped(old(Seen(h.Now(), ids, next)), Verify)
    ensures r == Given(old(Seen(h.Now(), ids, next)), Verify)
  {
    hide History.Valid, Fit, Stepped, Given, Seen, State.Ok, Unlink;
    ghost var was := h.Now();
    r := h.GetNextVerify();
    h.NowOk();
    SeeVerified(was, ids, next, h.Now(), r);
  }

  method TrimStep<V(==)>(h: History<V>, zero: bool, ghost ids: Numbers, ghost next: nat) returns (r: Option<Handout<V>>)
    requires h.Valid() && Fit(h.Now(), ids, next)
    modifies h, h.root, h.root.mem.links.Keys
    ensures h.Valid() && fresh(h.root.mem.links.Keys - old(h.root.mem).links.Keys) && Fit(h.Now(), ids, next)
    ensures Seen(h.Now(), ids, next) == Stepped(old(Seen(h.Now(), ids, next)), Trim(zero))
    ensures r == Given(old(Seen(h.Now(), ids, next)), Trim(zero))
  {
    hide History.Valid, Fit, Stepped, Given, Seen, State.Ok;
    ghost var was := h.Now();
    r := h.GetNextTrim(zero);
    h.NowOk();
    SeeTrimmed(was, ids, next, zero, h.Now(), r);
  }

  /** One step: what it leaves and what it hands out is what the step on values says. */
  method TakeStep<V(==)>(h: History<V>, s: Step<V>, ghost ids: Numbers, ghost next: nat)
      returns (r: Option<Handout<V>>, ghost js: Numbers, ghost more: nat)
    requires h.Valid() && Fit(h.Now(), ids, next) && Legal(Seen(h.Now(), ids, next), s)
    modifies h, h.root, h.root.mem.links.Keys
    ensures h.Valid() && fresh(h.root.mem.links.Keys - old(h.root.mem).links.Keys) && Fit(h.Now(), js, more)
    ensures Seen(h.Now(), js, more) == Stepped(old(Seen(h.Now(), ids, next)), s)
    ensures r == Given(old(Seen(h.Now(), ids, next)), s)
  {
    hide History.Valid, Fit, Stepped, Seen, Legal;
    js, more := ids, next;
    match s {
      case Log(_, _, _, _, _) =>
        js := LogStep(h, s, ids, next);
        r, more := None, next + 1;
      case Verify =>
        r := VerifyStep(h, ids, next);
      case Trim(zero) =>
        r := TrimStep(h, zero, ids, next);
    }
  }

  /**
    Whatever the order of writes, verify reads and trims, the history is what the same steps on values make of it,
    and hands out the same pieces.
   */
  method Run<V(==)>(h: History<V>, steps: seq<Step<V>>, ghost ids: Numbers, ghost next: nat)
      returns (given: seq<Option<Handout<V>>>, ghost js: Numbers, ghost more: nat)
    requires h.Valid() && Fit(h.Now(), ids, next)
    requires forall i | 0 <= i < |steps| :: Legal(SteppedAll(Seen(h.Now(), ids, next), steps[..i]), steps[i])
    modifies h, h.root, h.root.mem.links.Keys
    ensures h.Valid() && fresh(h.root.mem.links.Keys - old(h.root.mem).links.Keys) && Fit(h.Now(), js, more)
            && Seen(h.Now(), js, more) == SteppedAll(old(Seen(h.Now(), ids, next)), steps)
    ensures |given| == |steps|
    ensures forall i | 0 <= i < |steps| ::
              given[i] == Given(SteppedAll(old(Seen(h.Now(), ids, next)), steps[..i]), steps[i])
  {
    hide History.Valid, Fit, Stepped, SteppedAll, Given, Seen, Legal;
    ghost var was := Seen(h.Now(), ids, next);
    given, js, more := [], ids, next;
    NoStep(was, steps);
    for i := 0 to |steps|
      invariant h.Valid() && fresh(h.root.mem.links.Keys - old(h.root.mem).links.Keys) && Fit(h.Now(), js, more)
      invariant Seen(h.Now(), js, more) == SteppedAll(was, steps[..i])
      invariant |given| == i && forall j | 0 <= j < i :: given[j] == Given(SteppedAll(was, steps[..j]), steps[j])
    {
      var r;
      OneMore(was, steps, i);
      r, js, more := TakeStep(h, steps[i], js, more);
      given := given + [r];
    }
    assert steps[..|steps|] == steps;
  }

  /** From an empty history on, the pieces handed out are a function of the steps alone. */
  method RunAll<V(==)>(steps: seq<Step<V>>) returns (given: seq<Option<Handout<V>>>)
    requires forall i | 0 <= i < |steps| :: Legal(SteppedAll(Abs([], [], [], 0), steps[..i]), steps[i])
    ensures |given| == |steps|
    ensures forall i | 0 <= i < |steps| :: given[i] == Given(SteppedAll(Abs([], [], [], 0), steps[..i]), steps[i])
    ensures forall i | 0 <= i < |steps| && given[i].Some? :: AsLogged(steps[..i], steps[i], given[i].value)
  {
    hide History.Valid, Stepped, Given, Legal, AsLogged;
    var h := new History<V>();
    h.NowOk();
    FitOf(h.Now(), map[], 0);
    assert Seen(h.Now(), map[], 0) == Abs([], [], [], 0);
    ghost var js, more;
    given, js, more := Run(h, steps, map[], 0);
    forall i | 0 <= i < |steps| && given[i].Some?
      ensures AsLogged(steps[..i], steps[i], given[i].value)
    {
      HandedAsLogged(steps[..i], steps[i]);
    }
  }
}
