/** Nodes that enter and leave a linked tree: hanging one in, taking one out, putting one in the place of another. */
module RbSplice {
  import opened RbShape

  ghost function Reparented(m: Mem, b: RbNode?, p: RbNode?): Mem
    requires b != null ==> b in m.links
  {
    if b == null then m else m.SetParent(b, p)
  }

  ghost function Dropped(m: Mem, x: RbNode): Mem
  {
    m.(links := m.links - {x})
  }

  ghost function Added(m: Mem, x: RbNode, k: Links): Mem
  {
    m.(links := m.links[x := k])
  }

  /** The facts about a subtree in its place, one level deep. */
  lemma NodeHolds(m: Mem, ctx: Ctx, l: Tree, n: RbNode, c: bool, r: Tree)
    ensures m.Holds(ctx, Node(l, n, c, r)) <==>
            && n in m.links && m.links[n] == Links(l.Root(), r.Root(), Parent(ctx), c)
            && m.Spells(l, n) && m.Spells(r, n) && m.SpellsCtx(ctx, n)
            && l.Distinct() && r.Distinct() && CtxDistinct(ctx)
            && n !in l.Nodes() && n !in r.Nodes() && n !in CtxNodes(ctx)
            && l.Nodes() !! r.Nodes() && l.Nodes() !! CtxNodes(ctx) && r.Nodes() !! CtxNodes(ctx)
            && m.links.Keys == l.Nodes() + r.Nodes() + {n} + CtxNodes(ctx)
  {
    hide Tree.Nodes, Tree.Distinct, Mem.Spells, Mem.SpellsCtx, CtxNodes, CtxDistinct;
    NodeFacts(l, n, c, r);
    NodeSpells(m, l, n, c, r, Parent(ctx));
  }

  // ---- taking out a node with at most one child ----

  lemma SplicedLinks(m: Mem, ctx: Ctx, n: RbNode, child: Tree)
    requires child.Node? ==> child.n in m.links
    requires ctx != [] ==> ctx[0].n in m.links
    requires n !in child.Nodes() && n !in CtxNodes(ctx) && child.Nodes() !! CtxNodes(ctx)
    ensures var w := Dropped(Relinked(Reparented(m, child.Root(), Parent(ctx)), ctx, child.Root()), n);
            && w.links.Keys == m.links.Keys - {n}
            && SameOn(Relinked(m, ctx, child.Root()), w, CtxNodes(ctx))
            && w.root == Relinked(m, ctx, child.Root()).root
            && (child.Node? ==> child.n in w.links && w.links[child.n] == m.links[child.n].(parent := Parent(ctx))
                                && SameOn(m, w, child.Nodes() - {child.n}))
  {
    RootInNodes(child);
    ParentInNodes(ctx);
  }

  /** Linking the only child of n to n's parent takes n out of the tree. */
  lemma SpliceHolds(m: Mem, ctx: Ctx, l: Tree, n: RbNode, c: bool, r: Tree, child: Tree)
    requires m.Holds(ctx, Node(l, n, c, r)) && if l.Leaf? then child == r else r.Leaf? && child == l
    ensures (child.Node? ==> child.n in m.links) && (ctx != [] ==> ctx[0].n in m.links)
    ensures Dropped(Relinked(Reparented(m, child.Root(), Parent(ctx)), ctx, child.Root()), n).Holds(ctx, child)
  {
    hide Relinked, Dropped, Mem.Spells, Mem.SpellsCtx, SameOn, CtxDistinct, Tree.Distinct;
    NodeHolds(m, ctx, l, n, c, r);
    LinkedRoots(m, ctx, n, child, n);
    var w := Dropped(Relinked(Reparented(m, child.Root(), Parent(ctx)), ctx, child.Root()), n);
    SplicedLinks(m, ctx, n, child);
    SpellsMoved(m, w, child, n, Parent(ctx));
    RelinkedSpells(m, ctx, n, child.Root());
    SpellsCtxFrame(Relinked(m, ctx, child.Root()), w, ctx, child.Root());
  }

  // ---- putting one node in the place of another ----

  ghost function Replaced(m: Mem, ctx: Ctx, x: RbNode, y: RbNode, l: RbNode?, r: RbNode?): Mem
    requires x in m.links && (ctx != [] ==> ctx[0].n in m.links) && (l != null ==> l in m.links)
             && (r != null ==> r in m.links)
  {
    Dropped(Reparented(Reparented(Relinked(Added(m, y, m.links[x]), ctx, y), l, y), r, y), x)
  }

  lemma ReplacedLinks(m: Mem, ctx: Ctx, l: Tree, x: RbNode, r: Tree, y: RbNode)
    requires x in m.links && (ctx != [] ==> ctx[0].n in m.links) && (l.Node? ==> l.n in m.links)
             && (r.Node? ==> r.n in m.links)
    requires {x, y} !! l.Nodes() && {x, y} !! r.Nodes() && {x, y} !! CtxNodes(ctx) && x != y
    requires l.Nodes() !! r.Nodes() && l.Nodes() !! CtxNodes(ctx) && r.Nodes() !! CtxNodes(ctx)
    ensures var w := Replaced(m, ctx, x, y, l.Root(), r.Root());
            && w.links.Keys == m.links.Keys - {x} + {y} && w.links[y] == m.links[x]
            && SameOn(Relinked(m, ctx, y), w, CtxNodes(ctx)) && w.root == Relinked(m, ctx, y).root
            && (l.Node? ==>
                 l.n in w.links && w.links[l.n] == m.links[l.n].(parent := y) && SameOn(m, w, l.Nodes() - {l.n}))
            && (r.Node? ==>
                 r.n in w.links && w.links[r.n] == m.links[r.n].(parent := y) && SameOn(m, w, r.Nodes() - {r.n}))
  {
    hide Tree.Nodes, CtxNodes;
    RootInNodes(l);
    RootInNodes(r);
    ParentInNodes(ctx);
  }

  lemma ReplaceHolds(m: Mem, ctx: Ctx, l: Tree, x: RbNode, c: bool, r: Tree, y: RbNode)
    requires m.Holds(ctx, Node(l, x, c, r)) && y !in m.links
    ensures x in m.links && (ctx != [] ==> ctx[0].n in m.links) && (l.Node? ==> l.n in m.links)
            && (r.Node? ==> r.n in m.links)
    ensures Replaced(m, ctx, x, y, l.Root(), r.Root()).Holds(ctx, Node(l, y, c, r))
  {
    hide Relinked, Replaced, Mem.Holds, Mem.Spells, Mem.SpellsCtx, SameOn, CtxDistinct, Tree.Distinct, Tree.Nodes,
         CtxNodes;
    NodeHolds(m, ctx, l, x, c, r);
    LinkedRoots(m, ctx, x, l, x);
    LinkedRoots(m, ctx, x, r, x);
    ReplacedLinks(m, ctx, l, x, r, y);
    var w := Replaced(m, ctx, x, y, l.Root(), r.Root());
    SpellsMoved(m, w, l, x, y);
    SpellsMoved(m, w, r, x, y);
    RelinkedSpells(m, ctx, x, y);
    SpellsCtxFrame(Relinked(m, ctx, y), w, ctx, y);
    NodeHolds(w, ctx, l, y, c, r);
  }

  // ---- hanging in a new node ----

  lemma LinkHolds(m: Mem, ctx: Ctx, n: RbNode)
    requires m.Holds(ctx, Leaf) && n !in m.links
    ensures ctx != [] ==> ctx[0].n in m.links
    ensures Relinked(Added(m, n, Links(null, null, Parent(ctx), false)), ctx, n).Holds(ctx, Node(Leaf, n, false, Leaf))
  {
    hide Mem.SpellsCtx, CtxDistinct, CtxNodes;
    LinkedRoots(m, ctx, null, Leaf, null);
    ParentInNodes(ctx);
    var w := Relinked(Added(m, n, Links(null, null, Parent(ctx), false)), ctx, n);
    RelinkedSpells(m, ctx, null, n);
    SpellsCtxFrame(Relinked(m, ctx, n), w, ctx, n);
    NodeHolds(w, ctx, Leaf, n, false, Leaf);
  }

  // ---- finding the place of a node ----

  /** Plugging along a way down and then along the way up plugs along both. */
  lemma {:induction false} PlugAlong(down: Ctx, ctx: Ctx, t: Tree)
    ensures Plug(down + ctx, t) == Plug(ctx, Plug(down, t))
  {
    if down == [] {
      assert down + ctx == ctx;
    } else {
      assert (down + ctx)[1..] == down[1..] + ctx;
      PlugAlong(down[1..], ctx, down[0].Fill(t));
    }
  }

  /** The focus can be moved along any part of the way up, and back. */
  lemma {:induction false} MoveAlong(m: Mem, down: Ctx, ctx: Ctx, t: Tree)
    ensures m.Holds(down + ctx, t) <==> m.Holds(ctx, Plug(down, t))
  {
    hide Mem.Holds;
    if down == [] {
      assert down + ctx == ctx;
    } else {
      assert (down + ctx)[1..] == down[1..] + ctx && (down + ctx)[0] == down[0];
      MoveUp(m, down + ctx, t);
      MoveAlong(m, down[1..], ctx, down[0].Fill(t));
    }
  }

  /** Every node of a tree has a place in it. */
  lemma {:induction false} Locate(t: Tree, x: RbNode, above: Ctx) returns (ctx: Ctx, s: Tree)
    requires x in t.Nodes()
    ensures s.Node? && s.n == x && Plug(ctx, s) == Plug(above, t)
  {
    if x == t.n {
      ctx, s := above, t;
    } else if x in t.l.Nodes() {
      var f := InLeft(t.n, t.black, t.r);
      assert ([f] + above)[1..] == above;
      ctx, s := Locate(t.l, x, [f] + above);
    } else {
      var f := InRight(t.n, t.black, t.l);
      assert ([f] + above)[1..] == above;
      ctx, s := Locate(t.r, x, [f] + above);
    }
  }
}
