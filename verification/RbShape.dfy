/**
  Red-black trees as linked nodes: the links of all nodes as one value, the tree they spell out,
  and the place in the tree that an operation is working on.
 */
module RbShape {

  class RbNode {
    var left: RbNode?
    var right: RbNode?
    var parent: RbNode?
    var black: bool

    constructor ()
    {
      left, right, parent, black := null, null, null, false;
    }
  }

  // ---- trees and contexts ----

  datatype Tree = Leaf | Node(l: Tree, n: RbNode, black: bool, r: Tree)
  {
    function Root(): RbNode?
    {
      if Leaf? then null else n
    }

    predicate Red()
    {
      Node? && !black
    }

    ghost function Nodes(): set<RbNode>
    {
      if Leaf? then {} else l.Nodes() + {n} + r.Nodes()
    }

    ghost function InOrder(): seq<RbNode>
    {
      if Leaf? then [] else l.InOrder() + [n] + r.InOrder()
    }

    /** No node occurs twice. */
    ghost predicate Distinct()
    {
      Node? ==> l.Distinct() && r.Distinct() && n !in l.Nodes() && n !in r.Nodes() && l.Nodes() !! r.Nodes()
    }
  }

  /** One step on the way from the root: the node passed, and its other subtree. */
  datatype Frame =
    | InLeft(n: RbNode, black: bool, other: Tree)
    | InRight(n: RbNode, black: bool, other: Tree)
  {
    function Fill(t: Tree): Tree
    {
      if InLeft? then Node(t, n, black, other) else Node(other, n, black, t)
    }
  }

  /** The way from a subtree up to the root, nearest step first. */
  type Ctx = seq<Frame>

  function Plug(ctx: Ctx, t: Tree): Tree
  {
    if ctx == [] then t else Plug(ctx[1..], ctx[0].Fill(t))
  }

  function Parent(ctx: Ctx): RbNode?
  {
    if ctx == [] then null else ctx[0].n
  }

  ghost function CtxNodes(ctx: Ctx): set<RbNode>
  {
    if ctx == [] then {} else {ctx[0].n} + ctx[0].other.Nodes() + CtxNodes(ctx[1..])
  }

  ghost predicate CtxDistinct(ctx: Ctx)
  {
    ctx != [] ==>
      && ctx[0].other.Distinct() && ctx[0].n !in ctx[0].other.Nodes()
      && ctx[0].n !in CtxNodes(ctx[1..]) && ctx[0].other.Nodes() !! CtxNodes(ctx[1..])
      && CtxDistinct(ctx[1..])
  }

  /** The nodes in order before and after the hole. */
  ghost function Before(ctx: Ctx): seq<RbNode>
  {
    if ctx == [] then []
    else if ctx[0].InLeft? then Before(ctx[1..])
    else Before(ctx[1..]) + ctx[0].other.InOrder() + [ctx[0].n]
  }

  ghost function After(ctx: Ctx): seq<RbNode>
  {
    if ctx == [] then []
    else if ctx[0].InLeft? then [ctx[0].n] + ctx[0].other.InOrder() + After(ctx[1..])
    else After(ctx[1..])
  }

  lemma {:induction false} PlugInOrder(ctx: Ctx, t: Tree)
    ensures Plug(ctx, t).InOrder() == Before(ctx) + t.InOrder() + After(ctx)
  {
    hide Tree.InOrder;
    if ctx != [] {
      var f, b, a := ctx[0], Before(ctx[1..]), After(ctx[1..]);
      PlugInOrder(ctx[1..], f.Fill(t));
      FillOrder(f, t);
      Around(b, t.InOrder(), f.n, f.other.InOrder(), a);
    }
  }

  lemma NodeOrder(l: Tree, n: RbNode, c: bool, r: Tree)
    ensures Node(l, n, c, r).InOrder() == l.InOrder() + [n] + r.InOrder()
  {}

  lemma FillOrder(f: Frame, t: Tree)
    ensures f.Fill(t).InOrder() == if f.InLeft? then t.InOrder() + [f.n] + f.other.InOrder()
            else f.other.InOrder() + [f.n] + t.InOrder()
  {
    hide Tree.InOrder;
    if f.InLeft? {
      NodeOrder(t, f.n, f.black, f.other);
    } else {
      NodeOrder(f.other, f.n, f.black, t);
    }
  }

  lemma Around(b: seq<RbNode>, s: seq<RbNode>, n: RbNode, o: seq<RbNode>, a: seq<RbNode>)
    ensures b + (s + [n] + o) + a == b + s + ([n] + o + a)
    ensures b + (o + [n] + s) + a == (b + o + [n]) + s + a
  {}

  // ---- the links of all nodes ----

  datatype Links = Links(left: RbNode?, right: RbNode?, parent: RbNode?, black: bool)

  datatype Mem = Mem(root: RbNode?, links: map<RbNode, Links>)
  {
    ghost function SetLeft(x: RbNode, v: RbNode?): Mem
      requires x in links
    {
      this.(links := links[x := links[x].(left := v)])
    }

    ghost function SetRight(x: RbNode, v: RbNode?): Mem
      requires x in links
    {
      this.(links := links[x := links[x].(right := v)])
    }

    ghost function SetParent(x: RbNode, v: RbNode?): Mem
      requires x in links
    {
      this.(links := links[x := links[x].(parent := v)])
    }

    ghost function SetBlack(x: RbNode, v: bool): Mem
      requires x in links
    {
      this.(links := links[x := links[x].(black := v)])
    }

    /** The links below p spell out t. */
    ghost predicate Spells(t: Tree, p: RbNode?)
    {
      t.Node? ==>
        t.n in links && links[t.n] == Links(t.l.Root(), t.r.Root(), p, t.black) && Spells(t.l, t.n) && Spells(t.r, t.n)
    }

    /** The links along ctx spell it out, with hole as the root of the subtree in its place. */
    ghost predicate SpellsCtx(ctx: Ctx, hole: RbNode?)
    {
      if ctx == [] then root == hole
      else
        var f := ctx[0];
        && f.n in links
        && links[f.n] == Links(if f.InLeft? then hole else f.other.Root(), if f.InLeft? then f.other.Root() else hole,
                               Parent(ctx[1..]), f.black)
        && Spells(f.other, f.n)
        && SpellsCtx(ctx[1..], f.n)
    }

    /** The memory holds Plug(ctx, t), nothing else, and no node twice. */
    ghost predicate Holds(ctx: Ctx, t: Tree)
    {
      && Spells(t, Parent(ctx)) && SpellsCtx(ctx, t.Root())
      && t.Distinct() && CtxDistinct(ctx) && t.Nodes() !! CtxNodes(ctx)
      && links.Keys == t.Nodes() + CtxNodes(ctx)
    }
  }

  // ---- frames ----

  ghost predicate SameOn(m: Mem, w: Mem, ns: set<RbNode>)
  {
    forall x <- ns :: (x in m.links <==> x in w.links) && (x in m.links ==> m.links[x] == w.links[x])
  }

  lemma {:induction false} SpellsFrame(m: Mem, w: Mem, t: Tree, p: RbNode?)
    requires m.Spells(t, p) && SameOn(m, w, t.Nodes())
    ensures w.Spells(t, p)
  {
    if t.Node? {
      SpellsFrame(m, w, t.l, t.n);
      SpellsFrame(m, w, t.r, t.n);
    }
  }

  /** Only the parent link of its root ties a subtree to its place. */
  lemma SpellsReparent(m: Mem, w: Mem, t: Tree, p: RbNode?, q: RbNode?)
    requires m.Spells(t, p) && t.Distinct() && t.Node?
    requires t.n in w.links && w.links[t.n] == m.links[t.n].(parent := q)
    requires SameOn(m, w, t.Nodes() - {t.n})
    ensures w.Spells(t, q)
  {
    SpellsFrame(m, w, t.l, t.n);
    SpellsFrame(m, w, t.r, t.n);
  }

  lemma {:induction false} SpellsCtxFrame(m: Mem, w: Mem, ctx: Ctx, hole: RbNode?)
    requires m.SpellsCtx(ctx, hole) && SameOn(m, w, CtxNodes(ctx)) && m.root == w.root
    ensures w.SpellsCtx(ctx, hole)
  {
    if ctx != [] {
      SpellsFrame(m, w, ctx[0].other, ctx[0].n);
      SpellsCtxFrame(m, w, ctx[1..], ctx[0].n);
    }
  }

  /** The memory after the place of a subtree is linked to another root. */
  ghost function Relinked(m: Mem, ctx: Ctx, hole: RbNode?): Mem
    requires ctx != [] ==> ctx[0].n in m.links
  {
    if ctx == [] then m.(root := hole)
    else if ctx[0].InLeft? then m.SetLeft(ctx[0].n, hole)
    else m.SetRight(ctx[0].n, hole)
  }

  lemma RelinkedSpells(m: Mem, ctx: Ctx, hole: RbNode?, other: RbNode?)
    requires m.SpellsCtx(ctx, hole) && CtxDistinct(ctx)
    ensures Relinked(m, ctx, other).SpellsCtx(ctx, other)
  {
    var w := Relinked(m, ctx, other);
    if ctx != [] {
      SpellsFrame(m, w, ctx[0].other, ctx[0].n);
      SpellsCtxFrame(m, w, ctx[1..], ctx[0].n);
    }
  }

  // ---- rotations ----

  /** x and y, the subtrees a, b, c around them and the context share no node. */
  ghost predicate Apart(ctx: Ctx, a: Tree, x: RbNode, b: Tree, y: RbNode, c: Tree)
  {
    && a.Distinct() && b.Distinct() && c.Distinct() && CtxDistinct(ctx)
    && x != y && {x, y} !! a.Nodes() && {x, y} !! b.Nodes() && {x, y} !! c.Nodes() && {x, y} !! CtxNodes(ctx)
    && a.Nodes() !! b.Nodes() && a.Nodes() !! c.Nodes() && b.Nodes() !! c.Nodes()
    && a.Nodes() !! CtxNodes(ctx) && b.Nodes() !! CtxNodes(ctx) && c.Nodes() !! CtxNodes(ctx)
  }

  /** The node below to the right. */
  function RightHeavy(a: Tree, x: RbNode, cx: bool, b: Tree, y: RbNode, cy: bool, c: Tree): Tree
  {
    Node(a, x, cx, Node(b, y, cy, c))
  }

  /** The node below to the left. */
  function LeftHeavy(a: Tree, x: RbNode, cx: bool, b: Tree, y: RbNode, cy: bool, c: Tree): Tree
  {
    Node(Node(a, x, cx, b), y, cy, c)
  }

  /** Both shapes list the same nodes in the same order. */
  lemma RotationOrder(a: Tree, x: RbNode, cx: bool, b: Tree, y: RbNode, cy: bool, c: Tree, cx': bool, cy': bool)
    ensures RightHeavy(a, x, cx, b, y, cy, c).InOrder() == LeftHeavy(a, x, cx', b, y, cy', c).InOrder()
  {
    var s, t := RightHeavy(a, x, cx, b, y, cy, c), LeftHeavy(a, x, cx', b, y, cy', c);
    assert s.r.InOrder() == b.InOrder() + [y] + c.InOrder();
    assert t.l.InOrder() == a.InOrder() + [x] + b.InOrder();
  }

  lemma NodeFacts(l: Tree, n: RbNode, cn: bool, r: Tree)
    ensures Node(l, n, cn, r).Nodes() == l.Nodes() + {n} + r.Nodes()
    ensures Node(l, n, cn, r).Distinct()
            <==> l.Distinct() && r.Distinct() && n !in l.Nodes() && n !in r.Nodes() && l.Nodes() !! r.Nodes()
  {}

  lemma NodeSpells(m: Mem, l: Tree, n: RbNode, cn: bool, r: Tree, p: RbNode?)
    ensures m.Spells(Node(l, n, cn, r), p)
            <==> n in m.links && m.links[n] == Links(l.Root(), r.Root(), p, cn) && m.Spells(l, n) && m.Spells(r, n)
  {}

  ghost predicate AllKeys(m: Mem, ctx: Ctx, a: Tree, x: RbNode, b: Tree, y: RbNode, c: Tree)
  {
    m.links.Keys == a.Nodes() + b.Nodes() + c.Nodes() + CtxNodes(ctx) + {x, y}
  }

  lemma RightHeavyHolds(m: Mem, ctx: Ctx, a: Tree, x: RbNode, cx: bool, b: Tree, y: RbNode, cy: bool, c: Tree)
    ensures m.Holds(ctx, RightHeavy(a, x, cx, b, y, cy, c))
            <==> && Apart(ctx, a, x, b, y, c) && AllKeys(m, ctx, a, x, b, y, c)
                 && x in m.links && m.links[x] == Links(a.Root(), y, Parent(ctx), cx)
                 && y in m.links && m.links[y] == Links(b.Root(), c.Root(), x, cy)
                 && m.Spells(a, x) && m.Spells(b, y) && m.Spells(c, y) && m.SpellsCtx(ctx, x)
  {
    hide Tree.Nodes, Tree.Distinct, Mem.Spells, Mem.SpellsCtx, CtxNodes, CtxDistinct;
    NodeFacts(b, y, cy, c);
    NodeFacts(a, x, cx, Node(b, y, cy, c));
    NodeSpells(m, b, y, cy, c, x);
    NodeSpells(m, a, x, cx, Node(b, y, cy, c), Parent(ctx));
  }

  lemma LeftHeavyHolds(m: Mem, ctx: Ctx, a: Tree, x: RbNode, cx: bool, b: Tree, y: RbNode, cy: bool, c: Tree)
    ensures m.Holds(ctx, LeftHeavy(a, x, cx, b, y, cy, c))
            <==> && Apart(ctx, a, x, b, y, c) && AllKeys(m, ctx, a, x, b, y, c)
                 && x in m.links && m.links[x] == Links(a.Root(), b.Root(), y, cx)
                 && y in m.links && m.links[y] == Links(x, c.Root(), Parent(ctx), cy)
                 && m.Spells(a, x) && m.Spells(b, x) && m.Spells(c, y) && m.SpellsCtx(ctx, y)
  {
    hide Tree.Nodes, Tree.Distinct, Mem.Spells, Mem.SpellsCtx, CtxNodes, CtxDistinct;
    NodeFacts(a, x, cx, b);
    NodeFacts(Node(a, x, cx, b), y, cy, c);
    NodeSpells(m, a, x, cx, b, y);
    NodeSpells(m, Node(a, x, cx, b), y, cy, c, Parent(ctx));
  }

  lemma RootInNodes(t: Tree)
    ensures t.Node? ==> t.n in t.Nodes()
  {}

  lemma ParentInNodes(ctx: Ctx)
    ensures ctx != [] ==> ctx[0].n in CtxNodes(ctx)
  {}

  /** A left rotation at x up to the point where y is hung up in the place of x. */
  ghost function LiftedRight(m: Mem, p: RbNode?, x: RbNode, y: RbNode, b: RbNode?): Mem
    requires x in m.links && y in m.links && (b != null ==> b in m.links)
  {
    var m1 := m.SetRight(x, b);
    var m2 := if b != null then m1.SetParent(b, x) else m1;
    m2.SetLeft(y, x).SetParent(y, p)
  }

  /** A right rotation at y up to the point where x is hung up in the place of y. */
  ghost function LiftedLeft(m: Mem, p: RbNode?, x: RbNode, y: RbNode, b: RbNode?): Mem
    requires x in m.links && y in m.links && (b != null ==> b in m.links)
  {
    var m1 := m.SetLeft(y, b);
    var m2 := if b != null then m1.SetParent(b, y) else m1;
    m2.SetRight(x, y).SetParent(x, p)
  }

  /** The links after __rb_rotate_left at x, which stands in ctx. */
  ghost function RotatedLeft(m: Mem, ctx: Ctx, x: RbNode, y: RbNode, b: Tree): Mem
    requires x in m.links && y in m.links && (b.Node? ==> b.n in m.links) && (ctx != [] ==> ctx[0].n in m.links)
  {
    Relinked(LiftedRight(m, Parent(ctx), x, y, b.Root()), ctx, y).SetParent(x, y)
  }

  /** The links after __rb_rotate_right at y, which stands in ctx. */
  ghost function RotatedRight(m: Mem, ctx: Ctx, x: RbNode, y: RbNode, b: Tree): Mem
    requires x in m.links && y in m.links && (b.Node? ==> b.n in m.links) && (ctx != [] ==> ctx[0].n in m.links)
  {
    Relinked(LiftedLeft(m, Parent(ctx), x, y, b.Root()), ctx, x).SetParent(y, x)
  }

  lemma RotatedLeftLinks(m: Mem, ctx: Ctx, a: Tree, x: RbNode, cx: bool, b: Tree, y: RbNode, cy: bool, c: Tree)
    requires Apart(ctx, a, x, b, y, c) && x in m.links && y in m.links
    requires (b.Node? ==> b.n in m.links) && (ctx != [] ==> ctx[0].n in m.links)
    requires m.links[x] == Links(a.Root(), y, Parent(ctx), cx) && m.links[y] == Links(b.Root(), c.Root(), x, cy)
    ensures var w := RotatedLeft(m, ctx, x, y, b);
            && w.links.Keys == m.links.Keys
            && w.links[x] == Links(a.Root(), b.Root(), y, cx) && w.links[y] == Links(x, c.Root(), Parent(ctx), cy)
            && (b.Node? ==> w.links[b.n] == m.links[b.n].(parent := x) && SameOn(m, w, b.Nodes() - {b.n}))
            && SameOn(m, w, a.Nodes()) && SameOn(m, w, c.Nodes())
            && w.root == Relinked(m, ctx, y).root && SameOn(Relinked(m, ctx, y), w, CtxNodes(ctx))
  {
    RootInNodes(b);
    ParentInNodes(ctx);
  }

  lemma RotatedRightLinks(m: Mem, ctx: Ctx, a: Tree, x: RbNode, cx: bool, b: Tree, y: RbNode, cy: bool, c: Tree)
    requires Apart(ctx, a, x, b, y, c) && x in m.links && y in m.links
    requires (b.Node? ==> b.n in m.links) && (ctx != [] ==> ctx[0].n in m.links)
    requires m.links[y] == Links(x, c.Root(), Parent(ctx), cy) && m.links[x] == Links(a.Root(), b.Root(), y, cx)
    ensures var w := RotatedRight(m, ctx, x, y, b);
            && w.links.Keys == m.links.Keys
            && w.links[y] == Links(b.Root(), c.Root(), x, cy) && w.links[x] == Links(a.Root(), y, Parent(ctx), cx)
            && (b.Node? ==> w.links[b.n] == m.links[b.n].(parent := y) && SameOn(m, w, b.Nodes() - {b.n}))
            && SameOn(m, w, a.Nodes()) && SameOn(m, w, c.Nodes())
            && w.root == Relinked(m, ctx, x).root && SameOn(Relinked(m, ctx, x), w, CtxNodes(ctx))
  {
    RootInNodes(b);
    ParentInNodes(ctx);
  }

  lemma LinkedRoots(m: Mem, ctx: Ctx, hole: RbNode?, b: Tree, p: RbNode?)
    requires m.SpellsCtx(ctx, hole) && m.Spells(b, p)
    ensures (b.Node? ==> b.n in m.links) && (ctx != [] ==> ctx[0].n in m.links)
  {}

  /** A left rotation turns the right-heavy shape into the left-heavy one and keeps everything around it. */
  lemma RotateLeftHolds(m: Mem, ctx: Ctx, a: Tree, x: RbNode, cx: bool, b: Tree, y: RbNode, cy: bool, c: Tree)
    requires m.Holds(ctx, RightHeavy(a, x, cx, b, y, cy, c))
    ensures x in m.links && y in m.links && (b.Node? ==> b.n in m.links) && (ctx != [] ==> ctx[0].n in m.links)
    ensures RotatedLeft(m, ctx, x, y, b).Holds(ctx, LeftHeavy(a, x, cx, b, y, cy, c))
  {
    hide RotatedLeft, Relinked, Mem.Holds, Mem.Spells, Mem.SpellsCtx, SameOn, Tree.Nodes, CtxNodes;
    RightHeavyHolds(m, ctx, a, x, cx, b, y, cy, c);
    LinkedRoots(m, ctx, x, b, y);
    RotatedLeftLinks(m, ctx, a, x, cx, b, y, cy, c);
    var w := RotatedLeft(m, ctx, x, y, b);
    SpellsFrame(m, w, a, x);
    SpellsFrame(m, w, c, y);
    SpellsMoved(m, w, b, y, x);
    RelinkedSpells(m, ctx, x, y);
    SpellsCtxFrame(Relinked(m, ctx, y), w, ctx, y);
    LeftHeavyHolds(w, ctx, a, x, cx, b, y, cy, c);
  }

  /** A right rotation turns the left-heavy shape into the right-heavy one and keeps everything around it. */
  lemma RotateRightHolds(m: Mem, ctx: Ctx, a: Tree, x: RbNode, cx: bool, b: Tree, y: RbNode, cy: bool, c: Tree)
    requires m.Holds(ctx, LeftHeavy(a, x, cx, b, y, cy, c))
    ensures x in m.links && y in m.links && (b.Node? ==> b.n in m.links) && (ctx != [] ==> ctx[0].n in m.links)
    ensures RotatedRight(m, ctx, x, y, b).Holds(ctx, RightHeavy(a, x, cx, b, y, cy, c))
  {
    hide RotatedRight, Relinked, Mem.Holds, Mem.Spells, Mem.SpellsCtx, SameOn, Tree.Nodes, CtxNodes;
    LeftHeavyHolds(m, ctx, a, x, cx, b, y, cy, c);
    LinkedRoots(m, ctx, y, b, x);
    RotatedRightLinks(m, ctx, a, x, cx, b, y, cy, c);
    var w := RotatedRight(m, ctx, x, y, b);
    SpellsFrame(m, w, a, x);
    SpellsFrame(m, w, c, y);
    SpellsMoved(m, w, b, x, y);
    RelinkedSpells(m, ctx, y, x);
    SpellsCtxFrame(Relinked(m, ctx, x), w, ctx, x);
    RightHeavyHolds(w, ctx, a, x, cx, b, y, cy, c);
  }

  lemma SpellsMoved(m: Mem, w: Mem, b: Tree, p: RbNode?, q: RbNode?)
    requires m.Spells(b, p) && b.Distinct()
    requires b.Node? ==> b.n in m.links && b.n in w.links && w.links[b.n] == m.links[b.n].(parent := q)
    requires b.Node? ==> SameOn(m, w, b.Nodes() - {b.n})
    ensures w.Spells(b, q)
  {
    if b.Node? {
      SpellsReparent(m, w, b, p, q);
    }
  }

  // ---- moving the focus, and colours ----

  /** The place of a subtree can be moved one step up, and back. */
  lemma MoveUp(m: Mem, ctx: Ctx, t: Tree)
    requires ctx != []
    ensures m.Holds(ctx, t) <==> m.Holds(ctx[1..], ctx[0].Fill(t))
    ensures Plug(ctx, t) == Plug(ctx[1..], ctx[0].Fill(t))
  {
    hide Tree.Nodes, Tree.Distinct, Mem.Spells;
    var f := ctx[0];
    if f.InLeft? {
      NodeFacts(t, f.n, f.black, f.other);
      NodeSpells(m, t, f.n, f.black, f.other, Parent(ctx[1..]));
    } else {
      NodeFacts(f.other, f.n, f.black, t);
      NodeSpells(m, f.other, f.n, f.black, t, Parent(ctx[1..]));
    }
  }

  lemma Recolor(m: Mem, ctx: Ctx, t: Tree, v: bool)
    requires m.Holds(ctx, t) && t.Node?
    ensures t.n in m.links && m.SetBlack(t.n, v).Holds(ctx, t.(black := v))
  {
    RootInNodes(t);
    var w := m.SetBlack(t.n, v);
    SpellsFrame(m, w, t.l, t.n);
    SpellsFrame(m, w, t.r, t.n);
    SpellsCtxFrame(m, w, ctx, t.n);
  }

  /** What the links of the focus, its parent and its grandparent say. */
  lemma CtxLinks(m: Mem, ctx: Ctx, t: Tree)
    requires m.Holds(ctx, t)
    ensures ctx == [] ==> m.root == t.Root()
    ensures t.Node? ==> t.n in m.links && m.links[t.n] == Links(t.l.Root(), t.r.Root(), Parent(ctx), t.black)
    ensures ctx != [] ==>
              ctx[0].n in m.links && m.links[ctx[0].n].parent == Parent(ctx[1..])
              && m.links[ctx[0].n].black == ctx[0].black
    ensures ctx != [] && ctx[0].InLeft?
            ==> m.links[ctx[0].n].left == t.Root() && m.links[ctx[0].n].right == ctx[0].other.Root()
    ensures ctx != [] && ctx[0].InRight?
            ==> m.links[ctx[0].n].right == t.Root() && m.links[ctx[0].n].left == ctx[0].other.Root()
    ensures ctx != [] && ctx[0].other.Node? ==>
              ctx[0].other.n in m.links && m.links[ctx[0].other.n]
              == Links(ctx[0].other.l.Root(), ctx[0].other.r.Root(), ctx[0].n, ctx[0].other.black)
  {}

  /** The subtree two steps up. */
  lemma MoveUpTwice(m: Mem, p: Frame, g: Frame, rest: Ctx, t: Tree)
    ensures m.Holds([p, g] + rest, t) <==> m.Holds(rest, g.Fill(p.Fill(t)))
    ensures m.Holds([p, g] + rest, t) <==> m.Holds([g] + rest, p.Fill(t))
    ensures Plug([p, g] + rest, t) == Plug(rest, g.Fill(p.Fill(t)))
  {
    hide Mem.Holds;
    assert ([p, g] + rest)[1..] == [g] + rest;
    assert ([g] + rest)[1..] == rest;
    MoveUp(m, [p, g] + rest, t);
    MoveUp(m, [g] + rest, p.Fill(t));
  }

  lemma PlugOrder(ctx: Ctx, s: Tree, t: Tree)
    requires s.InOrder() == t.InOrder()
    ensures Plug(ctx, s).InOrder() == Plug(ctx, t).InOrder()
  {
    PlugInOrder(ctx, s);
    PlugInOrder(ctx, t);
  }

  lemma RecolorLeft(m: Mem, ctx: Ctx, t: Tree, v: bool)
    requires m.Holds(ctx, t) && t.Node? && t.l.Node?
    ensures t.l.n in m.links && m.SetBlack(t.l.n, v).Holds(ctx, t.(l := t.l.(black := v)))
  {
    hide Mem.Holds;
    var down := [InLeft(t.n, t.black, t.r)] + ctx;
    assert down[1..] == ctx;
    MoveUp(m, down, t.l);
    Recolor(m, down, t.l, v);
    MoveUp(m.SetBlack(t.l.n, v), down, t.l.(black := v));
  }

  lemma RecolorRight(m: Mem, ctx: Ctx, t: Tree, v: bool)
    requires m.Holds(ctx, t) && t.Node? && t.r.Node?
    ensures t.r.n in m.links && m.SetBlack(t.r.n, v).Holds(ctx, t.(r := t.r.(black := v)))
  {
    hide Mem.Holds;
    var down := [InRight(t.n, t.black, t.l)] + ctx;
    assert down[1..] == ctx;
    MoveUp(m, down, t.r);
    Recolor(m, down, t.r, v);
    MoveUp(m.SetBlack(t.r.n, v), down, t.r.(black := v));
  }

  /** Which side of its parent a subtree hangs on can be told from the parent's left link. */
  lemma SideOfParent(m: Mem, ctx: Ctx, t: Tree)
    requires m.Holds(ctx, t) && ctx != [] && t.Node?
    ensures ctx[0].n in m.links && m.links[t.n].parent == ctx[0].n
    ensures m.links[ctx[0].n].left == t.n <==> ctx[0].InLeft?
    ensures m.links[ctx[0].n].right == t.n <==> ctx[0].InRight?
  {
    RootInNodes(t);
    RootInNodes(ctx[0].other);
  }
}
