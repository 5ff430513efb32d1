/** The red-black tree operations of rbtree.c on linked nodes. */
module RbTree {
  import opened RbShape
  import opened RbColour
  import opened RbSplice

  class RbRoot {
    var node: RbNode?
    /** Ghost: the links of all nodes of the tree, as one value. */
    ghost var mem: Mem

    constructor ()
      ensures Tied() && mem.Holds([], Leaf)
    {
      node, mem := null, Mem(null, map[]);
    }

    /** The heap agrees with mem. */
    ghost predicate Tied()
      reads this, mem.links.Keys
    {
      node == mem.root
      && forall x <- mem.links :: Links(x.left, x.right, x.parent, x.black) == mem.links[x]
    }

    lemma Look(x: RbNode)
      requires Tied() && x in mem.links
      ensures Links(x.left, x.right, x.parent, x.black) == mem.links[x]
    {}

    // ---- single assignments ----

    method SetLeft(x: RbNode, v: RbNode?)
      requires Tied() && x in mem.links
      modifies x`left, `mem
      ensures Tied() && mem == old(mem).SetLeft(x, v) && mem.links.Keys == old(mem).links.Keys
    {
      x.left := v;
      mem := mem.SetLeft(x, v);
    }

    method SetRight(x: RbNode, v: RbNode?)
      requires Tied() && x in mem.links
      modifies x`right, `mem
      ensures Tied() && mem == old(mem).SetRight(x, v) && mem.links.Keys == old(mem).links.Keys
    {
      x.right := v;
      mem := mem.SetRight(x, v);
    }

    method SetParent(x: RbNode, v: RbNode?)
      requires Tied() && x in mem.links
      modifies x`parent, `mem
      ensures Tied() && mem == old(mem).SetParent(x, v) && mem.links.Keys == old(mem).links.Keys
    {
      x.parent := v;
      mem := mem.SetParent(x, v);
    }

    method SetBlack(x: RbNode, v: bool)
      requires Tied() && x in mem.links
      modifies x`black, `mem
      ensures Tied() && mem == old(mem).SetBlack(x, v) && mem.links.Keys == old(mem).links.Keys
    {
      x.black := v;
      mem := mem.SetBlack(x, v);
    }

    /** Puts v in the place of x below its parent, or at the root. */
    method Relink(x: RbNode, parent: RbNode?, v: RbNode?, ghost ctx: Ctx)
      requires Tied() && parent == Parent(ctx) && (ctx != [] ==> ctx[0].n in mem.links)
      requires ctx != [] ==> (mem.links[ctx[0].n].left == x <==> ctx[0].InLeft?)
      modifies this, if parent == null then {} else {parent}
      ensures Tied() && mem == Relinked(old(mem), ctx, v) && mem.links.Keys == old(mem).links.Keys
    {
      if parent != null {
        if x == parent.left {
          SetLeft(parent, v);
        } else {
          SetRight(parent, v);
        }
      } else {
        node := v;
        mem := mem.(root := v);
      }
    }

    // ---- rotations ----

    method LiftRight(x: RbNode, right: RbNode, parent: RbNode?)
      requires Tied() && x in mem.links && right in mem.links && x != right
      requires right.left != null ==> right.left in mem.links && right.left != right
      modifies `mem, x, right, if right.left == null then {} else {right.left}
      ensures Tied() && mem == LiftedRight(old(mem), parent, x, right, old(right.left))
      ensures mem.links.Keys == old(mem).links.Keys
    {
      hide Tied;
      SetRight(x, right.left);
      if right.left != null {
        SetParent(right.left, x);
      }
      SetLeft(right, x);
      SetParent(right, parent);
    }

    method RotateLeft(x: RbNode, ghost ctx: Ctx, ghost a: Tree, ghost cx: bool, ghost b: Tree, ghost y: RbNode,
                      ghost cy: bool, ghost c: Tree)
      requires Tied() && mem.Holds(ctx, RightHeavy(a, x, cx, b, y, cy, c))
      modifies this, mem.links.Keys
      ensures Tied() && mem.links.Keys == old(mem).links.Keys && mem.Holds(ctx, LeftHeavy(a, x, cx, b, y, cy, c))
    {
      hide Tied, Mem.Holds, Mem.Spells, Mem.SpellsCtx, Apart, AllKeys, Relinked;
      RightHeavyHolds(mem, ctx, a, x, cx, b, y, cy, c);
      RotateLeftHolds(mem, ctx, a, x, cx, b, y, cy, c);
      SideKept(mem, ctx, a, x, cx, b, y, cy, c);
      Look(x);
      Look(y);
      var right := x.right;
      var parent := x.parent;
      LiftRight(x, right, parent);
      Relink(x, parent, right, ctx);
      SetParent(x, right);
    }

    method LiftLeft(y: RbNode, left: RbNode, parent: RbNode?)
      requires Tied() && y in mem.links && left in mem.links && y != left
      requires left.right != null ==> left.right in mem.links && left.right != left
      modifies `mem, y, left, if left.right == null then {} else {left.right}
      ensures Tied() && mem == LiftedLeft(old(mem), parent, left, y, old(left.right))
      ensures mem.links.Keys == old(mem).links.Keys
    {
      hide Tied;
      SetLeft(y, left.right);
      if left.right != null {
        SetParent(left.right, y);
      }
      SetRight(left, y);
      SetParent(left, parent);
    }

    method RotateRight(y: RbNode, ghost ctx: Ctx, ghost a: Tree, ghost x: RbNode, ghost cx: bool, ghost b: Tree,
                       ghost cy: bool, ghost c: Tree)
      requires Tied() && mem.Holds(ctx, LeftHeavy(a, x, cx, b, y, cy, c))
      modifies this, mem.links.Keys
      ensures Tied() && mem.links.Keys == old(mem).links.Keys && mem.Holds(ctx, RightHeavy(a, x, cx, b, y, cy, c))
    {
      hide Tied, Mem.Holds, Mem.Spells, Mem.SpellsCtx, Apart, AllKeys, Relinked;
      LeftHeavyHolds(mem, ctx, a, x, cx, b, y, cy, c);
      RotateRightHolds(mem, ctx, a, x, cx, b, y, cy, c);
      SideKeptRight(mem, ctx, a, x, cx, b, y, cy, c);
      Look(y);
      Look(x);
      var left := y.left;
      var parent := y.parent;
      LiftLeft(y, left, parent);
      Relink(y, parent, left, ctx);
      SetParent(y, left);
    }

    // ---- colours ----

    method Paint(x: RbNode, v: bool, ghost ctx: Ctx, ghost t: Tree)
      requires Tied() && mem.Holds(ctx, t) && t.Node? && t.n == x
      modifies `mem, x`black
      ensures Tied() && mem.links.Keys == old(mem).links.Keys && mem.Holds(ctx, t.(black := v))
      requires x in mem.links
    {
      hide Tied, Mem.Holds;
      Recolor(mem, ctx, t, v);
      SetBlack(x, v);
    }

    method PaintLeft(x: RbNode, v: bool, ghost ctx: Ctx, ghost t: Tree)
      requires Tied() && mem.Holds(ctx, t) && t.Node? && t.l.Node? && t.l.n == x && x in mem.links
      modifies `mem, x`black
      ensures Tied() && mem.links.Keys == old(mem).links.Keys && mem.Holds(ctx, t.(l := t.l.(black := v)))
    {
      hide Tied, Mem.Holds;
      RecolorLeft(mem, ctx, t, v);
      SetBlack(x, v);
    }

    method PaintRight(x: RbNode, v: bool, ghost ctx: Ctx, ghost t: Tree)
      requires Tied() && mem.Holds(ctx, t) && t.Node? && t.r.Node? && t.r.n == x && x in mem.links
      modifies `mem, x`black
      ensures Tied() && mem.links.Keys == old(mem).links.Keys && mem.Holds(ctx, t.(r := t.r.(black := v)))
    {
      hide Tied, Mem.Holds;
      RecolorRight(mem, ctx, t, v);
      SetBlack(x, v);
    }

    // ---- insertion ----

    /** Uncle and parent turn black, the grandparent red. */
    method FlipColours(g: RbNode, l: RbNode, r: RbNode, ghost rest: Ctx, ghost t: Tree)
      requires Tied() && mem.Holds(rest, t) && t.Node? && t.l.Node? && t.r.Node? && t.n == g && t.l.n == l && t.r.n == r
      requires g in mem.links && l in mem.links && r in mem.links
      modifies `mem, g`black, l`black, r`black
      ensures Tied() && mem.links.Keys == old(mem).links.Keys
      ensures mem.Holds(rest, Node(t.l.(black := true), g, false, t.r.(black := true)))
    {
      hide Tied, Mem.Holds;
      PaintRight(r, true, rest, t);
      ghost var t1 := t.(r := t.r.(black := true));
      PaintLeft(l, true, rest, t1);
      ghost var t2 := t1.(l := t1.l.(black := true));
      Paint(g, false, rest, t2);
    }

    /** The red left child of g turns black, g red, and the child is rotated up. */
    method RaiseLeft(parent: RbNode, g: RbNode, ghost rest: Ctx, ghost t: Tree, ghost s: Tree, ghost u: Tree)
      requires Tied() && mem.Holds(rest, LeftHeavy(t, parent, false, s, g, true, u)) && parent in mem.links
               && g in mem.links
      modifies this, mem.links.Keys
      ensures Tied() && mem.links.Keys == old(mem).links.Keys
      ensures mem.Holds(rest, RightHeavy(t, parent, true, s, g, false, u))
    {
      hide Tied, Mem.Holds;
      PaintLeft(parent, true, rest, LeftHeavy(t, parent, false, s, g, true, u));
      Paint(g, false, rest, LeftHeavy(t, parent, true, s, g, true, u));
      RotateRight(g, rest, t, parent, true, s, false, u);
    }

    /** The red right child of g turns black, g red, and the child is rotated up. */
    method RaiseRight(parent: RbNode, g: RbNode, ghost rest: Ctx, ghost u: Tree, ghost s: Tree, ghost t: Tree)
      requires Tied() && mem.Holds(rest, RightHeavy(u, g, true, s, parent, false, t)) && parent in mem.links
               && g in mem.links
      modifies this, mem.links.Keys
      ensures Tied() && mem.links.Keys == old(mem).links.Keys
      ensures mem.Holds(rest, LeftHeavy(u, g, false, s, parent, true, t))
    {
      hide Tied, Mem.Holds;
      PaintRight(parent, true, rest, RightHeavy(u, g, true, s, parent, false, t));
      Paint(g, false, rest, RightHeavy(u, g, true, s, parent, true, t));
      RotateLeft(g, rest, u, false, s, parent, true, t);
    }

    /** Black uncle: one or two rotations leave the red node below a black parent. */
    method FixLeft(node: RbNode, parent: RbNode, g: RbNode, ghost p: Frame, ghost f: Frame, ghost rest: Ctx,
                   ghost t: Tree, ghost h: nat)
        returns (next: RbNode, ghost ctx': Ctx, ghost t': Tree)
      requires Tied() && mem.Holds([p, f] + rest, t) && Rb(t, h) && CtxRb([p, f] + rest, h) && !f.other.Red()
      requires t.Node? && !t.black && t.n == node && p.n == parent && !p.black && f.n == g && f.InLeft? && f.black
      requires node in mem.links && parent in mem.links && g in mem.links
      modifies this, mem.links.Keys
      ensures Tied() && mem.links.Keys == old(mem).links.Keys && mem.Holds(ctx', t') && |ctx'| == |rest| + 1
      ensures t'.Node? && !t'.black && t'.n == next && Rb(t', h) && CtxRb(ctx', h)
      ensures Plug(ctx', t').InOrder() == Plug([p, f] + rest, t).InOrder()
    {
      hide Tied, Mem.Holds, Plug;
      MoveUpTwice(mem, p, f, rest, t);
      SideOfParent(mem, [p, f] + rest, t);
      UncleBlack(p, f, rest, h);
      Look(parent);
      if parent.right == node {
        FixInnerLeft(rest, p, f, t);
        RotateLeft(parent, [f] + rest, p.other, false, t.l, node, false, t.r);
        t' := Node(p.other, parent, false, t.l);
        MoveUpOnce(mem, f, rest, LeftHeavy(p.other, parent, false, t.l, node, false, t.r));
        RaiseLeft(node, g, rest, t', t.r, f.other);
        ctx' := [InLeft(node, true, Node(t.r, g, false, f.other))] + rest;
        MoveUpOnce(mem, ctx'[0], rest, t');
        next := parent;
      } else {
        FixOuterLeft(rest, p, f, t);
        RaiseLeft(parent, g, rest, t, p.other, f.other);
        t' := t;
        ctx' := [InLeft(parent, true, Node(p.other, g, false, f.other))] + rest;
        MoveUpOnce(mem, ctx'[0], rest, t);
        next := node;
      }
      assert ctx'[1..] == rest;
    }

    /**
      One turn of rb_insert_color for a red parent that is a left child. The conflict moves up two
      levels, or a rotation gives the red node a black parent.
     */
    method InsertStepLeft(node: RbNode, parent: RbNode, g: RbNode, ghost p: Frame, ghost f: Frame, ghost rest: Ctx,
                          ghost t: Tree, ghost h: nat)
        returns (next: RbNode, ghost ctx': Ctx, ghost t': Tree, ghost h': nat)
      requires Tied() && mem.Holds([p, f] + rest, t) && Rb(t, h) && CtxRb([p, f] + rest, h)
      requires t.Node? && !t.black && t.n == node && p.n == parent && !p.black && f.n == g && f.InLeft? && f.black
      requires node in mem.links && parent in mem.links && g in mem.links
      modifies this, mem.links.Keys
      ensures Tied() && mem.links.Keys == old(mem).links.Keys && mem.Holds(ctx', t') && |ctx'| <= |rest| + 1
      ensures t'.Node? && !t'.black && t'.n == next && Rb(t', h') && CtxRb(ctx', h')
      ensures Plug(ctx', t').InOrder() == Plug([p, f] + rest, t).InOrder()
    {
      hide Tied, Mem.Holds, Plug;
      MoveUpTwice(mem, p, f, rest, t);
      CtxLinks(mem, [p, f] + rest, t);
      CtxLinks(mem, [f] + rest, p.Fill(t));
      Look(g);
      var uncle := g.right;
      if uncle != null {
        Look(uncle);
      }
      if uncle != null && !uncle.black {
        UncleRed(t, p, f, rest, h);
        FlipOrder(rest, p, f, t);
        FlipColours(g, parent, uncle, rest, f.Fill(p.Fill(t)));
        next, ctx', h' := g, rest, h + 1;
        t' := f.(black := false, other := f.other.(black := true)).Fill(p.(black := true).Fill(t));
      } else {
        next, ctx', t' := FixLeft(node, parent, g, p, f, rest, t, h);
        h' := h;
      }
    }

    method FixRight(node: RbNode, parent: RbNode, g: RbNode, ghost p: Frame, ghost f: Frame, ghost rest: Ctx,
                    ghost t: Tree, ghost h: nat)
        returns (next: RbNode, ghost ctx': Ctx, ghost t': Tree)
      requires Tied() && mem.Holds([p, f] + rest, t) && Rb(t, h) && CtxRb([p, f] + rest, h) && !f.other.Red()
      requires t.Node? && !t.black && t.n == node && p.n == parent && !p.black && f.n == g && f.InRight? && f.black
      requires node in mem.links && parent in mem.links && g in mem.links
      modifies this, mem.links.Keys
      ensures Tied() && mem.links.Keys == old(mem).links.Keys && mem.Holds(ctx', t') && |ctx'| == |rest| + 1
      ensures t'.Node? && !t'.black && t'.n == next && Rb(t', h) && CtxRb(ctx', h)
      ensures Plug(ctx', t').InOrder() == Plug([p, f] + rest, t).InOrder()
    {
      hide Tied, Mem.Holds, Plug;
      MoveUpTwice(mem, p, f, rest, t);
      SideOfParent(mem, [p, f] + rest, t);
      UncleBlack(p, f, rest, h);
      Look(parent);
      if parent.left == node {
        FixInnerRight(rest, p, f, t);
        RotateRight(parent, [f] + rest, t.l, node, false, t.r, false, p.other);
        t' := Node(t.r, parent, false, p.other);
        MoveUpOnce(mem, f, rest, RightHeavy(t.l, node, false, t.r, parent, false, p.other));
        RaiseRight(node, g, rest, f.other, t.l, t');
        ctx' := [InRight(node, true, Node(f.other, g, false, t.l))] + rest;
        MoveUpOnce(mem, ctx'[0], rest, t');
        next := parent;
      } else {
        FixOuterRight(rest, p, f, t);
        RaiseRight(parent, g, rest, f.other, p.other, t);
        t' := t;
        ctx' := [InRight(parent, true, Node(f.other, g, false, p.other))] + rest;
        MoveUpOnce(mem, ctx'[0], rest, t);
        next := node;
      }
      assert ctx'[1..] == rest;
    }

    /** The same turn for a red parent that is a right child. */
    method InsertStepRight(node: RbNode, parent: RbNode, g: RbNode, ghost p: Frame, ghost f: Frame, ghost rest: Ctx,
                           ghost t: Tree, ghost h: nat)
        returns (next: RbNode, ghost ctx': Ctx, ghost t': Tree, ghost h': nat)
      requires Tied() && mem.Holds([p, f] + rest, t) && Rb(t, h) && CtxRb([p, f] + rest, h)
      requires t.Node? && !t.black && t.n == node && p.n == parent && !p.black && f.n == g && f.InRight? && f.black
      requires node in mem.links && parent in mem.links && g in mem.links
      modifies this, mem.links.Keys
      ensures Tied() && mem.links.Keys == old(mem).links.Keys && mem.Holds(ctx', t') && |ctx'| <= |rest| + 1
      ensures t'.Node? && !t'.black && t'.n == next && Rb(t', h') && CtxRb(ctx', h')
      ensures Plug(ctx', t').InOrder() == Plug([p, f] + rest, t).InOrder()
    {
      hide Tied, Mem.Holds, Plug;
      MoveUpTwice(mem, p, f, rest, t);
      CtxLinks(mem, [p, f] + rest, t);
      CtxLinks(mem, [f] + rest, p.Fill(t));
      Look(g);
      var uncle := g.left;
      if uncle != null {
        Look(uncle);
      }
      if uncle != null && !uncle.black {
        UncleRed(t, p, f, rest, h);
        FlipOrder(rest, p, f, t);
        FlipColours(g, uncle, parent, rest, f.Fill(p.Fill(t)));
        next, ctx', h' := g, rest, h + 1;
        t' := f.(black := false, other := f.other.(black := true)).Fill(p.(black := true).Fill(t));
      } else {
        next, ctx', t' := FixRight(node, parent, g, p, f, rest, t, h);
        h' := h;
      }
    }

    method InsertStep(n: RbNode, ghost ctx: Ctx, ghost t: Tree, ghost h: nat)
        returns (next: RbNode, ghost ctx': Ctx, ghost t': Tree, ghost h': nat)
      requires Tied() && mem.Holds(ctx, t) && Rb(t, h) && CtxRb(ctx, h)
      requires t.Node? && !t.black && t.n == n && ctx != [] && !ctx[0].black
      modifies this, mem.links.Keys
      ensures Tied() && mem.links.Keys == old(mem).links.Keys && mem.Holds(ctx', t') && |ctx'| < |ctx|
      ensures t'.Node? && !t'.black && t'.n == next && Rb(t', h') && CtxRb(ctx', h')
      ensures Plug(ctx', t').InOrder() == Plug(ctx, t).InOrder()
    {
      hide Tied, Mem.Holds, Plug;
      ghost var p, f, rest := ctx[0], ctx[1], ctx[2..];
      assert ctx == [p, f] + rest;
      MoveUpTwice(mem, p, f, rest, t);
      CtxLinks(mem, ctx, t);
      assert ctx[1..] == [f] + rest;
      SideOfParent(mem, [f] + rest, p.Fill(t));
      CtxLinks(mem, [f] + rest, p.Fill(t));
      Look(n);
      var parent := n.parent;
      Look(parent);
      var g := parent.parent;
      Look(g);
      if parent == g.left {
        next, ctx', t', h' := InsertStepLeft(n, parent, g, p, f, rest, t, h);
      } else {
        next, ctx', t', h' := InsertStepRight(n, parent, g, p, f, rest, t, h);
      }
    }

    /** At the end the root turns black; below a black parent the tree is already in order. */
    method BlackenRoot(n: RbNode, ghost ctx: Ctx, ghost t: Tree, ghost h: nat) returns (ghost tree: Tree)
      requires Tied() && mem.Holds(ctx, t) && Rb(t, h) && CtxRb(ctx, h)
      requires t.Node? && !t.black && (ctx != [] ==> ctx[0].black)
      modifies this, mem.links.Keys
      ensures Tied() && mem.links.Keys == old(mem).links.Keys && mem.Holds([], tree) && RedBlack(tree)
      ensures tree.InOrder() == Plug(ctx, t).InOrder()
    {
      hide Tied, Mem.Holds;
      ghost var whole := Plug(ctx, t);
      MoveToRoot(mem, ctx, t);
      if ctx != [] {
        PlugRedBlack(ctx, t, h);
      }
      CtxLinks(mem, [], whole);
      RootIs();
      tree := whole.(black := true);
      BlackRootRedBlack(ctx, t, h);
      Paint(node, true, [], whole);
    }

    lemma RootIs()
      requires Tied()
      ensures node == mem.root
    {}

    /**
      rb_insert_color: from a tree that follows the rules except that the red node may hang below a
      red parent, to a tree that follows them, with the same nodes in the same order.
     */
    method InsertColor(first: RbNode, ghost ctx0: Ctx, ghost t0: Tree, ghost h0: nat) returns (ghost tree: Tree)
      requires Tied() && mem.Holds(ctx0, t0) && Rb(t0, h0) && CtxRb(ctx0, h0) && t0.Node? && !t0.black && t0.n == first
      modifies this, mem.links.Keys
      ensures Tied() && mem.links.Keys == old(mem).links.Keys && mem.Holds([], tree) && RedBlack(tree)
      ensures tree.InOrder() == Plug(ctx0, t0).InOrder()
    {
      hide Tied, Mem.Holds, Plug;
      var n := first;
      ghost var ctx, t, h := ctx0, t0, h0;
      CtxLinks(mem, ctx, t);
      Look(n);
      if n.parent != null {
        Look(n.parent);
      }
      while n.parent != null && !n.parent.black
        invariant Tied() && mem.links.Keys == old(mem).links.Keys && mem.Holds(ctx, t)
        invariant t.Node? && !t.black && t.n == n && Rb(t, h) && CtxRb(ctx, h)
        invariant Plug(ctx, t).InOrder() == Plug(ctx0, t0).InOrder()
        invariant n in mem.links && n.parent == Parent(ctx)
        invariant ctx != [] ==> ctx[0].n in mem.links && ctx[0].n.black == ctx[0].black
        decreases |ctx|
      {
        n, ctx, t, h := InsertStep(n, ctx, t, h);
        CtxLinks(mem, ctx, t);
        Look(n);
        if n.parent != null {
          Look(n.parent);
        }
      }
      tree := BlackenRoot(n, ctx, t, h);
    }

    // ---- removal: __rb_erase_color ----

    /** The last rotation of a repair on the left: the sibling takes over the parent's place and colour. */
    method FinishLeft(parent: RbNode, other: RbNode, outer: RbNode, ghost rest: Ctx,
                      ghost a: Tree, ghost cp: bool, ghost b: Tree, ghost co: bool, ghost d: Tree)
      requires Tied() && mem.Holds(rest, RightHeavy(a, parent, cp, b, other, co, d)) && d.Node? && d.n == outer
      requires parent in mem.links && other in mem.links && outer in mem.links && parent.black == cp
      modifies this, mem.links.Keys
      ensures Tied() && mem.links.Keys == old(mem).links.Keys
      ensures mem.Holds(rest, LeftHeavy(a, parent, true, b, other, cp, d.(black := true)))
    {
      hide Tied, Mem.Holds;
      PaintRight(other, parent.black, rest, RightHeavy(a, parent, cp, b, other, co, d));
      Paint(parent, true, rest, RightHeavy(a, parent, cp, b, other, cp, d));
      MoveUpOnce(mem, InRight(parent, true, a), rest, Node(b, other, cp, d));
      PaintRight(outer, true, [InRight(parent, true, a)] + rest, Node(b, other, cp, d));
      MoveUpOnce(mem, InRight(parent, true, a), rest, Node(b, other, cp, d.(black := true)));
      RotateLeft(parent, rest, a, true, b, other, cp, d.(black := true));
    }

    method FinishRight(parent: RbNode, other: RbNode, outer: RbNode, ghost rest: Ctx,
                       ghost d: Tree, ghost co: bool, ghost b: Tree, ghost cp: bool, ghost a: Tree)
      requires Tied() && mem.Holds(rest, LeftHeavy(d, other, co, b, parent, cp, a)) && d.Node? && d.n == outer
      requires parent in mem.links && other in mem.links && outer in mem.links && parent.black == cp
      modifies this, mem.links.Keys
      ensures Tied() && mem.links.Keys == old(mem).links.Keys
      ensures mem.Holds(rest, RightHeavy(d.(black := true), other, cp, b, parent, true, a))
    {
      hide Tied, Mem.Holds;
      PaintLeft(other, parent.black, rest, LeftHeavy(d, other, co, b, parent, cp, a));
      Paint(parent, true, rest, LeftHeavy(d, other, cp, b, parent, cp, a));
      MoveUpOnce(mem, InLeft(parent, true, a), rest, Node(d, other, cp, b));
      PaintLeft(outer, true, [InLeft(parent, true, a)] + rest, Node(d, other, cp, b));
      MoveUpOnce(mem, InLeft(parent, true, a), rest, Node(d.(black := true), other, cp, b));
      RotateRight(parent, rest, d.(black := true), other, cp, b, true, a);
    }

    /** The outer nephew is red: finish the repair. */
    method FinishRepairLeft(parent: RbNode, other: RbNode, ghost cp: bool, ghost rest: Ctx, ghost t: Tree,
                            ghost s: Tree, ghost h: nat)
        returns (ghost tree: Tree)
      requires Tied() && mem.Holds(rest, Node(t, parent, cp, s)) && s.Node? && s.n == other && s.r.Red()
      requires Rb(t, h) && Rb(s.l, h) && Rb(s.r, h) && CtxRb(rest, if cp then h + 2 else h + 1)
      requires !cp ==> rest != [] && rest[0].black
      modifies this, mem.links.Keys
      ensures Tied() && mem.links.Keys == old(mem).links.Keys && mem.Holds([], tree) && RedBlack(tree)
      ensures tree.InOrder() == Plug(rest, Node(t, parent, cp, s)).InOrder()
    {
      hide Tied, Mem.Holds, Plug, Rb, CtxRb;
      ghost var r := LeftHeavy(t, parent, true, s.l, other, cp, s.r.(black := true));
      CtxLinks(mem, rest, Node(t, parent, cp, s));
      MoveUpOnce(mem, InRight(parent, cp, t), rest, s);
      CtxLinks(mem, [InRight(parent, cp, t)] + rest, s);
      OuterLinks(mem, [InRight(parent, cp, t)] + rest, s);
      Look(parent);
      Look(other);
      var outer := other.right;
      FinishLeft(parent, other, outer, rest, t, cp, s.l, s.black, s.r);
      RepairedSubtree(t, parent, s.l, other, cp, s.r, h);
      PlugRedBlack(rest, r, if cp then h + 2 else h + 1);
      MoveToRoot(mem, rest, r);
      FinishLeftOrder(rest, t, parent, cp, s);
      tree := Plug(rest, r);
    }

    /** Black sibling with a red child: one or two rotations make up for the missing black node. */
    method RepairLeft(parent: RbNode, ghost f: Frame, ghost rest: Ctx, ghost t: Tree,
                      ghost h: nat) returns (ghost tree: Tree)
      requires Tied() && mem.Holds([f] + rest, t) && f.InLeft? && f.n == parent && Short(t, h) && !t.Red()
               && CtxRb([f] + rest, h + 1)
      requires f.other.Node? && f.other.black && (f.other.l.Red() || f.other.r.Red())
      modifies this, mem.links.Keys
      ensures Tied() && mem.links.Keys == old(mem).links.Keys && mem.Holds([], tree) && RedBlack(tree)
      ensures tree.InOrder() == Plug([f] + rest, t).InOrder()
    {
      hide Tied, Mem.Holds, Plug, CtxRb;
      Sibling(f, rest, t, h);
      CtxLinks(mem, [f] + rest, t);
      MoveUpOnce(mem, f, rest, t);
      PlugOnce(f, rest, t);
      Look(parent);
      var other := parent.right;
      ghost var s := f.other;
      Look(other);
      SiblingLinks(mem, f, rest, t);
      if other.right != null {
        Look(other.right);
      }
      if other.right == null || other.right.black {
        var near := other.left;
        MoveUpOnce(mem, InRight(parent, f.black, t), rest, s);
        RaiseLeft(near, other, [InRight(parent, f.black, t)] + rest, s.l.l, s.l.r, s.r);
        s := RightHeavy(s.l.l, near, true, s.l.r, other, false, s.r);
        MoveUpOnce(mem, InRight(parent, f.black, t), rest, s);
        NearOrderLeft(rest, t, parent, f.black, f.other, near);
        other := near;
      }
      tree := FinishRepairLeft(parent, other, f.black, rest, t, s, h);
    }

    method FinishRepairRight(parent: RbNode, other: RbNode, ghost cp: bool, ghost rest: Ctx, ghost t: Tree,
                             ghost s: Tree, ghost h: nat)
        returns (ghost tree: Tree)
      requires Tied() && mem.Holds(rest, Node(s, parent, cp, t)) && s.Node? && s.n == other && s.l.Red()
      requires Rb(t, h) && Rb(s.l, h) && Rb(s.r, h) && CtxRb(rest, if cp then h + 2 else h + 1)
      requires !cp ==> rest != [] && rest[0].black
      modifies this, mem.links.Keys
      ensures Tied() && mem.links.Keys == old(mem).links.Keys && mem.Holds([], tree) && RedBlack(tree)
      ensures tree.InOrder() == Plug(rest, Node(s, parent, cp, t)).InOrder()
    {
      hide Tied, Mem.Holds, Plug, Rb, CtxRb;
      ghost var r := RightHeavy(s.l.(black := true), other, cp, s.r, parent, true, t);
      CtxLinks(mem, rest, Node(s, parent, cp, t));
      MoveUpOnce(mem, InLeft(parent, cp, t), rest, s);
      CtxLinks(mem, [InLeft(parent, cp, t)] + rest, s);
      OuterLinks(mem, [InLeft(parent, cp, t)] + rest, s);
      Look(parent);
      Look(other);
      var outer := other.left;
      FinishRight(parent, other, outer, rest, s.l, s.black, s.r, cp, t);
      RepairedSubtree(t, parent, s.r, other, cp, s.l, h);
      PlugRedBlack(rest, r, if cp then h + 2 else h + 1);
      MoveToRoot(mem, rest, r);
      FinishRightOrder(rest, t, parent, cp, s);
      tree := Plug(rest, r);
    }

    method RepairRight(parent: RbNode, ghost f: Frame, ghost rest: Ctx, ghost t: Tree,
                       ghost h: nat) returns (ghost tree: Tree)
      requires Tied() && mem.Holds([f] + rest, t) && f.InRight? && f.n == parent && Short(t, h) && !t.Red()
               && CtxRb([f] + rest, h + 1)
      requires f.other.Node? && f.other.black && (f.other.l.Red() || f.other.r.Red())
      modifies this, mem.links.Keys
      ensures Tied() && mem.links.Keys == old(mem).links.Keys && mem.Holds([], tree) && RedBlack(tree)
      ensures tree.InOrder() == Plug([f] + rest, t).InOrder()
    {
      hide Tied, Mem.Holds, Plug, CtxRb;
      Sibling(f, rest, t, h);
      CtxLinks(mem, [f] + rest, t);
      MoveUpOnce(mem, f, rest, t);
      PlugOnce(f, rest, t);
      Look(parent);
      var other := parent.left;
      ghost var s := f.other;
      Look(other);
      SiblingLinks(mem, f, rest, t);
      if other.left != null {
        Look(other.left);
      }
      if other.left == null || other.left.black {
        var near := other.right;
        MoveUpOnce(mem, InLeft(parent, f.black, t), rest, s);
        RaiseRight(near, other, [InLeft(parent, f.black, t)] + rest, s.l, s.r.l, s.r.r);
        s := LeftHeavy(s.l, other, false, s.r.l, near, true, s.r.r);
        MoveUpOnce(mem, InLeft(parent, f.black, t), rest, s);
        NearOrderRight(rest, t, parent, f.black, f.other, near);
        other := near;
      }
      tree := FinishRepairRight(parent, other, f.black, rest, t, s, h);
    }

    /** Black sibling: with black children it turns red and the parent's subtree is the short one; otherwise repair. */
    method BlackSiblingLeft(parent: RbNode, ghost f: Frame, ghost rest: Ctx, ghost t: Tree, ghost h: nat)
        returns (done: bool, next: RbNode?, up: RbNode?, ghost ctx': Ctx, ghost t': Tree, ghost h': nat)
      requires Tied() && mem.Holds([f] + rest, t) && f.InLeft? && f.n == parent && Short(t, h) && !t.Red()
               && CtxRb([f] + rest, h + 1)
      requires f.other.Node? && f.other.black
      modifies this, mem.links.Keys
      ensures Tied() && mem.links.Keys == old(mem).links.Keys && mem.Holds(ctx', t') && next == t'.Root()
      ensures Short(t', h') && CtxRb(ctx', h' + 1) && Plug(ctx', t').InOrder() == Plug([f] + rest, t).InOrder()
      ensures if done then ctx' == [] else up == Parent(ctx') && ctx' == rest && (!f.black ==> t'.Red())
    {
      hide Tied, Mem.Holds, Plug, CtxRb, Rb, Short;
      CtxLinks(mem, [f] + rest, t);
      SiblingLinks(mem, f, rest, t);
      Look(parent);
      var other := parent.right;
      Look(other);
      var left, right := other.left, other.right;
      if left != null {
        Look(left);
      }
      if right != null {
        Look(right);
      }
      done := !((left == null || left.black) && (right == null || right.black));
      if !done {
        BlackNephews(f, rest, t, h);
        MoveUpOnce(mem, f, rest, t);
        PaintRight(other, false, rest, f.Fill(t));
        ctx', t', h' := rest, f.(other := f.other.(black := false)).Fill(t), if f.black then h + 1 else h;
        SiblingOrder(f, rest, t);
        CtxLinks(mem, rest, t');
        Look(parent);
        next, up := parent, parent.parent;
      } else {
        ctx', up := [], null;
        t' := RepairLeft(parent, f, rest, t, h);
        PlugNone(t');
        h' := WholeIsShort(t');
        CtxLinks(mem, [], t');
        RootIs();
        next := node;
      }
    }

    /**
      One turn of __rb_erase_color for a short subtree on the left. It ends the repair, moves the short
      subtree up, or leaves a red root that can make up for the missing black node.
     */
    method EraseStepLeft(parent: RbNode, ghost f: Frame, ghost rest: Ctx, ghost t: Tree, ghost h: nat)
        returns (done: bool, next: RbNode?, up: RbNode?, ghost ctx': Ctx, ghost t': Tree, ghost h': nat)
      requires Tied() && mem.Holds([f] + rest, t) && f.InLeft? && f.n == parent && Short(t, h) && !t.Red()
               && CtxRb([f] + rest, h + 1)
      modifies this, mem.links.Keys
      ensures Tied() && mem.links.Keys == old(mem).links.Keys && mem.Holds(ctx', t') && next == t'.Root()
      ensures Short(t', h') && CtxRb(ctx', h' + 1) && Plug(ctx', t').InOrder() == Plug([f] + rest, t).InOrder()
      ensures if done then ctx' == [] else up == Parent(ctx') && (t'.Red() || |ctx'| <= |rest|)
    {
      hide Tied, Mem.Holds, Plug, CtxRb, Rb, Short;
      Sibling(f, rest, t, h);
      CtxLinks(mem, [f] + rest, t);
      SiblingLinks(mem, f, rest, t);
      Look(parent);
      var other := parent.right;
      Look(other);
      if !other.black {
        ghost var near, far := f.other.l, f.other.r;
        ghost var g, s := InLeft(parent, false, near), InLeft(other, true, far);
        MoveUpOnce(mem, f, rest, t);
        RaiseRight(other, parent, rest, t, near, far);
        MoveUpTwice(mem, g, s, rest, t);
        RedSibling(parent, other, near, far, rest, h);
        RedSiblingOrder(rest, f, t);
        NoShortLeaf(near, h + 1);
        assert [g, s] + rest == [g] + ([s] + rest);
        done, next, up, ctx', t', h' := BlackSiblingLeft(parent, g, [s] + rest, t, h);
      } else {
        done, next, up, ctx', t', h' := BlackSiblingLeft(parent, f, rest, t, h);
      }
    }

    method BlackSiblingRight(parent: RbNode, ghost f: Frame, ghost rest: Ctx, ghost t: Tree, ghost h: nat)
        returns (done: bool, next: RbNode?, up: RbNode?, ghost ctx': Ctx, ghost t': Tree, ghost h': nat)
      requires Tied() && mem.Holds([f] + rest, t) && f.InRight? && f.n == parent && Short(t, h) && !t.Red()
               && CtxRb([f] + rest, h + 1)
      requires f.other.Node? && f.other.black
      modifies this, mem.links.Keys
      ensures Tied() && mem.links.Keys == old(mem).links.Keys && mem.Holds(ctx', t') && next == t'.Root()
      ensures Short(t', h') && CtxRb(ctx', h' + 1) && Plug(ctx', t').InOrder() == Plug([f] + rest, t).InOrder()
      ensures if done then ctx' == [] else up == Parent(ctx') && ctx' == rest && (!f.black ==> t'.Red())
    {
      hide Tied, Mem.Holds, Plug, CtxRb, Rb, Short;
      CtxLinks(mem, [f] + rest, t);
      SiblingLinks(mem, f, rest, t);
      Look(parent);
      var other := parent.left;
      Look(other);
      var left, right := other.left, other.right;
      if left != null {
        Look(left);
      }
      if right != null {
        Look(right);
      }
      done := !((left == null || left.black) && (right == null || right.black));
      if !done {
        BlackNephews(f, rest, t, h);
        MoveUpOnce(mem, f, rest, t);
        PaintLeft(other, false, rest, f.Fill(t));
        ctx', t', h' := rest, f.(other := f.other.(black := false)).Fill(t), if f.black then h + 1 else h;
        SiblingOrder(f, rest, t);
        CtxLinks(mem, rest, t');
        Look(parent);
        next, up := parent, parent.parent;
      } else {
        ctx', up := [], null;
        t' := RepairRight(parent, f, rest, t, h);
        PlugNone(t');
        h' := WholeIsShort(t');
        CtxLinks(mem, [], t');
        RootIs();
        next := node;
      }
    }

    method EraseStepRight(parent: RbNode, ghost f: Frame, ghost rest: Ctx, ghost t: Tree, ghost h: nat)
        returns (done: bool, next: RbNode?, up: RbNode?, ghost ctx': Ctx, ghost t': Tree, ghost h': nat)
      requires Tied() && mem.Holds([f] + rest, t) && f.InRight? && f.n == parent && Short(t, h) && !t.Red()
               && CtxRb([f] + rest, h + 1)
      modifies this, mem.links.Keys
      ensures Tied() && mem.links.Keys == old(mem).links.Keys && mem.Holds(ctx', t') && next == t'.Root()
      ensures Short(t', h') && CtxRb(ctx', h' + 1) && Plug(ctx', t').InOrder() == Plug([f] + rest, t).InOrder()
      ensures if done then ctx' == [] else up == Parent(ctx') && (t'.Red() || |ctx'| <= |rest|)
    {
      hide Tied, Mem.Holds, Plug, CtxRb, Rb, Short;
      Sibling(f, rest, t, h);
      CtxLinks(mem, [f] + rest, t);
      SiblingLinks(mem, f, rest, t);
      Look(parent);
      var other := parent.left;
      Look(other);
      if !other.black {
        ghost var near, far := f.other.r, f.other.l;
        ghost var g, s := InRight(parent, false, near), InRight(other, true, far);
        MoveUpOnce(mem, f, rest, t);
        RaiseLeft(other, parent, rest, far, near, t);
        MoveUpTwice(mem, g, s, rest, t);
        RedSibling(parent, other, near, far, rest, h);
        RedSiblingOrder(rest, f, t);
        NoShortLeaf(near, h + 1);
        assert [g, s] + rest == [g] + ([s] + rest);
        done, next, up, ctx', t', h' := BlackSiblingRight(parent, g, [s] + rest, t, h);
      } else {
        done, next, up, ctx', t', h' := BlackSiblingRight(parent, f, rest, t, h);
      }
    }

    /**
      __rb_erase_color: from a tree that follows the rules except that the subtree at node has one black
      node too few, to a tree that follows them, with the same nodes in the same order.
     */
    method EraseColor(node0: RbNode?, parent0: RbNode?, ghost ctx0: Ctx, ghost t0: Tree,
                      ghost h0: nat) returns (ghost tree: Tree)
      requires Tied() && mem.Holds(ctx0, t0) && Short(t0, h0) && CtxRb(ctx0, h0 + 1) && node0 == t0.Root()
               && parent0 == Parent(ctx0)
      modifies this, mem.links.Keys
      ensures Tied() && mem.links.Keys == old(mem).links.Keys && mem.Holds([], tree) && RedBlack(tree)
      ensures tree.InOrder() == Plug(ctx0, t0).InOrder()
    {
      hide Tied, Mem.Holds, Plug, Short, CtxRb, Rb;
      var n, parent := node0, parent0;
      ghost var ctx, t, h := ctx0, t0, h0;
      AtRoot(ctx, t);
      while (n == null || n.black) && n != node
        invariant Tied() && mem.links.Keys == old(mem).links.Keys && mem.Holds(ctx, t)
        invariant n == t.Root() && parent == Parent(ctx) && Short(t, h) && CtxRb(ctx, h + 1)
        invariant Plug(ctx, t).InOrder() == Plug(ctx0, t0).InOrder()
        invariant n != null ==> n in mem.links && n.black == t.black
        invariant n == node <==> ctx == []
        decreases if t.Red() then 0 else |ctx| + 1
      {
        ghost var f, rest := ctx[0], ctx[1..];
        assert ctx == [f] + rest;
        CtxLinks(mem, ctx, t);
        Sibling(f, rest, t, h);
        Look(parent);
        OnLeft(mem, f, rest, t);
        var done: bool;
        if parent.left == n {
          done, n, parent, ctx, t, h := EraseStepLeft(parent, f, rest, t, h);
        } else {
          done, n, parent, ctx, t, h := EraseStepRight(parent, f, rest, t, h);
        }
        AtRoot(ctx, t);
        if done {
          break;
        }
      }
      tree := PaintShort(n, ctx, t, h);
    }

    /** A short subtree with a red root, or a whole short tree, is mended by painting its root black. */
    method PaintShort(n: RbNode?, ghost ctx: Ctx, ghost t: Tree, ghost h: nat) returns (ghost tree: Tree)
      requires Tied() && mem.Holds(ctx, t) && Short(t, h) && CtxRb(ctx, h + 1) && n == t.Root()
               && (t.Red() || ctx == [])
      modifies this, mem.links.Keys
      ensures Tied() && mem.links.Keys == old(mem).links.Keys && mem.Holds([], tree) && RedBlack(tree)
      ensures tree.InOrder() == Plug(ctx, t).InOrder()
    {
      hide Tied, Mem.Holds, Plug, Short, CtxRb, Rb;
      ShortPainted(ctx, t, h);
      ghost var t' := if t.Node? then t.(black := true) else t;
      if n != null {
        CtxLinks(mem, ctx, t);
        Paint(n, true, ctx, t);
        PlugOrder(ctx, t', t);
      }
      MoveToRoot(mem, ctx, t');
      tree := Plug(ctx, t');
    }

    lemma AtRoot(ctx: Ctx, t: Tree)
      requires Tied() && mem.Holds(ctx, t)
      ensures t.Root() == node <==> ctx == []
      ensures t.Node? ==> t.n in mem.links && t.n.black == t.black
    {
      CtxLinks(mem, ctx, t);
      if ctx != [] {
        RootAbove(mem, ctx, t.Root());
      }
    }

    // ---- rb_link_node and insertion ----

    /** rb_link_node: hangs n into the open place ctx as a red leaf. */
    method LinkNode(n: RbNode, parent: RbNode?, link: Slot, ghost ctx: Ctx)
      requires Tied() && mem.Holds(ctx, Leaf) && n !in mem.links && parent == Parent(ctx) && link == SlotOf(ctx)
      modifies this, n, mem.links.Keys
      ensures Tied() && mem.links.Keys == old(mem).links.Keys + {n} && mem.Holds(ctx, Node(Leaf, n, false, Leaf))
    {
      hide Tied, Mem.Holds;
      LinkHolds(mem, ctx, n);
      SetLinks(n, parent);
      match link
      case AtRoot => SetRoot(n);
      case LeftOf(p) => SetLeft(p, n);
      case RightOf(p) => SetRight(p, n);
    }

    method SetLinks(n: RbNode, parent: RbNode?)
      requires Tied() && n !in mem.links
      modifies `mem, n
      ensures Tied() && mem == Added(old(mem), n, Links(null, null, parent, false))
    {
      n.parent, n.black, n.left, n.right := parent, false, null, null;
      mem := Added(mem, n, Links(null, null, parent, false));
    }

    method SetRoot(n: RbNode?)
      requires Tied()
      modifies `mem, `node
      ensures Tied() && mem == old(mem).(root := n)
    {
      node := n;
      mem := mem.(root := n);
    }

    /** rb_link_node followed by rb_insert_color. */
    method Insert(n: RbNode, parent: RbNode?, link: Slot, ghost ctx: Ctx) returns (ghost tree: Tree)
      requires Tied() && mem.Holds(ctx, Leaf) && RedBlack(Plug(ctx, Leaf)) && n !in mem.links
      requires parent == Parent(ctx) && link == SlotOf(ctx)
      modifies this, n, mem.links.Keys
      ensures Tied() && mem.links.Keys == old(mem).links.Keys + {n} && mem.Holds([], tree) && RedBlack(tree)
      ensures tree.InOrder() == Before(ctx) + [n] + After(ctx)
    {
      hide Tied, Mem.Holds, Plug;
      ghost var h := OpenRedBlack(ctx, Leaf);
      LinkNode(n, parent, link, ctx);
      PlugInOrder(ctx, Node(Leaf, n, false, Leaf));
      NodeOrder(Leaf, n, false, Leaf);
      assert Leaf.InOrder() == [];
      tree := InsertColor(n, ctx, Node(Leaf, n, false, Leaf), 0);
    }

    // ---- rb_erase ----

    /** Takes out n, which has at most one child, by linking the child to n's parent. */
    method Unlink(n: RbNode, parent: RbNode?, child: RbNode?, ghost ctx: Ctx, ghost l: Tree, ghost c: bool,
                  ghost r: Tree, ghost t: Tree)
      requires Tied() && mem.Holds(ctx, Node(l, n, c, r)) && if l.Leaf? then t == r else r.Leaf? && t == l
      requires child == t.Root() && parent == Parent(ctx)
      modifies this, mem.links.Keys
      ensures Tied() && mem.links.Keys == old(mem).links.Keys - {n} && mem.Holds(ctx, t)
    {
      hide Tied, Mem.Holds;
      SpliceHolds(mem, ctx, l, n, c, r, t);
      if ctx != [] {
        SideOfParent(mem, ctx, Node(l, n, c, r));
      }
      if child != null {
        SetParent(child, parent);
      }
      Relink(n, parent, child, ctx);
      Drop(n);
    }

    ghost method Drop(n: RbNode)
      requires Tied()
      modifies `mem
      ensures Tied() && mem == Dropped(old(mem), n)
    {
      mem := Dropped(mem, n);
    }

    /** The colour label of rb_erase: a missing black node calls for a repair. */
    method FinishErase(black: bool, child: RbNode?, parent: RbNode?, ghost ctx: Ctx, ghost t: Tree,
                       ghost h: nat) returns (ghost tree: Tree)
      requires Tied() && mem.Holds(ctx, t) && child == t.Root() && parent == Parent(ctx)
      requires CtxRb(ctx, h) && if black then h > 0 && Rb(t, h - 1) else Rb(t, h) && !t.Red()
      modifies this, mem.links.Keys
      ensures Tied() && mem.links.Keys == old(mem).links.Keys && mem.Holds([], tree) && RedBlack(tree)
      ensures tree.InOrder() == Plug(ctx, t).InOrder()
    {
      hide Tied, Mem.Holds, Plug, CtxRb, Rb, Short;
      if black {
        RbIsShort(t, h - 1);
        tree := EraseColor(child, parent, ctx, t, h - 1);
      } else {
        PlugRedBlack(ctx, t, h);
        MoveToRoot(mem, ctx, t);
        tree := Plug(ctx, t);
      }
    }

    /** rb_erase of a node with at most one child. */
    method EraseSingle(n: RbNode, child: RbNode?, ghost ctx: Ctx, ghost l: Tree, ghost c: bool, ghost r: Tree,
                       ghost t: Tree)
        returns (ghost tree: Tree)
      requires Tied() && mem.Holds(ctx, Node(l, n, c, r)) && RedBlack(Plug(ctx, Node(l, n, c, r)))
      requires child == t.Root() && if l.Leaf? then t == r else r.Leaf? && t == l
      modifies this, mem.links.Keys
      ensures Tied() && mem.links.Keys == old(mem).links.Keys - {n} && mem.Holds([], tree) && RedBlack(tree)
      ensures tree.InOrder() == Before(ctx) + t.InOrder() + After(ctx)
    {
      hide Tied, Mem.Holds, Plug, CtxRb, Rb, RedBlack;
      CtxLinks(mem, ctx, Node(l, n, c, r));
      Look(n);
      var parent, black := n.parent, n.black;
      ghost var h := OpenRedBlack(ctx, Node(l, n, c, r));
      OnlyChildFits(l, n, c, r, t, h);
      Unlink(n, parent, child, ctx, l, c, r, t);
      PlugInOrder(ctx, t);
      tree := FinishErase(black, child, parent, ctx, t, h);
    }

    /** The leftmost node of the right subtree. */
    method Successor(n: RbNode, ghost ctx: Ctx, ghost l: Tree, ghost c: bool, ghost r: Tree)
        returns (s: RbNode, ghost down: Ctx, ghost cs: bool, ghost sr: Tree)
      requires Tied() && mem.Holds(ctx, Node(l, n, c, r)) && r.Node?
      ensures s in mem.links && mem.Holds(down + ([InRight(n, c, l)] + ctx), Node(Leaf, s, cs, sr))
      ensures Plug(down, Node(Leaf, s, cs, sr)) == r && AllLeft(down)
    {
      hide Tied, Mem.Holds, Plug, AllLeft;
      ghost var up := [InRight(n, c, l)] + ctx;
      CtxLinks(mem, ctx, Node(l, n, c, r));
      Look(n);
      MoveUpOnce(mem, InRight(n, c, l), ctx, r);
      s := n.right;
      ghost var t := r;
      down := [];
      assert down + up == up;
      PlugNone(r);
      StraightDown();
      CtxLinks(mem, down + up, t);
      Look(s);
      while s.left != null
        invariant t.Node? && s == t.n && s in mem.links && s.left == t.l.Root()
        invariant mem.Holds(down + up, t) && Plug(down, t) == r && AllLeft(down)
        decreases t
      {
        DownLeft(mem, down, up, t);
        down := [InLeft(t.n, t.black, t.r)] + down;
        t := t.l;
        s := s.left;
        CtxLinks(mem, down + up, t);
        Look(s);
      }
      cs, sr := t.black, t.r;
    }

    /** s, which is not in the tree, takes over all links of n. */
    method TakePlace(n: RbNode, s: RbNode, ghost ctx: Ctx, ghost l: Tree, ghost c: bool, ghost r: Tree)
      requires Tied() && mem.Holds(ctx, Node(l, n, c, r)) && l.Node? && s !in mem.links
      modifies this, s, mem.links.Keys
      ensures Tied() && mem.links.Keys == old(mem).links.Keys - {n} + {s} && mem.Holds(ctx, Node(l, s, c, r))
    {
      hide Tied, Mem.Holds, Relinked, Mem.Spells, Mem.SpellsCtx, Tree.Distinct, CtxDistinct, Tree.Nodes, CtxNodes;
      ReplaceHolds(mem, ctx, l, n, c, r, s);
      CtxLinks(mem, ctx, Node(l, n, c, r));
      if ctx != [] {
        SideOfParent(mem, ctx, Node(l, n, c, r));
      }
      NodeHolds(mem, ctx, l, n, c, r);
      RootInNodes(l);
      RootInNodes(r);
      ParentInNodes(ctx);
      CopyLinks(n, s);
      Look(n);
      TakeLinks(n, s, ctx, l.n, r.Root());
    }

    method CopyLinks(n: RbNode, s: RbNode)
      requires Tied() && n in mem.links && s !in mem.links
      modifies `mem, s
      ensures Tied() && mem == Added(old(mem), s, old(mem).links[n])
    {
      s.parent, s.black := n.parent, n.black;
      s.right := n.right;
      s.left := n.left;
      mem := Added(mem, s, mem.links[n]);
    }

    method TakeLinks(n: RbNode, s: RbNode, ghost ctx: Ctx, ghost l: RbNode, ghost r: RbNode?)
      requires Tied() && n in mem.links && s in mem.links && n != s && n.left == l && n.right == r
               && n.parent == Parent(ctx)
      requires (ctx != [] ==>
                 ctx[0].n in mem.links && ctx[0].n != n && (mem.links[ctx[0].n].left == n <==> ctx[0].InLeft?))
      requires l in mem.links && l != n && (r != null ==> r in mem.links && r != n)
      modifies this, mem.links.Keys
      ensures Tied() && mem == Dropped(Reparented(Reparented(Relinked(old(mem), ctx, s), l, s), r, s), n)
      ensures mem.links.Keys == old(mem).links.Keys - {n}
    {
      hide Tied, Relinked;
      var left, right := n.left, n.right;
      Relink(n, n.parent, s, ctx);
      SetParent(left, s);
      if right != null {
        SetParent(right, s);
      }
      Drop(n);
    }

    /** rb_erase of a node with two children: its successor takes its place and colour. */
    method EraseDouble(n: RbNode, ghost ctx: Ctx, ghost l: Tree, ghost c: bool,
                       ghost r: Tree) returns (ghost tree: Tree)
      requires Tied() && mem.Holds(ctx, Node(l, n, c, r)) && RedBlack(Plug(ctx, Node(l, n, c, r))) && l.Node? && r.Node?
      modifies this, mem.links.Keys
      ensures Tied() && mem.links.Keys == old(mem).links.Keys - {n} && mem.Holds([], tree) && RedBlack(tree)
      ensures tree.InOrder() == Before(ctx) + l.InOrder() + r.InOrder() + After(ctx)
    {
      hide Tied, Mem.Holds, Plug, CtxRb, Rb, RedBlack;
      ghost var s, down, cs, sr;
      var node;
      node, down, cs, sr := Successor(n, ctx, l, c, r);
      s := Node(Leaf, node, cs, sr);
      ghost var above, above' := [InRight(n, c, l)] + ctx, [InRight(node, c, l)] + ctx;
      CtxLinks(mem, down + above, s);
      SuccessorParent(mem, down, above, s);
      Look(node);
      var child, parent, black := node.right, node.parent, node.black;
      ghost var h := SuccessorFits(ctx, l, n, c, r, down, node, cs, sr);
      parent := UnlinkSuccessor(n, node, parent, child, down, above, cs, sr);
      MoveUpDown(mem, down, InRight(n, c, l), ctx, sr);
      TakePlace(n, node, ctx, l, c, Plug(down, sr));
      MoveUpDown(mem, down, InRight(node, c, l), ctx, sr);
      SuccessorOrder(ctx, l, node, c, down, cs, sr);
      tree := FinishErase(black, child, parent, down + above', sr, h);
    }

    /** Takes the successor out; the result is the parent of its child once it has moved. */
    method UnlinkSuccessor(n: RbNode, s: RbNode, parent: RbNode?, child: RbNode?, ghost down: Ctx, ghost above: Ctx,
                           ghost cs: bool, ghost sr: Tree)
        returns (up: RbNode?)
      requires Tied() && mem.Holds(down + above, Node(Leaf, s, cs, sr)) && AllLeft(down) && above != []
               && above[0].InRight? && above[0].n == n
      requires parent == Parent(down + above) && child == sr.Root()
      modifies this, mem.links.Keys
      ensures Tied() && mem.links.Keys == old(mem).links.Keys - {s} && mem.Holds(down + above, sr)
      ensures up == if down == [] then s else down[0].n
    {
      hide Tied, Mem.Holds;
      SpliceHolds(mem, down + above, Leaf, s, cs, sr, sr);
      SuccessorParent(mem, down, above, Node(Leaf, s, cs, sr));
      up := parent;
      if child != null {
        SetParent(child, up);
      }
      if up == n {
        SetRight(up, child);
        up := s;
      } else {
        SetLeft(up, child);
      }
      Drop(s);
    }

    /** rb_erase: the tree loses exactly n and follows the rules again. */
    method Erase(n: RbNode, ghost ctx: Ctx, ghost l: Tree, ghost c: bool, ghost r: Tree) returns (ghost tree: Tree)
      requires Tied() && mem.Holds(ctx, Node(l, n, c, r)) && RedBlack(Plug(ctx, Node(l, n, c, r)))
      modifies this, mem.links.Keys
      ensures Tied() && mem.links.Keys == old(mem).links.Keys - {n} && mem.Holds([], tree) && RedBlack(tree)
      ensures tree.InOrder() == Before(ctx) + l.InOrder() + r.InOrder() + After(ctx)
    {
      hide Tied, Mem.Holds, Plug, RedBlack;
      CtxLinks(mem, ctx, Node(l, n, c, r));
      Look(n);
      OneChildOrder(l, r);
      if n.left == null {
        tree := EraseSingle(n, n.right, ctx, l, c, r, r);
      } else if n.right == null {
        tree := EraseSingle(n, n.left, ctx, l, c, r, l);
      } else {
        tree := EraseDouble(n, ctx, l, c, r);
      }
    }

    /** rb_first: the node that comes first in order, if there is one. */
    method First(ghost tree: Tree) returns (first: RbNode?)
      requires Tied() && mem.Holds([], tree)
      ensures tree.Leaf? <==> first == null
      ensures tree.Node? ==> |tree.InOrder()| > 0 && first == tree.InOrder()[0]
    {
      hide Tied, Mem.Holds;
      CtxLinks(mem, [], tree);
      RootIs();
      if node == null {
        return null;
      }
      var n: RbNode := node;
      Look(n);
      ghost var t, ctx: Ctx := tree, [];
      while n.left != null
        invariant mem.Holds(ctx, t) && t.Node? && n == t.n && n in mem.links && n.left == t.l.Root()
        invariant |t.InOrder()| > 0 && |tree.InOrder()| > 0 && t.InOrder()[0] == tree.InOrder()[0]
        decreases t
      {
        ghost var f := InLeft(t.n, t.black, t.r);
        MoveUpOnce(mem, f, ctx, t.l);
        ctx, t := [f] + ctx, t.l;
        n := n.left;
        CtxLinks(mem, ctx, t);
        Look(n);
        assert t.InOrder() == t.l.InOrder() + [t.n] + t.r.InOrder();
      }
      first := n;
    }
  }

  lemma SideKept(m: Mem, ctx: Ctx, a: Tree, x: RbNode, cx: bool, b: Tree, y: RbNode, cy: bool, c: Tree)
    requires m.Holds(ctx, RightHeavy(a, x, cx, b, y, cy, c))
    ensures ctx != [] ==> ctx[0].n in m.links && ctx[0].n !in {x, y} && (b.Node? ==> b.n != ctx[0].n)
    ensures ctx != [] ==> (m.links[ctx[0].n].left == x <==> ctx[0].InLeft?)
    ensures b.Node? ==> b.n !in {x, y}
  {
    RightHeavyHolds(m, ctx, a, x, cx, b, y, cy, c);
    RootInNodes(b);
    ParentInNodes(ctx);
    if ctx != [] {
      SideOfParent(m, ctx, RightHeavy(a, x, cx, b, y, cy, c));
    }
  }

  lemma SideKeptRight(m: Mem, ctx: Ctx, a: Tree, x: RbNode, cx: bool, b: Tree, y: RbNode, cy: bool, c: Tree)
    requires m.Holds(ctx, LeftHeavy(a, x, cx, b, y, cy, c))
    ensures ctx != [] ==> ctx[0].n in m.links && ctx[0].n !in {x, y} && (b.Node? ==> b.n != ctx[0].n)
    ensures ctx != [] ==> (m.links[ctx[0].n].left == y <==> ctx[0].InLeft?)
    ensures b.Node? ==> b.n !in {x, y}
  {
    LeftHeavyHolds(m, ctx, a, x, cx, b, y, cy, c);
    RootInNodes(b);
    ParentInNodes(ctx);
    if ctx != [] {
      SideOfParent(m, ctx, LeftHeavy(a, x, cx, b, y, cy, c));
    }
  }

  lemma FlipOrder(rest: Ctx, p: Frame, f: Frame, t: Tree)
    requires f.other.Node?
    ensures Plug(rest, f.(black := false, other := f.other.(black := true)).Fill(p.(black := true).Fill(t))).InOrder()
            == Plug([p, f] + rest, t).InOrder()
  {
    var s := f.(black := false, other := f.other.(black := true)).Fill(p.(black := true).Fill(t));
    assert p.(black := true).Fill(t).InOrder() == p.Fill(t).InOrder();
    assert f.other.(black := true).InOrder() == f.other.InOrder();
    PlugOrder(rest, f.Fill(p.Fill(t)), s);
    assert ([p, f] + rest)[1..] == [f] + rest && ([f] + rest)[1..] == rest;
  }

  lemma Reassociate(a: seq<RbNode>, x: RbNode, b: seq<RbNode>, y: RbNode, c: seq<RbNode>, z: RbNode, d: seq<RbNode>)
    ensures (a + [x] + (b + [y] + c)) + [z] + d == (a + [x] + b) + [y] + (c + [z] + d)
    ensures a + [x] + ((b + [y] + c) + [z] + d) == (a + [x] + b) + [y] + (c + [z] + d)
  {}

  lemma FixInnerLeft(rest: Ctx, p: Frame, f: Frame, t: Tree)
    requires p.InRight? && f.InLeft? && t.Node?
    ensures Plug([InLeft(t.n, true, Node(t.r, f.n, false, f.other))] + rest, Node(p.other, p.n, false, t.l)).InOrder()
            == Plug([p, f] + rest, t).InOrder()
  {
    hide Plug, Tree.InOrder;
    var a, b := Node(p.other, p.n, false, t.l), Node(t.r, f.n, false, f.other);
    PlugOnce(InLeft(t.n, true, b), rest, a);
    PlugTwice(p, f, rest, t);
    InnerLeftOrder(p.other, p.n, p.black, t.l, t.n, t.black, t.r, f.n, f.black, f.other);
    PlugOrder(rest, f.Fill(p.Fill(t)), Node(a, t.n, true, b));
  }

  lemma InnerLeftOrder(a: Tree, x: RbNode, cx: bool, b: Tree, y: RbNode, cy: bool, c: Tree, z: RbNode, cz: bool,
                       d: Tree)
    ensures Node(Node(a, x, cx, Node(b, y, cy, c)), z, cz, d).InOrder()
            == Node(Node(a, x, false, b), y, true, Node(c, z, false, d)).InOrder()
  {
    hide Tree.InOrder;
    NodeOrder(b, y, cy, c);
    NodeOrder(a, x, cx, Node(b, y, cy, c));
    NodeOrder(Node(a, x, cx, Node(b, y, cy, c)), z, cz, d);
    NodeOrder(a, x, false, b);
    NodeOrder(c, z, false, d);
    NodeOrder(Node(a, x, false, b), y, true, Node(c, z, false, d));
    Reassociate(a.InOrder(), x, b.InOrder(), y, c.InOrder(), z, d.InOrder());
  }

  lemma FixOuterLeft(rest: Ctx, p: Frame, f: Frame, t: Tree)
    requires p.InLeft? && f.InLeft?
    ensures Plug([InLeft(p.n, true, Node(p.other, f.n, false, f.other))] + rest, t).InOrder()
            == Plug([p, f] + rest, t).InOrder()
  {
    var b := Node(p.other, f.n, false, f.other);
    var s := Node(t, p.n, true, b);
    var ctx := [InLeft(p.n, true, b)] + rest;
    assert ctx[1..] == rest && ctx[0].Fill(t) == s;
    assert ([p, f] + rest)[1..] == [f] + rest && ([f] + rest)[1..] == rest;
    var g := f.Fill(p.Fill(t));
    assert p.Fill(t).InOrder() == t.InOrder() + [p.n] + p.other.InOrder();
    assert b.InOrder() == p.other.InOrder() + [f.n] + f.other.InOrder();
    assert s.InOrder() == g.InOrder();
    PlugOrder(rest, g, s);
  }

  lemma MoveUpOnce(m: Mem, f: Frame, rest: Ctx, t: Tree)
    ensures m.Holds([f] + rest, t) <==> m.Holds(rest, f.Fill(t))
  {
    assert ([f] + rest)[1..] == rest;
    MoveUp(m, [f] + rest, t);
  }

  lemma FixInnerRight(rest: Ctx, p: Frame, f: Frame, t: Tree)
    requires p.InLeft? && f.InRight? && t.Node?
    ensures Plug([InRight(t.n, true, Node(f.other, f.n, false, t.l))] + rest, Node(t.r, p.n, false, p.other)).InOrder()
            == Plug([p, f] + rest, t).InOrder()
  {
    hide Plug, Tree.InOrder;
    var a, b := Node(f.other, f.n, false, t.l), Node(t.r, p.n, false, p.other);
    PlugOnce(InRight(t.n, true, a), rest, b);
    PlugTwice(p, f, rest, t);
    InnerRightOrder(f.other, f.n, f.black, t.l, t.n, t.black, t.r, p.n, p.black, p.other);
    PlugOrder(rest, f.Fill(p.Fill(t)), Node(a, t.n, true, b));
  }

  lemma InnerRightOrder(a: Tree, x: RbNode, cx: bool, b: Tree, y: RbNode, cy: bool, c: Tree, z: RbNode, cz: bool,
                        d: Tree)
    ensures Node(a, x, cx, Node(Node(b, y, cy, c), z, cz, d)).InOrder()
            == Node(Node(a, x, false, b), y, true, Node(c, z, false, d)).InOrder()
  {
    hide Tree.InOrder;
    NodeOrder(b, y, cy, c);
    NodeOrder(Node(b, y, cy, c), z, cz, d);
    NodeOrder(a, x, cx, Node(Node(b, y, cy, c), z, cz, d));
    NodeOrder(a, x, false, b);
    NodeOrder(c, z, false, d);
    NodeOrder(Node(a, x, false, b), y, true, Node(c, z, false, d));
    Reassociate(a.InOrder(), x, b.InOrder(), y, c.InOrder(), z, d.InOrder());
  }

  lemma FixOuterRight(rest: Ctx, p: Frame, f: Frame, t: Tree)
    requires p.InRight? && f.InRight?
    ensures Plug([InRight(p.n, true, Node(f.other, f.n, false, p.other))] + rest, t).InOrder()
            == Plug([p, f] + rest, t).InOrder()
  {
    var b := Node(f.other, f.n, false, p.other);
    var s := Node(b, p.n, true, t);
    var ctx := [InRight(p.n, true, b)] + rest;
    assert ctx[1..] == rest && ctx[0].Fill(t) == s;
    assert ([p, f] + rest)[1..] == [f] + rest && ([f] + rest)[1..] == rest;
    var g := f.Fill(p.Fill(t));
    assert p.Fill(t).InOrder() == p.other.InOrder() + [p.n] + t.InOrder();
    assert b.InOrder() == f.other.InOrder() + [f.n] + p.other.InOrder();
    assert s.InOrder() == g.InOrder();
    PlugOrder(rest, g, s);
  }

  lemma {:induction false} MoveToRoot(m: Mem, ctx: Ctx, t: Tree)
    requires m.Holds(ctx, t)
    ensures m.Holds([], Plug(ctx, t)) && (t.Node? ==> Plug(ctx, t).Node?)
  {
    if ctx != [] {
      MoveUp(m, ctx, t);
      MoveToRoot(m, ctx[1..], ctx[0].Fill(t));
    }
  }

  lemma BlackRootRedBlack(ctx: Ctx, t: Tree, h: nat)
    requires CtxRb(ctx, h) && Rb(t, h) && t.Node? && !t.black && (ctx != [] ==> ctx[0].black) && Plug(ctx, t).Node?
    ensures RedBlack(Plug(ctx, t).(black := true))
  {
    if ctx == [] {
      assert Rb(t.(black := true), h + 1);
    } else {
      PlugRedBlack(ctx, t, h);
    }
  }

  /** The links of the sibling's children. */
  lemma SiblingLinks(m: Mem, f: Frame, rest: Ctx, t: Tree)
    requires m.Holds([f] + rest, t) && f.other.Node?
    ensures f.other.n in m.links
    ensures f.other.l.Node? ==> f.other.l.n in m.links && m.links[f.other.l.n].black == f.other.l.black
    ensures f.other.r.Node? ==> f.other.r.n in m.links && m.links[f.other.r.n].black == f.other.r.black
  {
    assert m.Spells(f.other, f.n);
    assert m.Spells(f.other.l, f.other.n) && m.Spells(f.other.r, f.other.n);
  }

  lemma OuterLinks(m: Mem, ctx: Ctx, s: Tree)
    requires m.Holds(ctx, s) && s.Node?
    ensures s.l.Node? ==> s.l.n in m.links && m.links[s.l.n].black == s.l.black
    ensures s.r.Node? ==> s.r.n in m.links && m.links[s.r.n].black == s.r.black
  {
    assert m.Spells(s.l, s.n) && m.Spells(s.r, s.n);
  }

  lemma PlugOnce(f: Frame, rest: Ctx, t: Tree)
    ensures Plug([f] + rest, t) == Plug(rest, f.Fill(t))
  {
    assert ([f] + rest)[1..] == rest;
  }

  lemma FinishLeftOrder(rest: Ctx, t: Tree, p: RbNode, cp: bool, s: Tree)
    requires s.Node? && s.r.Node?
    ensures Plug(rest, LeftHeavy(t, p, true, s.l, s.n, cp, s.r.(black := true))).InOrder()
            == Plug(rest, Node(t, p, cp, s)).InOrder()
  {
    var d := s.r.(black := true);
    RotationOrder(t, p, cp, s.l, s.n, s.black, s.r, true, cp);
    assert d.InOrder() == s.r.InOrder();
    NodeOrder(Node(t, p, true, s.l), s.n, cp, d);
    NodeOrder(Node(t, p, true, s.l), s.n, cp, s.r);
    PlugOrder(rest, LeftHeavy(t, p, true, s.l, s.n, cp, d), Node(t, p, cp, s));
  }

  lemma FinishRightOrder(rest: Ctx, t: Tree, p: RbNode, cp: bool, s: Tree)
    requires s.Node? && s.l.Node?
    ensures Plug(rest, RightHeavy(s.l.(black := true), s.n, cp, s.r, p, true, t)).InOrder()
            == Plug(rest, Node(s, p, cp, t)).InOrder()
  {
    var d := s.l.(black := true);
    RotationOrder(s.l, s.n, cp, s.r, p, true, t, s.black, cp);
    assert d.InOrder() == s.l.InOrder();
    NodeOrder(d, s.n, cp, Node(s.r, p, true, t));
    NodeOrder(s.l, s.n, cp, Node(s.r, p, true, t));
    PlugOrder(rest, RightHeavy(d, s.n, cp, s.r, p, true, t), Node(s, p, cp, t));
  }

  lemma NearOrderLeft(rest: Ctx, t: Tree, p: RbNode, cp: bool, s: Tree, near: RbNode)
    requires s.Node? && s.l.Node? && s.l.n == near
    ensures Plug(rest, Node(t, p, cp, RightHeavy(s.l.l, near, true, s.l.r, s.n, false, s.r))).InOrder()
            == Plug(rest, Node(t, p, cp, s)).InOrder()
  {
    var u := RightHeavy(s.l.l, near, true, s.l.r, s.n, false, s.r);
    RotationOrder(s.l.l, near, true, s.l.r, s.n, false, s.r, s.l.black, s.black);
    NodeOrder(t, p, cp, u);
    NodeOrder(t, p, cp, s);
    PlugOrder(rest, Node(t, p, cp, u), Node(t, p, cp, s));
  }

  lemma NearOrderRight(rest: Ctx, t: Tree, p: RbNode, cp: bool, s: Tree, near: RbNode)
    requires s.Node? && s.r.Node? && s.r.n == near
    ensures Plug(rest, Node(LeftHeavy(s.l, s.n, false, s.r.l, near, true, s.r.r), p, cp, t)).InOrder()
            == Plug(rest, Node(s, p, cp, t)).InOrder()
  {
    var u := LeftHeavy(s.l, s.n, false, s.r.l, near, true, s.r.r);
    RotationOrder(s.l, s.n, s.black, s.r.l, near, s.r.black, s.r.r, false, true);
    NodeOrder(u, p, cp, t);
    NodeOrder(s, p, cp, t);
    PlugOrder(rest, Node(u, p, cp, t), Node(s, p, cp, t));
  }

  lemma {:induction false} RootAbove(m: Mem, ctx: Ctx, hole: RbNode?)
    requires m.SpellsCtx(ctx, hole) && ctx != []
    ensures m.root != null && m.root in CtxNodes(ctx)
  {
    if |ctx| > 1 {
      RootAbove(m, ctx[1..], ctx[0].n);
    } else {
      assert m.SpellsCtx(ctx[1..], ctx[0].n);
    }
  }

  /** A subtree that is short one black node is never confused with its sibling, even when it is empty. */
  lemma OnLeft(m: Mem, f: Frame, rest: Ctx, t: Tree)
    requires m.Holds([f] + rest, t) && f.other.Node? && f.n in m.links
    ensures m.links[f.n].left == t.Root() <==> f.InLeft?
  {
    CtxLinks(m, [f] + rest, t);
    if t.Node? {
      SideOfParent(m, [f] + rest, t);
    }
  }

  lemma SiblingOrder(f: Frame, rest: Ctx, t: Tree)
    requires f.other.Node?
    ensures Plug(rest, f.(other := f.other.(black := false)).Fill(t)).InOrder() == Plug([f] + rest, t).InOrder()
  {
    var o := f.other.(black := false);
    assert o.InOrder() == f.other.InOrder();
    PlugOnce(f, rest, t);
    PlugOrder(rest, f.(other := o).Fill(t), f.Fill(t));
  }

  lemma WholeIsShort(t: Tree) returns (h: nat)
    requires RedBlack(t)
    ensures Short(t, h) && CtxRb([], h + 1)
  {
    h :| Rb(t, h);
  }

  lemma NoShortLeaf(t: Tree, h: nat)
    requires Rb(t, h) && h > 0 && !t.Red()
    ensures t.Node? && t.black
  {}

  lemma RedSiblingOrder(rest: Ctx, f: Frame, t: Tree)
    requires f.other.Node?
    ensures f.InLeft? ==> Plug([InLeft(f.n, false, f.other.l), InLeft(f.other.n, true, f.other.r)] + rest,
                               t).InOrder() == Plug([f] + rest, t).InOrder()
    ensures f.InRight? ==> Plug([InRight(f.n, false, f.other.r), InRight(f.other.n, true, f.other.l)] + rest,
                                t).InOrder() == Plug([f] + rest, t).InOrder()
  {
    hide Plug;
    var o := f.other;
    PlugOnce(f, rest, t);
    if f.InLeft? {
      RotationOrder(t, f.n, f.black, o.l, o.n, o.black, o.r, false, true);
      PlugTwice(InLeft(f.n, false, o.l), InLeft(o.n, true, o.r), rest, t);
      PlugOrder(rest, LeftHeavy(t, f.n, false, o.l, o.n, true, o.r), f.Fill(t));
    } else {
      RotationOrder(o.l, o.n, true, o.r, f.n, false, t, o.black, f.black);
      PlugTwice(InRight(f.n, false, o.r), InRight(o.n, true, o.l), rest, t);
      PlugOrder(rest, RightHeavy(o.l, o.n, true, o.r, f.n, false, t), f.Fill(t));
    }
  }

  lemma PlugNone(t: Tree)
    ensures Plug([], t) == t
  {}

  lemma PlugTwice(f: Frame, g: Frame, rest: Ctx, t: Tree)
    ensures Plug([f, g] + rest, t) == Plug(rest, g.Fill(f.Fill(t)))
  {
    assert ([f, g] + rest)[1..] == [g] + rest;
    PlugOnce(g, rest, f.Fill(t));
  }

  // ---- hanging in and taking out ----

  /** The link that rb_link_node fills in. */
  datatype Slot = AtRoot | LeftOf(p: RbNode) | RightOf(p: RbNode)

  ghost function SlotOf(ctx: Ctx): Slot
  {
    if ctx == [] then AtRoot else if ctx[0].InLeft? then LeftOf(ctx[0].n) else RightOf(ctx[0].n)
  }

  ghost predicate AllLeft(ctx: Ctx)
  {
    forall f <- ctx :: f.InLeft?
  }

  lemma StraightDown()
    ensures AllLeft([])
  {}

  lemma DownLeft(m: Mem, down: Ctx, up: Ctx, t: Tree)
    requires m.Holds(down + up, t) && t.Node? && AllLeft(down)
    ensures var f := InLeft(t.n, t.black, t.r);
            m.Holds([f] + down + up, t.l) && Plug([f] + down, t.l) == Plug(down, t) && AllLeft([f] + down)
  {
    hide Mem.Holds;
    var f := InLeft(t.n, t.black, t.r);
    assert [f] + (down + up) == [f] + down + up;
    MoveUpOnce(m, f, down + up, t.l);
    PlugOnce(f, down, t.l);
  }

  lemma OnlyChildFits(l: Tree, n: RbNode, c: bool, r: Tree, t: Tree, h: nat)
    requires Rb(Node(l, n, c, r), h) && if l.Leaf? then t == r else r.Leaf? && t == l
    ensures if c then h > 0 && Rb(t, h - 1) else Rb(t, h) && !t.Red()
  {}

  lemma OneChildOrder(l: Tree, r: Tree)
    ensures l.Leaf? ==> forall b: seq<RbNode> {:trigger b + r.InOrder()} ::
              b + r.InOrder() == b + l.InOrder() + r.InOrder()
    ensures r.Leaf? ==> forall b: seq<RbNode> {:trigger b + l.InOrder()} ::
              b + l.InOrder() == b + l.InOrder() + r.InOrder()
  {}

  lemma SuccessorParent(m: Mem, down: Ctx, above: Ctx, t: Tree)
    requires m.Holds(down + above, t) && above != []
    ensures (down + above)[0] == (if down == [] then above[0] else down[0]) && (down + above)[0].n in m.links
    ensures down != [] ==> down[0].n != above[0].n
    ensures t.Node? ==> t.n != above[0].n
  {
    InBoth(down, above);
    ParentInNodes(above);
    CtxLinks(m, down + above, t);
    if down != [] {
      assert (down + above)[1..] == down[1..] + above;
      InBoth(down[1..], above);
    }
  }

  lemma {:induction false} InBoth(down: Ctx, above: Ctx)
    ensures CtxNodes(above) <= CtxNodes(down + above)
  {
    if down == [] {
      assert down + above == above;
    } else {
      assert (down + above)[1..] == down[1..] + above;
      InBoth(down[1..], above);
    }
  }

  lemma MoveUpDown(m: Mem, down: Ctx, f: Frame, ctx: Ctx, t: Tree)
    ensures m.Holds(down + ([f] + ctx), t) <==> m.Holds(ctx, f.Fill(Plug(down, t)))
  {
    MoveAlong(m, down, [f] + ctx, t);
    MoveUpOnce(m, f, ctx, Plug(down, t));
  }

  /** The rules around a place do not depend on which nodes are above it. */
  lemma {:induction false} CtxRbRenamed(down: Ctx, f: Frame, g: Frame, ctx: Ctx, h: nat)
    requires CtxRb(down + ([f] + ctx), h) && f.InRight? && g.InRight? && f.black == g.black && f.other == g.other
    ensures CtxRb(down + ([g] + ctx), h)
  {
    if down == [] {
      assert down + ([f] + ctx) == [f] + ctx && ([f] + ctx)[1..] == ctx;
      assert down + ([g] + ctx) == [g] + ctx && ([g] + ctx)[1..] == ctx;
    } else {
      assert (down + ([f] + ctx))[1..] == down[1..] + ([f] + ctx);
      assert (down + ([g] + ctx))[1..] == down[1..] + ([g] + ctx);
      CtxRbRenamed(down[1..], f, g, ctx, if down[0].black then h + 1 else h);
    }
  }

  lemma SuccessorFits(ctx: Ctx, l: Tree, n: RbNode, c: bool, r: Tree, down: Ctx, s: RbNode, cs: bool,
                      sr: Tree) returns (h: nat)
    requires RedBlack(Plug(ctx, Node(l, n, c, r))) && Plug(down, Node(Leaf, s, cs, sr)) == r
    ensures CtxRb(down + ([InRight(s, c, l)] + ctx), h) && if cs then h > 0 && Rb(sr, h - 1) else Rb(sr, h) && !sr.Red()
  {
    var f, t := InRight(n, c, l), Node(Leaf, s, cs, sr);
    PlugOnce(f, ctx, r);
    PlugAlong(down, [f] + ctx, t);
    h := OpenRedBlack(down + ([f] + ctx), t);
    CtxRbRenamed(down, f, InRight(s, c, l), ctx, h);
  }

  lemma {:induction false} BeforeAllLeft(down: Ctx)
    requires AllLeft(down)
    ensures Before(down) == []
  {
    if down != [] {
      BeforeAllLeft(down[1..]);
    }
  }

  /** With the successor in its new place, the order is the old one without the node it replaced. */
  lemma SuccessorOrder(ctx: Ctx, l: Tree, s: RbNode, c: bool, down: Ctx, cs: bool, sr: Tree)
    requires AllLeft(down)
    ensures Plug(down + ([InRight(s, c, l)] + ctx), sr).InOrder()
            == Before(ctx) + l.InOrder() + Plug(down, Node(Leaf, s, cs, sr)).InOrder() + After(ctx)
  {
    hide Plug;
    var u, f := Plug(down, sr), InRight(s, c, l);
    PlugAlong(down, [f] + ctx, sr);
    PlugOnce(f, ctx, u);
    PlugInOrder(ctx, Node(l, s, c, u));
    PlugInOrder(down, sr);
    PlugInOrder(down, Node(Leaf, s, cs, sr));
    BeforeAllLeft(down);
    NodeOrder(Leaf, s, cs, sr);
    NodeOrder(l, s, c, u);
    SuccessorSequence(Before(ctx), l.InOrder(), s, sr.InOrder(), After(down), After(ctx));
  }

  lemma SuccessorSequence(b: seq<RbNode>, l: seq<RbNode>, s: RbNode, r: seq<RbNode>, a: seq<RbNode>, z: seq<RbNode>)
    ensures b + (l + [s] + ([] + r + a)) + z == b + l + ([] + ([] + [s] + r) + a) + z
  {}
}
