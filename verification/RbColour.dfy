/** The red-black rules, and how the steps of the rebalancing loops restore them. */
module RbColour {
  import opened RbShape
  import Words

  /** No red node has a red child, and h black nodes lie on every way down. */
  ghost predicate Rb(t: Tree, h: nat)
  {
    if t.Leaf? then h == 0
    else if t.black then h > 0 && Rb(t.l, h - 1) && Rb(t.r, h - 1)
    else Rb(t.l, h) && Rb(t.r, h) && !t.l.Red() && !t.r.Red()
  }

  /** The rules around a hole that expects h black nodes below it. */
  ghost predicate CtxRb(ctx: Ctx, h: nat)
  {
    ctx != [] ==>
      && Rb(ctx[0].other, h)
      && if ctx[0].black then CtxRb(ctx[1..], h + 1)
         else !ctx[0].other.Red() && ctx[1..] != [] && ctx[1].black && CtxRb(ctx[1..], h)
  }

  /** A whole tree that follows the rules: its root is black. */
  ghost predicate RedBlack(t: Tree)
  {
    !t.Red() && exists h: nat :: Rb(t, h)
  }

  /** A subtree that fits its place completes the tree. */
  lemma {:induction false} PlugRedBlack(ctx: Ctx, t: Tree, h: nat)
    requires CtxRb(ctx, h) && Rb(t, h) && (t.Red() ==> ctx != [] && ctx[0].black)
    ensures RedBlack(Plug(ctx, t))
  {
    if ctx != [] {
      var f := ctx[0];
      PlugRedBlack(ctx[1..], f.Fill(t), if f.black then h + 1 else h);
    }
  }

  lemma {:induction false} OpenRedBlack(ctx: Ctx, t: Tree) returns (h: nat)
    requires RedBlack(Plug(ctx, t))
    ensures CtxRb(ctx, h) && Rb(t, h) && (t.Red() ==> ctx != [] && ctx[0].black)
  {
    if ctx == [] {
      h :| Rb(t, h);
    } else {
      var f := ctx[0];
      var k := OpenRedBlack(ctx[1..], f.Fill(t));
      h := if f.black then k - 1 else k;
    }
  }

  lemma {:induction false} RbHeightUnique(t: Tree, h: nat, k: nat)
    requires Rb(t, h) && Rb(t, k)
    ensures h == k
  {
    if t.Node? {
      RbHeightUnique(t.l, if t.black then h - 1 else h, if t.black then k - 1 else k);
    }
  }

  // ---- what the rules are for ----

  /** The number of nodes on the longest way down. */
  ghost function Depth(t: Tree): nat
  {
    if t.Leaf? then 0
    else if Depth(t.l) < Depth(t.r) then Depth(t.r) + 1
    else Depth(t.l) + 1
  }

  lemma {:induction false} RbSize(t: Tree, h: nat)
    requires Rb(t, h)
    ensures Words.Pow2(h) <= |t.InOrder()| + 1
  {
    if t.Node? {
      RbSize(t.l, if t.black then h - 1 else h);
      RbSize(t.r, if t.black then h - 1 else h);
    }
  }

  lemma {:induction false} RbDepth(t: Tree, h: nat)
    requires Rb(t, h)
    ensures Depth(t) <= 2 * h + if t.Red() then 1 else 0
  {
    if t.Node? {
      RbDepth(t.l, if t.black then h - 1 else h);
      RbDepth(t.r, if t.black then h - 1 else h);
    }
  }

  /** A tree that follows the rules is balanced: it is at most twice as deep as the logarithm of its size. */
  lemma Balanced(t: Tree)
    requires RedBlack(t)
    ensures Words.Pow2(Depth(t)) <= (|t.InOrder()| + 1) * (|t.InOrder()| + 1)
  {
    var h: nat :| Rb(t, h);
    RbSize(t, h);
    RbDepth(t, h);
    Words.Pow2Monotone(Depth(t), 2 * h);
    Words.Pow2Add(h, h);
    Squares(Words.Pow2(h), |t.InOrder()| + 1);
  }

  lemma Squares(a: nat, b: nat)
    requires a <= b
    ensures a * a <= b * b
  {
    assert b * b - a * a == (b - a) * (b + a);
  }

  // ---- insertion ----

  /** Parent and uncle red: they turn black, the grandparent red, and the conflict moves up to it. */
  lemma UncleRed(t: Tree, p: Frame, g: Frame, rest: Ctx, h: nat)
    requires CtxRb([p, g] + rest, h) && Rb(t, h) && !p.black && g.other.Red()
    ensures var q := p.(black := true).Fill(t);
            var u := g.other.(black := true);
            Rb(g.(black := false, other := u).Fill(q), h + 1) && CtxRb(rest, h + 1)
  {
    assert ([p, g] + rest)[1..] == [g] + rest;
    assert ([g] + rest)[1..] == rest;
  }

  /** Uncle black: after the rotations the conflict has a black parent. */
  lemma UncleBlack(p: Frame, g: Frame, rest: Ctx, h: nat)
    requires CtxRb([p, g] + rest, h) && !p.black && !g.other.Red()
    ensures Rb(p.other, h) && !p.other.Red() && Rb(g.other, h) && CtxRb(rest, h + 1) && g.black
  {
    assert ([p, g] + rest)[1..] == [g] + rest;
    assert ([g] + rest)[1..] == rest;
  }

  // ---- removal ----

  /** The subtree has one black node too few for a place that expects h + 1; a red root can make up for it. */
  ghost predicate Short(t: Tree, h: nat)
  {
    if t.Red() then Rb(t.(black := true), h + 1) else Rb(t, h)
  }

  lemma RbIsShort(t: Tree, h: nat)
    requires Rb(t, h)
    ensures Short(t, h)
  {}

  /** Painting the root black ends the repair. */
  lemma ShortPainted(ctx: Ctx, t: Tree, h: nat)
    requires Short(t, h) && CtxRb(ctx, h + 1) && (t.Red() || ctx == [])
    ensures RedBlack(Plug(ctx, if t.Node? then t.(black := true) else t))
  {
    if t.Red() {
      PlugRedBlack(ctx, t.(black := true), h + 1);
    }
  }

  /** What the rules say about the parent and the sibling of a short black subtree. */
  lemma Sibling(f: Frame, rest: Ctx, t: Tree, h: nat)
    requires CtxRb([f] + rest, h + 1) && Short(t, h)
    ensures f.other.Node? && Rb(f.other, h + 1)
    ensures CtxRb(rest, if f.black then h + 2 else h + 1) && (!f.black ==> rest != [] && rest[0].black)
    ensures f.other.Red() ==>
              f.black && Rb(f.other.l, h + 1) && Rb(f.other.r, h + 1) && !f.other.l.Red() && !f.other.r.Red()
    ensures f.other.black ==> Rb(f.other.l, h) && Rb(f.other.r, h)
  {
    assert ([f] + rest)[1..] == rest;
  }

  /** A red sibling changes places with the parent; the new sibling is black and the parent red. */
  lemma RedSibling(p: RbNode, s: RbNode, near: Tree, far: Tree, rest: Ctx, h: nat)
    requires Rb(near, h + 1) && Rb(far, h + 1) && !near.Red() && CtxRb(rest, h + 2)
    ensures CtxRb([InLeft(p, false, near), InLeft(s, true, far)] + rest, h + 1)
    ensures CtxRb([InRight(p, false, near), InRight(s, true, far)] + rest, h + 1)
  {
    var l := [InLeft(p, false, near), InLeft(s, true, far)] + rest;
    assert l[1..] == [InLeft(s, true, far)] + rest && l[1..][1..] == rest;
    var r := [InRight(p, false, near), InRight(s, true, far)] + rest;
    assert r[1..] == [InRight(s, true, far)] + rest && r[1..][1..] == rest;
  }

  /** A black sibling with black children turns red, and the parent's subtree is the short one. */
  lemma BlackNephews(f: Frame, rest: Ctx, t: Tree, h: nat)
    requires CtxRb([f] + rest, h + 1) && Short(t, h) && !t.Red() && f.other.Node? && f.other.black
    requires !f.other.l.Red() && !f.other.r.Red()
    ensures var u := f.(other := f.other.(black := false)).Fill(t);
            if f.black then Short(u, h + 1) && CtxRb(rest, h + 2) else Short(u, h) && CtxRb(rest, h + 1)
  {
    Sibling(f, rest, t, h);
  }

  /** The final rotation: a and b around the parent turned black, the outer nephew d turned black. */
  lemma RepairedSubtree(a: Tree, p: RbNode, b: Tree, s: RbNode, cp: bool, d: Tree, h: nat)
    requires Rb(a, h) && Rb(b, h) && d.Red() && Rb(d, h)
    ensures Rb(LeftHeavy(a, p, true, b, s, cp, d.(black := true)), if cp then h + 2 else h + 1)
    ensures Rb(RightHeavy(d.(black := true), s, cp, b, p, true, a), if cp then h + 2 else h + 1)
  {}
}
