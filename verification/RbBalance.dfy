// The red-black properties, of a tree and of the context around a subtree, and what each
// case of the two fix-up loops does to them. Every case is stated for both directions.
module RbBalance {
  import opened Prelude
  import opened VmaSpec
  import opened RbShape

  predicate IsBlack(t: Tree) {
    t.Leaf? || t.color.Black?
  }

  function Weight(k: Color): nat {
    if k.Black? then 1 else 0
  }

  // Number of black nodes on the leftmost path; on every path when the tree is balanced.
  function BlackHeight(t: Tree): nat {
    if t.Leaf? then 0 else BlackHeight(t.left) + Weight(t.color)
  }

  ghost predicate EvenKids(t: Tree) {
    t.T? ==> Balanced(t.left) && Balanced(t.right) && BlackHeight(t.left) == BlackHeight(t.right)
  }

  // No red node has a red child and all paths carry the same number of black nodes.
  ghost predicate Balanced(t: Tree)
    decreases t, 0
  {
    t.T? ==>
      && Balanced(t.left) && Balanced(t.right) && BlackHeight(t.left) == BlackHeight(t.right)
      && (t.color.Red? ==> IsBlack(t.left) && IsBlack(t.right))
  }

  lemma MkBalanced(onLeft: bool, id: nat, color: Color, area: Area, near: Tree, far: Tree)
    ensures var t := Mk(onLeft, id, color, area, near, far);
      && EvenKids(t) == (Balanced(near) && Balanced(far) && BlackHeight(near) == BlackHeight(far))
      && Balanced(t) == (EvenKids(t) && (color.Red? ==> IsBlack(near) && IsBlack(far)))
      && (EvenKids(t) ==> BlackHeight(t) == BlackHeight(near) + Weight(color))
  {
  }

  function CtxColor(c: Ctx): Color {
    if c.Top? then Black else c.color
  }

  // The context is balanced around a hole of black height `h`.
  ghost predicate CtxBalanced(c: Ctx, h: nat) {
    c.Frame? ==>
      && Balanced(c.sib) && BlackHeight(c.sib) == h
      && (c.color.Red? ==> IsBlack(c.sib) && CtxColor(c.up).Black?)
      && CtxBalanced(c.up, h + Weight(c.color))
  }

  ghost predicate RootBlack(c: Ctx) {
    c.Frame? ==> if c.up.Top? then c.color.Black? else RootBlack(c.up)
  }

  lemma {:induction false} PlugBalanced(c: Ctx, t: Tree)
    requires Balanced(t) && CtxBalanced(c, BlackHeight(t))
    requires CtxColor(c).Red? ==> IsBlack(t)
    ensures Balanced(Plug(c, t))
  {
    if c.Frame? {
      PlugBalanced(c.up, Mk(c.onLeft, c.id, c.color, c.area, t, c.sib));
    }
  }

  lemma {:induction false} PlugRootBlack(c: Ctx, t: Tree)
    requires RootBlack(c)
    ensures if c.Top? then Plug(c, t) == t else IsBlack(Plug(c, t))
  {
    if c.Frame? {
      PlugRootBlack(c.up, Mk(c.onLeft, c.id, c.color, c.area, t, c.sib));
    }
  }

  // Opening a balanced tree at any node gives a balanced context around that node.
  lemma {:induction false} UnplugBalanced(c: Ctx, t: Tree)
    requires Balanced(Plug(c, t)) && IsBlack(Plug(c, t))
    ensures Balanced(t) && CtxBalanced(c, BlackHeight(t)) && RootBlack(c)
    ensures CtxColor(c).Red? ==> IsBlack(t)
  {
    if c.Frame? {
      UnplugBalanced(c.up, Mk(c.onLeft, c.id, c.color, c.area, t, c.sib));
    }
  }

  // ---- insertion -----------------------------------------------------------------------

  // The focus is a red node whose parent may be red too; everything else is in order.
  ghost predicate InsertPoint(c: Ctx, t: Tree) {
    && t.T? && t.color.Red? && Balanced(t)
    && CtxBalanced(c, BlackHeight(t)) && RootBlack(c)
  }

  // A red parent always has a black parent of its own.
  lemma GrandparentExists(c: Ctx, t: Tree)
    requires InsertPoint(c, t) && CtxColor(c).Red?
    ensures c.Frame? && c.up.Frame? && c.up.color.Black?
  {
  }

  // Red uncle: parent and uncle turn black, the grandparent turns red and becomes the focus.
  lemma InsertRedUncle(c: Ctx, t: Tree)
    requires InsertPoint(c, t) && CtxColor(c).Red? && c.up.Frame? && !IsBlack(c.up.sib)
    ensures var P := Mk(c.onLeft, c.id, Black, c.area, t, c.sib);
            var g := c.up;
            InsertPoint(g.up, Mk(g.onLeft, g.id, Red, g.area, P, g.sib.(color := Black)))
  {
    var g, P := c.up, Mk(c.onLeft, c.id, Black, c.area, t, c.sib);
    assert CtxBalanced(g, BlackHeight(t)) && RootBlack(g);
    MkBalanced(c.onLeft, c.id, Black, c.area, t, c.sib);
    MkBalanced(g.onLeft, g.id, Red, g.area, P, g.sib.(color := Black));
  }

  // Black uncle, focus on the inner side: rotating the parent moves it to the outer side.
  lemma InsertInner(c: Ctx, t: Tree)
    requires InsertPoint(c, t) && CtxColor(c).Red? && c.up.Frame?
    ensures var d := !c.onLeft;
            InsertPoint(Frame(d, t.id, Red, t.area, Far(d, t), c.up),
                        Mk(d, c.id, Red, c.area, c.sib, Near(d, t)))
  {
    MkBalanced(!c.onLeft, c.id, Red, c.area, c.sib, Near(!c.onLeft, t));
  }

  // Black uncle, focus on the outer side: rotating the grandparent ends the repair.
  lemma InsertOuter(c: Ctx, t: Tree)
    requires InsertPoint(c, t) && CtxColor(c).Red? && c.up.Frame? && IsBlack(c.up.sib) && c.onLeft == c.up.onLeft
    ensures var g := c.up;
            InsertPoint(Frame(c.onLeft, c.id, Black, c.area, Mk(c.onLeft, g.id, Red, g.area, c.sib, g.sib), g.up), t)
  {
    var g := c.up;
    assert CtxBalanced(g, BlackHeight(t)) && RootBlack(g);
    MkBalanced(c.onLeft, g.id, Red, g.area, c.sib, g.sib);
  }

  // ---- deletion ------------------------------------------------------------------------

  // The focus is one black node short of what its context expects.
  ghost predicate DeletePoint(c: Ctx, t: Tree) {
    EvenKids(t) && CtxBalanced(c, BlackHeight(t) + 1) && RootBlack(c)
  }

  // The sibling of a short subtree is a real node, so the sentinel can be told apart from it.
  lemma SiblingExists(c: Ctx, t: Tree)
    requires DeletePoint(c, t) && c.Frame?
    ensures c.sib.T? && EvenKids(c.sib)
  {
  }

  lemma DeleteRedSibling(c: Ctx, t: Tree)
    requires DeletePoint(c, t) && c.Frame? && !IsBlack(c.sib)
    ensures var d, w := c.onLeft, c.sib;
            DeletePoint(Frame(d, c.id, Red, c.area, Near(d, w), Frame(d, w.id, Black, w.area, Far(d, w), c.up)), t)
            && IsBlack(Near(d, w))
  {
  }

  lemma DeleteBlackNephews(c: Ctx, t: Tree)
    requires DeletePoint(c, t) && c.Frame? && IsBlack(t) && IsBlack(c.sib) && c.sib.T?
    requires IsBlack(c.sib.left) && IsBlack(c.sib.right)
    ensures DeletePoint(c.up, Mk(c.onLeft, c.id, c.color, c.area, t, c.sib.(color := Red)))
  {
  }

  lemma DeleteNearNephew(c: Ctx, t: Tree)
    requires DeletePoint(c, t) && c.Frame? && IsBlack(c.sib) && c.sib.T?
    requires !IsBlack(Near(c.onLeft, c.sib)) && IsBlack(Far(c.onLeft, c.sib))
    ensures var d, w := c.onLeft, c.sib;
            var n := Near(d, w).(color := Black);
            var w' := RotateTree(!d, Mk(d, w.id, Red, w.area, n, Far(d, w)));
            DeletePoint(c.(sib := w'), t) && IsBlack(w') && !IsBlack(Far(d, w'))
  {
    var d, w := c.onLeft, c.sib;
    var n := Near(d, w).(color := Black);
    assert EvenKids(w) && Balanced(n);
    MkBalanced(d, w.id, Red, w.area, Far(d, n), Far(d, w));
    MkBalanced(d, n.id, Black, n.area, Near(d, n), Mk(d, w.id, Red, w.area, Far(d, n), Far(d, w)));
  }

  lemma DeleteFarNephew(c: Ctx, t: Tree)
    requires DeletePoint(c, t) && c.Frame? && IsBlack(t) && IsBlack(c.sib) && c.sib.T? && !IsBlack(Far(c.onLeft, c.sib))
    ensures var d, w := c.onLeft, c.sib;
            var w' := Mk(d, w.id, c.color, w.area, Near(d, w), Far(d, w).(color := Black));
            var p := RotateTree(d, Mk(d, c.id, Black, c.area, t, w'));
            Balanced(p) && CtxBalanced(c.up, BlackHeight(p)) && (CtxColor(c.up).Red? ==> IsBlack(p))
  {
    var d, w := c.onLeft, c.sib;
    var f := Far(d, w).(color := Black);
    var q := Mk(d, c.id, Black, c.area, t, Near(d, w));
    assert EvenKids(w) && Balanced(f) && Balanced(t);
    MkBalanced(d, c.id, Black, c.area, t, Near(d, w));
    MkBalanced(d, w.id, c.color, w.area, q, f);
  }

  // ---- height --------------------------------------------------------------------------

  function Max(a: nat, b: nat): nat {
    if a < b then b else a
  }

  function Height(t: Tree): nat {
    if t.Leaf? then 0 else 1 + Max(Height(t.left), Height(t.right))
  }

  lemma {:induction false} SizeBound(t: Tree)
    requires Balanced(t)
    ensures |Areas(t)| + 1 >= Pow2(BlackHeight(t))
    ensures Height(t) <= 2 * BlackHeight(t) + (if IsBlack(t) then 0 else 1)
  {
    if t.T? {
      SizeBound(t.left);
      SizeBound(t.right);
    }
  }

  // Height at most 2*log2(n + 1), written without logarithms.
  lemma HeightBound(t: Tree)
    requires Balanced(t) && IsBlack(t)
    ensures Pow2(Height(t)) <= (|Areas(t)| + 1) * (|Areas(t)| + 1)
  {
    SizeBound(t);
    var b, n := BlackHeight(t), |Areas(t)| + 1;
    Pow2Monotone(Height(t), b + b);
    Pow2Add(b, b);
    assert Pow2(b) * Pow2(b) <= n * n by {
      SquareMonotone(Pow2(b), n);
    }
  }

  // A place in the tree is no deeper than the tree is high.
  lemma {:induction false} DepthWithin(c: Ctx, t: Tree)
    ensures Depth(c) + Height(t) <= Height(Plug(c, t))
  {
    if c.Frame? {
      DepthWithin(c.up, Mk(c.onLeft, c.id, c.color, c.area, t, c.sib));
    }
  }

  lemma SquareMonotone(a: nat, b: nat)
    requires a <= b
    ensures a * a <= b * b
  {
  }
}
