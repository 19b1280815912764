// The node memory and the operations that rearrange it: rotations and both fix-up loops.
// The two branches of each loop in the source are mirror images; `onLeft` selects one.
module RbFixup {
  import opened VmaSpec
  import opened RbShape
  import opened RbBalance

  class NodeStore {
    const pool: array<Node>
    var root: nat

    constructor ()
      ensures fresh(pool) && pool.Length == NIL + 1 && root == NIL
      ensures forall i | 0 <= i <= NIL :: pool[i] == Node(Area(0, 0, 0, 0), Black, NIL, NIL, NIL)
    {
      pool := new Node[NIL + 1](_ => Node(Area(0, 0, 0, 0), Black, NIL, NIL, NIL));
      root := NIL;
    }

    // The memory represents `t` in context `c`.
    ghost predicate At(c: Ctx, t: Tree)
      reads this, pool
    {
      pool.Length == NIL + 1 && Zip(pool[..], root, c, t)
    }

    method SetColor(i: nat, k: Color, ghost c: Ctx, ghost t: Tree)
      requires At(c, t) && t.T? && t.id == i
      modifies pool
      ensures At(c, t.(color := k)) && SameContent(Plug(c, t), Plug(c, t.(color := k)))
      ensures i < NIL && forall j | 0 <= j <= NIL && j != i :: pool[j] == old(pool[j])
    {
      ZipRecolor(pool[..], root, c, t, k);
      RecolorContent(c, t, k);
      ghost var m := pool[..];
      pool[i] := pool[i].(color := k);
      assert pool[..] == m[i := m[i].(color := k)];
    }

    method SetParentColor(i: nat, k: Color, ghost c: Ctx, ghost t: Tree)
      requires At(c, t) && c.Frame? && c.id == i
      modifies pool
      ensures At(c.(color := k), t) && SameContent(Plug(c, t), Plug(c.(color := k), t))
      ensures i < NIL && forall j | 0 <= j <= NIL && j != i :: pool[j] == old(pool[j])
    {
      ZipRecolorParent(pool[..], root, c, t, k);
      RecolorContent(c, t, k);
      ghost var m := pool[..];
      pool[i] := pool[i].(color := k);
      assert pool[..] == m[i := m[i].(color := k)];
    }

    method SetSiblingColor(i: nat, k: Color, ghost c: Ctx, ghost t: Tree)
      requires At(c, t) && c.Frame? && c.sib.T? && c.sib.id == i
      modifies pool
      ensures var c' := c.(sib := c.sib.(color := k)); At(c', t) && SameContent(Plug(c, t), Plug(c', t))
      ensures i < NIL && forall j | 0 <= j <= NIL && j != i :: pool[j] == old(pool[j])
    {
      ZipRecolorSibling(pool[..], root, c, t, k);
      RecolorContent(c, t, k);
      ghost var m := pool[..];
      pool[i] := pool[i].(color := k);
      assert pool[..] == m[i := m[i].(color := k)];
    }

    method RotateLeft(x: nat, ghost y0: nat, ghost b0: nat, ghost p0: nat)
      requires pool.Length == NIL + 1 && RotateLinks(pool[..], true, x, y0, b0, p0)
      modifies this`root, pool
      ensures Rotated(old(pool[..]), pool[..], true, x, y0, b0, p0)
      ensures root == if p0 == NIL then y0 else old(root)
    {
      var y := pool[x].right;
      pool[x] := pool[x].(right := pool[y].left);
      if pool[y].left != NIL {
        var b := pool[y].left;
        pool[b] := pool[b].(parent := x);
      }
      pool[y] := pool[y].(parent := pool[x].parent);
      var p := pool[x].parent;
      if p == NIL {
        root := y;
      } else if x == pool[p].left {
        pool[p] := pool[p].(left := y);
      } else {
        pool[p] := pool[p].(right := y);
      }
      pool[y] := pool[y].(left := x);
      pool[x] := pool[x].(parent := y);
    }

    method RotateRight(x: nat, ghost y0: nat, ghost b0: nat, ghost p0: nat)
      requires pool.Length == NIL + 1 && RotateLinks(pool[..], false, x, y0, b0, p0)
      modifies this`root, pool
      ensures Rotated(old(pool[..]), pool[..], false, x, y0, b0, p0)
      ensures root == if p0 == NIL then y0 else old(root)
    {
      var y := pool[x].left;
      pool[x] := pool[x].(left := pool[y].right);
      if pool[y].right != NIL {
        var b := pool[y].right;
        pool[b] := pool[b].(parent := x);
      }
      pool[y] := pool[y].(parent := pool[x].parent);
      var p := pool[x].parent;
      if p == NIL {
        root := y;
      } else if x == pool[p].right {
        pool[p] := pool[p].(right := y);
      } else {
        pool[p] := pool[p].(left := y);
      }
      pool[y] := pool[y].(right := x);
      pool[x] := pool[x].(parent := y);
    }

    method Rotate(onLeft: bool, x: nat, ghost c: Ctx, ghost t: Tree)
      requires At(c, t) && t.T? && t.id == x && Far(onLeft, t).T?
      modifies this`root, pool
      ensures At(c, RotateTree(onLeft, t))
      ensures pool[NIL] == old(pool[NIL])
      ensures forall i | 0 <= i <= NIL && i !in Ids(t) && i !in CtxIds(c) :: pool[i] == old(pool[i])
      ensures SameContent(Plug(c, t), Plug(c, RotateTree(onLeft, t)))
    {
      RotateNodes(pool[..], root, c, onLeft, t);
      ghost var y := Far(onLeft, t);
      ghost var m := pool[..];
      if onLeft {
        RotateLeft(x, y.id, Link(Near(onLeft, y)), CtxId(c));
      } else {
        RotateRight(x, y.id, Link(Near(onLeft, y)), CtxId(c));
      }
      ZipRotate(m, pool[..], old(root), c, onLeft, t);
      RotateContent(onLeft, t);
      PlugContent(c, t, RotateTree(onLeft, t));
    }

    // ---- insertion ----

    // Red uncle: parent and uncle turn black, the grandparent red.
    method RecolorFamily(p: nat, uncle: nat, g: nat, ghost c: Ctx, ghost t: Tree) returns (ghost G: Tree)
      requires At(c, t) && InsertPoint(c, t) && CtxColor(c).Red? && c.up.Frame? && !IsBlack(c.up.sib)
      requires p == c.id && g == c.up.id && uncle == c.up.sib.id
      modifies pool
      ensures At(c.up.up, G) && InsertPoint(c.up.up, G) && G.id == g
      ensures SameContent(Plug(c, t), Plug(c.up.up, G))
      ensures pool[NIL] == old(pool[NIL])
      ensures forall i | 0 <= i <= NIL && i !in CtxIds(c) :: pool[i] == old(pool[i])
    {
      InsertRedUncle(c, t);
      assert {p, uncle, g} <= CtxIds(c);
      ghost var k, P := c.up, Mk(c.onLeft, p, Red, c.area, t, c.sib);
      ZipUp(pool[..], root, c, t);
      SetColor(p, Black, k, P);
      P := P.(color := Black);
      SetSiblingColor(uncle, Black, k, P);
      k := k.(sib := k.sib.(color := Black));
      SetParentColor(g, Red, k, P);
      k := k.(color := Red);
      ZipUp(pool[..], root, k, P);
      G := Mk(k.onLeft, g, Red, k.area, P, k.sib);
    }

    // Rotating the parent of the focus away from the focus lifts the focus above it.
    method LiftFocus(onLeft: bool, p: nat, ghost c: Ctx, ghost t: Tree) returns (ghost t': Tree)
      requires At(c, t) && c.Frame? && t.T? && onLeft == !c.onLeft && p == c.id
      modifies this`root, pool
      ensures t' == Mk(onLeft, t.id, t.color, t.area, Mk(onLeft, p, c.color, c.area, c.sib, Near(onLeft, t)), Far(onLeft, t))
      ensures At(c.up, t') && SameContent(Plug(c, t), Plug(c.up, t'))
      ensures pool[NIL] == old(pool[NIL])
      ensures forall i | 0 <= i <= NIL && i !in Ids(t) && i !in CtxIds(c) :: pool[i] == old(pool[i])
    {
      ghost var P := Mk(!onLeft, p, c.color, c.area, t, c.sib);
      MkShape(!onLeft, p, c.color, c.area, t, c.sib);
      ZipUp(pool[..], root, c, t);
      Rotate(onLeft, p, c.up, P);
      t' := RotateTree(onLeft, P);
    }

    // Black uncle, focus on the outer side: recolour and rotate the grandparent.
    method RotateGrandparent(onLeft: bool, p: nat, g: nat, ghost c: Ctx, ghost t: Tree) returns (ghost c': Ctx)
      requires At(c, t) && InsertPoint(c, t) && CtxColor(c).Red? && c.up.Frame? && IsBlack(c.up.sib)
      requires onLeft == c.onLeft == c.up.onLeft && p == c.id && g == c.up.id
      modifies this`root, pool
      ensures At(c', t) && InsertPoint(c', t) && CtxColor(c').Black?
      ensures SameContent(Plug(c, t), Plug(c', t))
      ensures pool[NIL] == old(pool[NIL])
      ensures forall i | 0 <= i <= NIL && i !in Ids(t) && i !in CtxIds(c) :: pool[i] == old(pool[i])
    {
      InsertOuter(c, t);
      ghost var k, P := c.up, Mk(onLeft, p, Red, c.area, t, c.sib);
      MkShape(onLeft, p, Red, c.area, t, c.sib);
      ZipUp(pool[..], root, c, t);
      SetColor(p, Black, k, P);
      P := P.(color := Black);
      SetParentColor(g, Red, k, P);
      k := k.(color := Red);
      P := LiftFocus(!onLeft, g, k, P);
      ghost var s := Mk(onLeft, g, Red, k.area, c.sib, k.sib);
      assert P == Mk(onLeft, p, Black, c.area, t, s);
      ZipDown(pool[..], root, k.up, onLeft, p, Black, c.area, t, s);
      c' := Frame(onLeft, p, Black, c.area, s, k.up);
    }

    // Black uncle, focus on the inner side: rotate the parent, which becomes the focus.
    method RotateParent(onLeft: bool, p: nat, ghost c: Ctx, ghost t: Tree) returns (ghost c': Ctx, ghost t': Tree)
      requires At(c, t) && InsertPoint(c, t) && CtxColor(c).Red? && c.up.Frame?
      requires onLeft == c.up.onLeft && c.onLeft != onLeft && p == c.id
      modifies this`root, pool
      ensures At(c', t') && InsertPoint(c', t') && t'.id == p
      ensures c'.Frame? && c'.onLeft == onLeft && c'.color.Red? && c'.up == c.up
      ensures SameContent(Plug(c, t), Plug(c', t'))
      ensures pool[NIL] == old(pool[NIL])
      ensures forall i | 0 <= i <= NIL && i !in Ids(t) && i !in CtxIds(c) :: pool[i] == old(pool[i])
    {
      InsertInner(c, t);
      ghost var _ := LiftFocus(onLeft, p, c, t);
      t' := Mk(onLeft, p, Red, c.area, c.sib, Near(onLeft, t));
      ZipDown(pool[..], root, c.up, onLeft, t.id, Red, t.area, t', Far(onLeft, t));
      c' := Frame(onLeft, t.id, Red, t.area, Far(onLeft, t), c.up);
    }

    // What the loop reads around the focus.
    lemma InsertView(m: Memory, r: nat, c: Ctx, t: Tree)
      requires Zip(m, r, c, t) && InsertPoint(c, t)
      ensures t.id < NIL && m[t.id].parent == CtxId(c) <= NIL && m[CtxId(c)].color == CtxColor(c)
      ensures CtxColor(c).Red? ==>
        && c.up.Frame? && c.id < NIL && c.up.id < NIL && m[c.id].parent == c.up.id
        && (c.onLeft <==> m[c.id].left == t.id) && (c.onLeft <==> m[c.id].right != t.id)
        && (c.up.onLeft <==> m[c.up.id].left == c.id)
        && (var uncle := if c.up.onLeft then m[c.up.id].right else m[c.up.id].left;
            uncle == Link(c.up.sib) <= NIL && m[uncle].color.Red? == !IsBlack(c.up.sib))
    {
      if CtxColor(c).Red? {
        GrandparentExists(c, t);
        SideByPointer(m, r, c, t);
        ZipUp(m, r, c, t);
        SideByPointer(m, r, c.up, Mk(c.onLeft, c.id, c.color, c.area, t, c.sib));
      }
    }

    method BlackenRoot(ghost c: Ctx, ghost t: Tree) returns (ghost t': Tree)
      requires At(c, t) && InsertPoint(c, t) && CtxColor(c).Black?
      modifies pool
      ensures At(Top, t') && Balanced(t') && IsBlack(t') && SameContent(Plug(c, t), t')
      ensures pool[NIL] == old(pool[NIL])
      ensures forall i | 0 <= i <= NIL && i !in Ids(t') :: pool[i] == old(pool[i])
    {
      PlugZip(pool[..], root, c, t);
      PlugBalanced(c, t);
      t' := Plug(c, t);
      SetColor(root, Black, Top, t');
      t' := t'.(color := Black);
    }

    // One iteration: the focus moves up two levels, or rotations end the repair.
    method InsertStep(z: nat, ghost c: Ctx, ghost t: Tree) returns (z': nat, ghost c': Ctx, ghost t': Tree)
      requires At(c, t) && InsertPoint(c, t) && t.id == z && CtxColor(c).Red?
      modifies this`root, pool
      ensures At(c', t') && InsertPoint(c', t') && t'.id == z' && (CtxColor(c').Black? || Depth(c') < Depth(c))
      ensures SameContent(Plug(c, t), Plug(c', t'))
      ensures pool[NIL] == old(pool[NIL])
      ensures forall i | 0 <= i <= NIL && i !in Ids(t) && i !in CtxIds(c) :: pool[i] == old(pool[i])
    {
      InsertView(pool[..], root, c, t);
      z', c', t' := z, c, t;
      var p := pool[z].parent;
      var g := pool[p].parent;
      var onLeft := p == pool[g].left;
      var uncle := if onLeft then pool[g].right else pool[g].left;
      if pool[uncle].color == Red {
        t' := RecolorFamily(p, uncle, g, c, t);
        z' := g;
        c' := c.up.up;
      } else {
        if z == (if onLeft then pool[p].right else pool[p].left) {
          z' := p;
          c', t' := RotateParent(onLeft, z', c, t);
          PlugIds(c, t);
          PlugIds(c', t');
        }
        InsertView(pool[..], root, c', t');
        c' := RotateGrandparent(onLeft, pool[z'].parent, pool[pool[z'].parent].parent, c', t');
      }
    }

    // `steps` counts the rounds of the loop.
    method InsertFixup(z0: nat, ghost c0: Ctx, ghost t0: Tree) returns (ghost t': Tree, ghost steps: nat)
      requires At(c0, t0) && InsertPoint(c0, t0) && t0.id == z0
      modifies this`root, pool
      ensures At(Top, t') && Balanced(t') && IsBlack(t') && SameContent(Plug(c0, t0), t')
      ensures steps <= 1 + Depth(c0)
      ensures pool[NIL] == old(pool[NIL])
      ensures forall i | 0 <= i <= NIL && i !in Ids(t') :: pool[i] == old(pool[i])
    {
      var z := z0;
      ghost var c, t := c0, t0;
      steps := 0;
      InsertView(pool[..], root, c, t);
      while pool[pool[z].parent].color == Red
        invariant steps + (if CtxColor(c).Black? then 0 else 1 + Depth(c)) <= 1 + Depth(c0)
        invariant At(c, t) && InsertPoint(c, t) && t.id == z < NIL
        invariant pool[z].parent == CtxId(c) <= NIL && pool[CtxId(c)].color == CtxColor(c)
        invariant SameContent(Plug(c0, t0), Plug(c, t))
        invariant pool[NIL] == old(pool[NIL])
        invariant forall i | 0 <= i <= NIL && i !in Ids(Plug(c, t)) :: pool[i] == old(pool[i])
        decreases if CtxColor(c).Black? then 0 else 1 + Depth(c)
      {
        PlugIds(c, t);
        z, c, t := InsertStep(z, c, t);
        steps := steps + 1;
        InsertView(pool[..], root, c, t);
      }
      t' := BlackenRoot(c, t);
    }

    // ---- deletion ----

    // `x` is the focus, reached through the parent link its node carries. When the focus is
    // empty that node is the shared sentinel, and its parent link is only valid for now.
    ghost predicate Hangs(x: nat, c: Ctx, t: Tree)
      requires pool.Length == NIL + 1
      reads pool
    {
      x == Link(t) <= NIL && pool[x].parent == CtxId(c)
    }

    method SetNephewColor(onLeft: bool, i: nat, k: Color, ghost c: Ctx, ghost t: Tree)
      requires At(c, t) && c.Frame? && c.sib.T? && Near(onLeft, c.sib).T? && Near(onLeft, c.sib).id == i
      modifies pool
      ensures var c' := c.(sib := RecolorChild(onLeft, c.sib, k)); At(c', t) && SameContent(Plug(c, t), Plug(c', t))
      ensures i < NIL && forall j | 0 <= j <= NIL && j != i :: pool[j] == old(pool[j])
    {
      ZipRecolorNephew(pool[..], root, c, t, onLeft, k);
      SiblingContent(c, t, RecolorChild(onLeft, c.sib, k));
      ghost var m := pool[..];
      pool[i] := pool[i].(color := k);
      assert pool[..] == m[i := m[i].(color := k)];
    }

    // Rotating the parent of the focus lifts the sibling above it.
    method LiftSibling(onLeft: bool, p: nat, ghost c: Ctx, ghost t: Tree) returns (ghost c': Ctx)
      requires At(c, t) && c.Frame? && c.sib.T? && onLeft == c.onLeft && p == c.id
      modifies this`root, pool
      ensures var w := c.sib;
              c' == Frame(onLeft, p, c.color, c.area, Near(onLeft, w), Frame(onLeft, w.id, w.color, w.area, Far(onLeft, w), c.up))
      ensures At(c', t) && SameContent(Plug(c, t), Plug(c', t))
      ensures Plug(c', t) == Plug(c.up, RotateTree(onLeft, Mk(onLeft, p, c.color, c.area, t, c.sib)))
      ensures pool[NIL] == old(pool[NIL])
      ensures forall i | 0 <= i <= NIL && i !in Ids(t) && i !in CtxIds(c) :: pool[i] == old(pool[i])
    {
      ghost var w, P := c.sib, Mk(onLeft, p, c.color, c.area, t, c.sib);
      ZipUp(pool[..], root, c, t);
      MkShape(onLeft, p, c.color, c.area, t, w);
      Rotate(onLeft, p, c.up, P);
      ghost var N, F := Near(onLeft, w), Far(onLeft, w);
      ghost var Q := Mk(onLeft, p, c.color, c.area, t, N);
      assert RotateTree(onLeft, P) == Mk(onLeft, w.id, w.color, w.area, Q, F);
      ZipDown(pool[..], root, c.up, onLeft, w.id, w.color, w.area, Q, F);
      ghost var k := Frame(onLeft, w.id, w.color, w.area, F, c.up);
      ZipDown(pool[..], root, k, onLeft, p, c.color, c.area, t, N);
      c' := Frame(onLeft, p, c.color, c.area, N, k);
    }

    // Case 1, red sibling: recolour and rotate so that the sibling becomes black.
    method RotateRedSibling(onLeft: bool, p: nat, w: nat, ghost c: Ctx, ghost t: Tree) returns (ghost c': Ctx)
      requires At(c, t) && DeletePoint(c, t) && c.Frame? && c.sib.T? && !IsBlack(c.sib)
      requires onLeft == c.onLeft && p == c.id && w == c.sib.id
      modifies this`root, pool
      ensures At(c', t) && DeletePoint(c', t) && SameContent(Plug(c, t), Plug(c', t))
      ensures c'.Frame? && c'.onLeft == onLeft && c'.id == p && c'.color.Red? && IsBlack(c'.sib)
      ensures pool[NIL] == old(pool[NIL])
      ensures forall i | 0 <= i <= NIL && i !in Ids(t) && i !in CtxIds(c) :: pool[i] == old(pool[i])
    {
      DeleteRedSibling(c, t);
      SetSiblingColor(w, Black, c, t);
      ghost var k := c.(sib := c.sib.(color := Black));
      SetParentColor(p, Red, k, t);
      k := k.(color := Red);
      assert CtxIds(k) == CtxIds(c);
      c' := LiftSibling(onLeft, p, k, t);
    }

    // Case 3, black sibling with a red near and a black far child: rotate the sibling.
    method RotateNearNephew(onLeft: bool, n: nat, w: nat, ghost c: Ctx, ghost t: Tree) returns (ghost c': Ctx)
      requires At(c, t) && DeletePoint(c, t) && c.Frame? && c.sib.T? && IsBlack(c.sib)
      requires !IsBlack(Near(c.onLeft, c.sib)) && IsBlack(Far(c.onLeft, c.sib))
      requires onLeft == c.onLeft && w == c.sib.id && n == Near(onLeft, c.sib).id
      modifies this`root, pool
      ensures At(c', t) && DeletePoint(c', t) && SameContent(Plug(c, t), Plug(c', t))
      ensures c'.Frame? && c' == c.(sib := c'.sib) && c'.sib.T? && IsBlack(c'.sib) && !IsBlack(Far(onLeft, c'.sib))
      ensures pool[NIL] == old(pool[NIL])
      ensures forall i | 0 <= i <= NIL && i !in Ids(t) && i !in CtxIds(c) :: pool[i] == old(pool[i])
    {
      DeleteNearNephew(c, t);
      ghost var W := RecolorChild(onLeft, c.sib, Black);
      SetNephewColor(onLeft, n, Black, c, t);
      SetSiblingColor(w, Red, c.(sib := W), t);
      W := W.(color := Red);
      ZipOver(pool[..], root, c.(sib := W), t);
      ghost var k := c.(onLeft := !onLeft, sib := t);
      assert Ids(W) == Ids(c.sib);
      Rotate(!onLeft, w, k, W);
      ghost var W' := RotateTree(!onLeft, W);
      ZipOver(pool[..], root, k, W');
      RotateContent(!onLeft, W);
      SiblingContent(c.(sib := W), t, W');
      c' := c.(sib := W');
    }

    // Case 4, black sibling with a red far child: one rotation restores the black height.
    method RotateFarNephew(onLeft: bool, p: nat, w: nat, f: nat, ghost c: Ctx, ghost t: Tree) returns (ghost t': Tree)
      requires At(c, t) && DeletePoint(c, t) && c.Frame? && c.sib.T? && IsBlack(t) && IsBlack(c.sib)
      requires !IsBlack(Far(c.onLeft, c.sib))
      requires onLeft == c.onLeft && p == c.id && w == c.sib.id && f == Far(onLeft, c.sib).id
      modifies this`root, pool
      ensures At(Top, t') && Balanced(t') && t'.T? && SameContent(Plug(c, t), t')
      ensures pool[NIL] == old(pool[NIL])
      ensures forall i | 0 <= i <= NIL && i !in Ids(t) && i !in CtxIds(c) :: pool[i] == old(pool[i])
    {
      DeleteFarNephew(c, t);
      SideByPointer(pool[..], root, c, t);
      ghost var k := c.(sib := c.sib.(color := c.color));
      SetSiblingColor(w, pool[p].color, c, t);
      SetParentColor(p, Black, k, t);
      k := k.(color := Black);
      SetNephewColor(!onLeft, f, Black, k, t);
      ghost var W := RecolorChild(!onLeft, k.sib, Black);
      k := k.(sib := W);
      assert CtxIds(k) == CtxIds(c);
      k := LiftSibling(onLeft, p, k, t);
      PlugZip(pool[..], root, k, t);
      ghost var P := RotateTree(onLeft, Mk(onLeft, p, Black, c.area, t, W));
      PlugBalanced(c.up, P);
      t' := Plug(k, t);
    }

    // What the loop reads around the focus.
    lemma DeleteView(m: Memory, r: nat, c: Ctx, t: Tree)
      requires Zip(m, r, c, t) && DeletePoint(c, t)
      ensures c.Top? <==> r == Link(t)
      ensures r <= NIL && Link(t) <= NIL && m[Link(t)].color.Black? == IsBlack(t)
      ensures c.Frame? ==>
        && c.id < NIL && c.sib.T? && (c.onLeft <==> m[c.id].left == Link(t))
        && m[c.id].color == c.color
        && (if c.onLeft then m[c.id].right else m[c.id].left) == c.sib.id < NIL
        && m[c.sib.id].color == c.sib.color
        && m[c.sib.id].left == Link(c.sib.left) <= NIL && m[c.sib.id].right == Link(c.sib.right) <= NIL
        && m[Link(c.sib.left)].color.Black? == IsBlack(c.sib.left)
        && m[Link(c.sib.right)].color.Black? == IsBlack(c.sib.right)
    {
      RootByPointer(m, c, Link(t));
      assert t.T? ==> t.id in Ids(t);
      if c.Frame? {
        SiblingExists(c, t);
        SideByPointer(m, r, c, t);
        assert RepTree(m, c.sib, c.id);
        assert RepTree(m, c.sib.left, c.sib.id) && RepTree(m, c.sib.right, c.sib.id);
      }
    }

    // Cases 2 to 4, once the sibling is black.
    method DeleteBlackSibling(onLeft: bool, x: nat, p: nat, w0: nat, ghost c: Ctx, ghost t: Tree)
      returns (x': nat, ghost c': Ctx, ghost t': Tree)
      requires At(c, t) && DeletePoint(c, t) && Hangs(x, c, t) && IsBlack(t)
      requires c.Frame? && c.sib.T? && IsBlack(c.sib) && onLeft == c.onLeft && p == c.id && w0 == c.sib.id
      modifies this`root, pool
      ensures At(c', t') && DeletePoint(c', t') && Hangs(x', c', t')
      ensures c'.Top? || (c' == c.up && (c.color.Red? ==> !IsBlack(t')))
      ensures SameContent(Plug(c, t), Plug(c', t'))
      ensures pool[NIL] == old(pool[NIL])
      ensures forall i | 0 <= i <= NIL && i !in Ids(t) && i !in CtxIds(c) :: pool[i] == old(pool[i])
    {
      DeleteView(pool[..], root, c, t);
      var w := w0;
      var near := if onLeft then pool[w].left else pool[w].right;
      var far := if onLeft then pool[w].right else pool[w].left;
      if pool[near].color == Black && pool[far].color == Black {
        DeleteBlackNephews(c, t);
        SetSiblingColor(w, Red, c, t);
        ghost var k := c.(sib := c.sib.(color := Red));
        ZipUp(pool[..], root, k, t);
        x', c', t' := p, c.up, Mk(onLeft, p, c.color, c.area, t, k.sib);
      } else {
        ghost var k := c;
        if pool[far].color == Black {
          k := RotateNearNephew(onLeft, near, w, c, t);
          PlugIds(c, t);
          PlugIds(k, t);
          DeleteView(pool[..], root, k, t);
          w := if onLeft then pool[p].right else pool[p].left;
        }
        DeleteView(pool[..], root, k, t);
        t' := RotateFarNephew(onLeft, p, w, if onLeft then pool[w].right else pool[w].left, k, t);
        x', c' := root, Top;
      }
    }

    method DeleteStep(x: nat, ghost c: Ctx, ghost t: Tree) returns (x': nat, ghost c': Ctx, ghost t': Tree)
      requires At(c, t) && DeletePoint(c, t) && Hangs(x, c, t) && IsBlack(t) && c.Frame?
      modifies this`root, pool
      ensures At(c', t') && DeletePoint(c', t') && Hangs(x', c', t')
      ensures c'.Top? || !IsBlack(t') || Depth(c') < Depth(c)
      ensures SameContent(Plug(c, t), Plug(c', t'))
      ensures pool[NIL] == old(pool[NIL])
      ensures forall i | 0 <= i <= NIL && i !in Ids(t) && i !in CtxIds(c) :: pool[i] == old(pool[i])
    {
      DeleteView(pool[..], root, c, t);
      var p := pool[x].parent;
      var onLeft := x == pool[p].left;
      var w := if onLeft then pool[p].right else pool[p].left;
      ghost var k := c;
      if pool[w].color == Red {
        k := RotateRedSibling(onLeft, p, w, c, t);
        PlugIds(c, t);
        PlugIds(k, t);
        DeleteView(pool[..], root, k, t);
        w := if onLeft then pool[p].right else pool[p].left;
      }
      x', c', t' := DeleteBlackSibling(onLeft, x, p, w, k, t);
    }

    // Blackening the focus pays the missing black node.
    method BlackenFocus(x: nat, ghost c: Ctx, ghost t: Tree) returns (ghost t': Tree)
      requires At(c, t) && DeletePoint(c, t) && x == Link(t) && (c.Top? || !IsBlack(t))
      modifies pool
      ensures At(Top, t') && Balanced(t') && IsBlack(t') && SameContent(Plug(c, t), t')
      ensures forall i | 0 <= i < NIL && i !in Ids(t') :: pool[i] == old(pool[i])
    {
      ghost var m := pool[..];
      DeleteView(m, root, c, t);
      pool[x] := pool[x].(color := Black);
      assert pool[..] == m[x := m[x].(color := Black)];
      if t.T? {
        ghost var t1 := t.(color := Black);
        ZipRecolor(m, root, c, t, Black);
        RecolorContent(c, t, Black);
        PlugIds(c, t);
        PlugZip(pool[..], root, c, t1);
        PlugBalanced(c, t1);
        PlugRootBlack(c, t1);
        t' := Plug(c, t1);
      } else {
        assert pool[..] == m;
        t' := t;
      }
    }

    method DeleteFixup(x0: nat, ghost c0: Ctx, ghost t0: Tree) returns (ghost t': Tree, ghost steps: nat)
      requires At(c0, t0) && DeletePoint(c0, t0) && Hangs(x0, c0, t0)
      modifies this`root, pool
      ensures At(Top, t') && Balanced(t') && IsBlack(t') && SameContent(Plug(c0, t0), t')
      ensures steps <= 1 + Depth(c0)
      ensures forall i | 0 <= i < NIL && i !in Ids(t') :: pool[i] == old(pool[i])
    {
      var x := x0;
      ghost var c, t := c0, t0;
      steps := 0;
      DeleteView(pool[..], root, c, t);
      while x != root && pool[x].color == Black
        invariant steps + (if c.Top? || !IsBlack(t) then 0 else 1 + Depth(c)) <= 1 + Depth(c0)
        invariant At(c, t) && DeletePoint(c, t) && Hangs(x, c, t)
        invariant (c.Top? <==> root == x) && pool[x].color.Black? == IsBlack(t)
        invariant SameContent(Plug(c0, t0), Plug(c, t))
        invariant forall i | 0 <= i < NIL && i !in Ids(Plug(c, t)) :: pool[i] == old(pool[i])
        decreases if c.Top? || !IsBlack(t) then 0 else 1 + Depth(c)
      {
        PlugIds(c, t);
        x, c, t := DeleteStep(x, c, t);
        steps := steps + 1;
        DeleteView(pool[..], root, c, t);
      }
      t' := BlackenFocus(x, c, t);
    }
  }
}
