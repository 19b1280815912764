// Linking a node in, cutting a node out, and letting one node take another's place.
module RbSplice {
  import opened VmaSpec
  import opened RbShape
  import opened RbBalance

  // ---- linking in ----

  ghost predicate LinkedIn(m: Memory, m': Memory, c: Ctx, z: nat, a: Area) {
    && |m| == |m'| == NIL + 1 && z < NIL
    && m'[z] == Node(a, Red, CtxId(c), NIL, NIL)
    && (c.Frame? ==> c.id < NIL && m'[c.id] == SetNear(c.onLeft, m[c.id], z))
    && (forall i | 0 <= i <= NIL && i != z && i != CtxId(c) :: m'[i] == m[i])
    && m'[NIL] == m[NIL]
  }

  lemma ZipLinkIn(m: Memory, m': Memory, root: nat, c: Ctx, z: nat, a: Area)
    requires Zip(m, root, c, Leaf) && LinkedIn(m, m', c, z, a) && z !in CtxIds(c)
    ensures Zip(m', RootLink(c, z), c, T(z, Red, a, Leaf, Leaf))
  {
    CtxIdsBelowNil(m, c, NIL);
    CtxRelink(m, m', c, NIL, z);
  }

  // ---- cutting out ----

  // `v` takes u's place below p; v may be the sentinel, whose parent link is then p.
  ghost predicate Transplanted(m: Memory, m': Memory, u: nat, v: nat, p: nat) {
    && |m| == |m'| == NIL + 1 && u < NIL && v <= NIL && p <= NIL && (p != NIL ==> p != v)
    && m'[v] == m[v].(parent := p)
    && (p != NIL ==> m'[p] == SetNear(m[p].left == u, m[p], v))
    && (forall i | 0 <= i <= NIL && i != v && (i != p || p == NIL) :: m'[i] == m[i])
  }

  // The only child of a node with at most one child.
  function OnlyChild(t: Tree): Tree
    requires t.T?
  {
    if t.left.Leaf? then t.right else t.left
  }

  lemma SpliceNodes(m: Memory, root: nat, c: Ctx, t: Tree)
    requires Zip(m, root, c, t) && t.T? && (t.left.Leaf? || t.right.Leaf?)
    ensures var v := Link(OnlyChild(t));
      && t.id < NIL && v <= NIL && v != t.id && v !in CtxIds(c) && m[t.id].parent == CtxId(c) <= NIL
      && (c.Frame? ==> c.id != t.id && c.id != v && c.id < NIL && c.id in CtxIds(c))
      && (c.Frame? ==> (c.onLeft <==> m[c.id].left == t.id) && (c.onLeft <==> m[c.id].right != t.id))
      && (OnlyChild(t).T? ==> OnlyChild(t).id in Ids(t))
  {
    var x := OnlyChild(t);
    assert RepTree(m, x, t.id);
    assert x.T? ==> x.id in Ids(x);
    CtxIdsBelowNil(m, c, t.id);
    if c.Frame? {
      SideByPointer(m, root, c, t);
    }
  }

  lemma ZipSplice(m: Memory, m': Memory, root: nat, c: Ctx, t: Tree)
    requires Zip(m, root, c, t) && t.T? && (t.left.Leaf? || t.right.Leaf?)
    requires Transplanted(m, m', t.id, Link(OnlyChild(t)), CtxId(c))
    ensures Zip(m', RootLink(c, Link(OnlyChild(t))), c, OnlyChild(t))
    ensures m'[Link(OnlyChild(t))].parent == CtxId(c)
  {
    var x := OnlyChild(t);
    SpliceNodes(m, root, c, t);
    assert RepTree(m, x, t.id);
    IdsBelowNil(m, x, t.id);
    CtxIdsBelowNil(m, c, t.id);
    TreeReparent(m, m', x, t.id, CtxId(c));
    CtxRelink(m, m', c, t.id, Link(x));
  }

  // ---- taking another node's place ----

  ghost predicate Replaced(m: Memory, m': Memory, c: Ctx, y: nat, k: Color, a: Area, l: Tree, r: Tree) {
    && |m| == |m'| == NIL + 1 && y < NIL && m'[NIL].color == Black
    && m'[y] == Node(a, k, CtxId(c), Link(l), Link(r))
    && (l.T? ==> l.id < NIL && m'[l.id] == m[l.id].(parent := y))
    && (r.T? ==> r.id < NIL && m'[r.id] == m[r.id].(parent := y))
    && (c.Frame? ==> c.id < NIL && m'[c.id] == SetNear(c.onLeft, m[c.id], y))
    && (forall i | 0 <= i < NIL && i != y && i != Link(l) && i != Link(r) && i != CtxId(c) :: m'[i] == m[i])
  }

  lemma ZipReplace(m: Memory, m': Memory, c: Ctx, z: nat, y: nat, k: Color, a: Area, l: Tree, r: Tree, q: nat)
    requires RepTree(m, l, z) && RepTree(m, r, q) && RepCtx(m, c, z)
    requires SepTree(l) && SepTree(r) && SepCtx(c)
    requires Ids(l) !! Ids(r) && Ids(l) !! CtxIds(c) && Ids(r) !! CtxIds(c)
    requires y !in Ids(l) && y !in Ids(r) && y !in CtxIds(c)
    requires Replaced(m, m', c, y, k, a, l, r)
    ensures Zip(m', RootLink(c, y), c, T(y, k, a, l, r))
  {
    ReplaceChild(m, m', c, y, k, a, l, r, l, z);
    ReplaceChild(m, m', c, y, k, a, l, r, r, q);
    ReplaceCtx(m, m', c, z, y, k, a, l, r);
    ZipIntro(m', c, T(y, k, a, l, r));
  }

  lemma ZipIntro(m: Memory, c: Ctx, t: Tree)
    requires t.T? && t.id < NIL && |m| == NIL + 1 && m[NIL].color == Black
    requires m[t.id] == Node(t.area, t.color, CtxId(c), Link(t.left), Link(t.right))
    requires RepTree(m, t.left, t.id) && RepTree(m, t.right, t.id) && RepCtx(m, c, t.id)
    requires SepTree(t.left) && SepTree(t.right) && SepCtx(c)
    requires Ids(t.left) !! Ids(t.right) && Ids(t.left) !! CtxIds(c) && Ids(t.right) !! CtxIds(c)
    requires t.id !in Ids(t.left) && t.id !in Ids(t.right) && t.id !in CtxIds(c)
    ensures Zip(m, RootLink(c, t.id), c, t)
  {
  }

  lemma ReplaceChild(m: Memory, m': Memory, c: Ctx, y: nat, k: Color, a: Area, l: Tree, r: Tree, t: Tree, q: nat)
    requires RepTree(m, t, q) && SepTree(t) && y !in Ids(t)
    requires Replaced(m, m', c, y, k, a, l, r)
    requires (t == l && Ids(r) !! Ids(t)) || (t == r && Ids(l) !! Ids(t))
    requires Ids(t) !! CtxIds(c)
    ensures RepTree(m', t, y)
  {
    IdsBelowNil(m, t, q);
    assert l.T? ==> l.id in Ids(l);
    assert r.T? ==> r.id in Ids(r);
    assert c.Frame? ==> c.id in CtxIds(c);
    TreeReparent(m, m', t, q, y);
  }

  lemma ReplaceCtx(m: Memory, m': Memory, c: Ctx, z: nat, y: nat, k: Color, a: Area, l: Tree, r: Tree)
    requires RepCtx(m, c, z) && SepCtx(c) && y !in CtxIds(c)
    requires Ids(l) !! CtxIds(c) && Ids(r) !! CtxIds(c)
    requires Replaced(m, m', c, y, k, a, l, r)
    ensures RepCtx(m', c, y)
  {
    CtxIdsBelowNil(m, c, z);
    assert l.T? ==> l.id in Ids(l);
    assert r.T? ==> r.id in Ids(r);
    CtxRelink(m, m', c, z, y);
  }

  // ---- a run of left turns below a frame ----

  function Append(d: Ctx, c: Ctx): Ctx {
    if d.Top? then c else d.(up := Append(d.up, c))
  }

  ghost predicate AllLeft(d: Ctx) {
    d.Frame? ==> d.onLeft && AllLeft(d.up)
  }

  lemma {:induction false} AppendPlug(d: Ctx, c: Ctx, t: Tree)
    ensures Plug(Append(d, c), t) == Plug(c, Plug(d, t))
    decreases d
  {
    if d.Frame? {
      AppendPlug(d.up, c, Mk(d.onLeft, d.id, d.color, d.area, t, d.sib));
    }
  }

  lemma {:induction false} ZipUpAppend(m: Memory, root: nat, d: Ctx, c: Ctx, t: Tree)
    requires Zip(m, root, Append(d, c), t)
    ensures Zip(m, root, c, Plug(d, t))
    decreases d
  {
    if d.Frame? {
      ZipUp(m, root, Append(d, c), t);
      ZipUpAppend(m, root, d.up, c, Mk(d.onLeft, d.id, d.color, d.area, t, d.sib));
    }
  }

  lemma {:induction false} ZipDownAppend(m: Memory, root: nat, d: Ctx, c: Ctx, t: Tree)
    requires Zip(m, root, c, Plug(d, t))
    ensures Zip(m, root, Append(d, c), t)
    decreases d
  {
    if d.Frame? {
      ZipDownAppend(m, root, d.up, c, Mk(d.onLeft, d.id, d.color, d.area, t, d.sib));
      ZipDown(m, root, Append(d.up, c), d.onLeft, d.id, d.color, d.area, t, d.sib);
    }
  }

  lemma {:induction false} AllLeftListing(d: Ctx, t: Tree)
    requires AllLeft(d)
    ensures Areas(Plug(d, t)) == Areas(t) + After(d)
    ensures Before(d) == []
  {
    PlugAreas(d, t);
    if d.Frame? {
      AllLeftListing(d.up, t);
    }
    assert [] + Areas(t) == Areas(t);
  }

  // Giving the frame at the end of the run another id and range changes no colour.
  lemma {:induction false} AppendBalanced(d: Ctx, c: Ctx, c': Ctx, h: nat)
    requires c.Frame? && c'.Frame? && c' == c.(id := c'.id, area := c'.area)
    requires CtxBalanced(Append(d, c), h) && RootBlack(Append(d, c))
    ensures CtxBalanced(Append(d, c'), h) && RootBlack(Append(d, c'))
    ensures CtxColor(Append(d, c')) == CtxColor(Append(d, c))
    decreases d
  {
    if d.Frame? {
      assert Append(d, c).up == Append(d.up, c);
      AppendBalanced(d.up, c, c', h + Weight(d.color));
    }
  }

  // The listing before and after the successor `y` takes the place of `z`.
  lemma SuccessorListing(c: Ctx, z: Tree, d: Ctx, y: Tree)
    requires z.T? && y.T? && y.left.Leaf? && AllLeft(d) && z.right == Plug(d, y)
    ensures var t' := T(y.id, z.color, y.area, z.left, Plug(d, y.right));
            var pre := Before(c) + Areas(z.left);
            var post := Areas(z.right) + After(c);
            Areas(Plug(c, z)) == pre + [z.area] + post && Areas(Plug(c, t')) == pre + post
  {
    var t' := T(y.id, z.color, y.area, z.left, Plug(d, y.right));
    AllLeftListing(d, y);
    AllLeftListing(d, y.right);
    LeftmostListing(y);
    PlugAreas(c, z);
    PlugAreas(c, t');
    SuccessorRegroup(Before(c), Areas(z.left), z.area, y.area, Areas(y.right), After(d), After(c));
  }

  lemma LeftmostListing(y: Tree)
    requires y.T? && y.left.Leaf?
    ensures Areas(y) == [y.area] + Areas(y.right)
  {
    assert [] + [y.area] == [y.area];
  }

  lemma SuccessorRegroup(B: seq<Area>, L: seq<Area>, z: Area, y: Area, R: seq<Area>, D: seq<Area>, A: seq<Area>)
    ensures B + (L + [z] + ([y] + R + D)) + A == B + L + [z] + ([y] + R + D + A)
    ensures B + (L + [y] + (R + D)) + A == B + L + ([y] + R + D + A)
  {
    Regroup(B, L, z, [y] + R + D, A);
    Regroup(B, L, y, R + D, A);
    assert [y] + (R + D + A) == [y] + R + D + A;
    assert B + L + [y] + (R + D + A) == B + L + ([y] + (R + D + A));
  }

  lemma Regroup(B: seq<Area>, L: seq<Area>, z: Area, S: seq<Area>, A: seq<Area>)
    ensures B + (L + [z] + S) + A == B + L + [z] + (S + A)
  {
  }

  lemma SpliceListing(c: Ctx, z: Tree)
    requires z.T? && (z.left.Leaf? || z.right.Leaf?)
    ensures var pre := Before(c) + Areas(z.left);
            var post := Areas(z.right) + After(c);
            Areas(Plug(c, z)) == pre + [z.area] + post && Areas(Plug(c, OnlyChild(z))) == pre + post
  {
    PlugAreas(c, z);
    PlugAreas(c, OnlyChild(z));
    Regroup(Before(c), Areas(z.left), z.area, Areas(z.right), After(c));
    if z.left.Leaf? {
      assert Before(c) + [] == Before(c);
      assert Before(c) + Areas(z.right) + After(c) == Before(c) + (Areas(z.right) + After(c));
    } else {
      assert [] + After(c) == After(c);
    }
  }

  // ---- balance after the removal of one node ----

  // Cutting out a node with at most one child leaves a short subtree if the node was black.
  lemma SpliceBalance(c: Ctx, t: Tree)
    requires t.T? && (t.left.Leaf? || t.right.Leaf?)
    requires Balanced(Plug(c, t)) && IsBlack(Plug(c, t))
    ensures t.color.Black? ==> DeletePoint(c, OnlyChild(t))
    ensures t.color.Red? ==> Balanced(Plug(c, OnlyChild(t))) && IsBlack(Plug(c, OnlyChild(t)))
  {
    var x := OnlyChild(t);
    UnplugBalanced(c, t);
    if t.color.Red? {
      PlugBalanced(c, x);
      PlugRootBlack(c, x);
    }
  }

  // The successor `y` inherits the colour and place of `z`; its own place is closed up.
  lemma SuccessorBalance(c: Ctx, z: Tree, d: Ctx, y: Tree)
    requires z.T? && y.T? && y.left.Leaf? && z.right == Plug(d, y)
    requires Balanced(Plug(c, z)) && IsBlack(Plug(c, z))
    ensures var k := Append(d, Frame(false, y.id, z.color, y.area, z.left, c));
      && Plug(k, y.right) == Plug(c, T(y.id, z.color, y.area, z.left, Plug(d, y.right)))
      && (y.color.Black? ==> DeletePoint(k, y.right))
      && (y.color.Red? ==> Balanced(Plug(k, y.right)) && IsBlack(Plug(k, y.right)))
  {
    var f := Frame(false, z.id, z.color, z.area, z.left, c);
    var f' := Frame(false, y.id, z.color, y.area, z.left, c);
    AppendPlug(d, f, y);
    AppendPlug(d, f', y.right);
    UnplugBalanced(Append(d, f), y);
    AppendBalanced(d, f, f', BlackHeight(y));
    if y.color.Red? {
      PlugBalanced(Append(d, f'), y.right);
      PlugRootBlack(Append(d, f'), y.right);
    }
  }

  lemma {:induction false} PlugRoot(d: Ctx, t: Tree, t': Tree)
    requires d.Frame?
    ensures Plug(d, t).T? && Plug(d, t').T? && Plug(d, t).id == Plug(d, t').id
    decreases d
  {
    if d.up.Frame? {
      PlugRoot(d.up, Mk(d.onLeft, d.id, d.color, d.area, t, d.sib), Mk(d.onLeft, d.id, d.color, d.area, t', d.sib));
    }
  }

  // ---- the successor and the node it replaces ----

  lemma {:induction false} PlugSep(d: Ctx, t: Tree)
    requires SepTree(Plug(d, t))
    ensures SepTree(t) && SepCtx(d) && Ids(t) !! CtxIds(d)
    decreases d
  {
    if d.Frame? {
      MkShape(d.onLeft, d.id, d.color, d.area, t, d.sib);
      PlugSep(d.up, Mk(d.onLeft, d.id, d.color, d.area, t, d.sib));
    }
  }

  // What keeps the successor `yt`, its run of ancestors `d` and the rest of the tree apart.
  lemma SuccessorApart(t: Tree, d: Ctx, yt: Tree)
    requires t.T? && yt.T? && t.right == Plug(d, yt) && yt.left.Leaf? && SepTree(t)
    ensures var R := Plug(d, yt.right);
      && Ids(t.right) == Ids(R) + {yt.id} && yt.id !in Ids(R)
      && (d.Frame? ==> R.T? && t.right.T? && R.id == t.right.id && d.id in Ids(R) && R.id !in Ids(yt) && d.id !in Ids(yt))
  {
    PlugIds(d, yt);
    PlugIds(d, yt.right);
    PlugSep(d, yt);
    if d.Frame? {
      PlugRoot(d, yt, yt.right);
      PlugRootInCtx(d, yt);
    }
  }

  function RightFrame(c: Ctx, t: Tree): Ctx
    requires t.T?
  {
    Frame(false, t.id, t.color, t.area, t.left, c)
  }

  lemma {:induction false} PlugRootInCtx(d: Ctx, t: Tree)
    requires d.Frame?
    ensures Plug(d, t).T? && Plug(d, t).id in CtxIds(d)
    decreases d
  {
    if d.up.Frame? {
      PlugRootInCtx(d.up, Mk(d.onLeft, d.id, d.color, d.area, t, d.sib));
    }
  }

  // What is in place before `y` moves into the node `z`: z's left subtree, the right subtree
  // `R` already hanging from y, and the context still pointing at z.
  ghost predicate Detached(m: Memory, z: nat, y: nat, c: Ctx, t: Tree, R: Tree, a: Area) {
    && |m| == NIL + 1 && z < NIL && y < NIL && m[NIL].color == Black
    && RepTree(m, t, z) && RepTree(m, R, y) && RepCtx(m, c, z) && SepTree(R)
    && m[z].left == Link(t) && m[z].parent == CtxId(c)
    && m[y].right == Link(R) && m[y].area == a
  }

  // y is z's own right child.
  lemma DetachChild(m: Memory, m': Memory, root: nat, c: Ctx, t: Tree, yt: Tree)
    requires t.T? && yt.T? && yt.left.Leaf? && t.right == yt
    requires Zip(m, root, RightFrame(c, t), yt)
    requires |m'| == |m| && m'[NIL].color == Black && forall i | 0 <= i < NIL :: m'[i] == m[i]
    ensures Detached(m', t.id, yt.id, c, t.left, yt.right, yt.area)
  {
    IdsBelowNil(m, t.left, t.id);
    IdsBelowNil(m, yt, t.id);
    CtxIdsBelowNil(m, c, t.id);
    TreeFrame(m, m', t.left, t.id);
    TreeFrame(m, m', yt.right, yt.id);
    CtxFrame(m, m', c, t.id);
  }

  lemma ZipSuccessor(m: Memory, root: nat, c: Ctx, t: Tree, d: Ctx, yt: Tree)
    requires t.T? && t.right == Plug(d, yt) && Zip(m, root, Append(d, RightFrame(c, t)), yt)
    ensures Zip(m, root, c, t)
  {
    ZipUpAppend(m, root, d, RightFrame(c, t), yt);
    ZipUp(m, root, RightFrame(c, t), t.right);
  }

  // The memory at the successor `y`, its parent `p` and its child `x`.
  lemma SuccessorNodes(m: Memory, root: nat, c: Ctx, t: Tree, d: Ctx, yt: Tree)
    requires t.T? && yt.T? && yt.left.Leaf? && t.right == Plug(d, yt)
    requires Zip(m, root, Append(d, RightFrame(c, t)), yt) && Zip(m, root, c, t)
    ensures var y, x := yt.id, Link(yt.right);
            var p := if d.Top? then t.id else d.id;
      && y < NIL && x <= NIL && p < NIL && y != t.id && x != y && x != p && p != y && (d.Frame? ==> p != t.id)
      && m[y] == Node(yt.area, yt.color, p, NIL, x)
      && (m[p].left == y) != (m[p].right == y)
      && y in Ids(t) && p in Ids(t) && (x != NIL ==> x in Ids(t) && m[x].parent == y)
      && m[t.id] == Node(t.area, t.color, CtxId(c), Link(t.left), Link(t.right))
      && Link(t.right) < NIL && Link(t.right) in Ids(t) && (d.Frame? ==> Link(t.right) != y)
  {
    SuccessorApart(t, d, yt);
    assert RepTree(m, t.right, t.id);
    assert t.right.T? && t.right.id in Ids(t.right);
    SpliceNodes(m, root, Append(d, RightFrame(c, t)), yt);
    assert RepTree(m, yt.right, yt.id);
    assert yt.right.T? ==> yt.right.id in Ids(yt) && (d.Top? ==> yt.right.id in Ids(t.right));
    PlugIds(d, yt);
    assert Ids(t) == {t.id} + Ids(t.left) + Ids(t.right);
  }

  // y lies deeper: it has been transplanted away ...
  lemma DetachSplice(m: Memory, m1: Memory, root: nat, c: Ctx, t: Tree, d: Ctx, yt: Tree)
    requires t.T? && yt.T? && yt.left.Leaf? && t.right == Plug(d, yt) && d.Frame?
    requires Zip(m, root, Append(d, RightFrame(c, t)), yt)
    requires Transplanted(m, m1, yt.id, Link(yt.right), d.id)
    ensures var R := Plug(d, yt.right);
      && RepTree(m1, R, t.id) && RepCtx(m1, c, t.id) && RepTree(m1, t.left, t.id) && SepTree(R)
      && t.id < NIL && m1[t.id].left == Link(t.left) && m1[t.id].parent == CtxId(c)
      && m1[Link(yt.right)].parent == d.id && m1[NIL].color == Black && m1[yt.id] == m[yt.id]
  {
    var f := RightFrame(c, t);
    SpliceNodes(m, root, Append(d, f), yt);
    ZipSplice(m, m1, root, Append(d, f), yt);
    ZipUpAppend(m1, RootLink(Append(d, f), Link(yt.right)), d, f, yt.right);
  }

  // ... and then given z's right subtree.
  lemma DetachGraft(m1: Memory, m2: Memory, c: Ctx, z: nat, l: Tree, R: Tree, y: nat, a: Area)
    requires |m1| == NIL + 1 && z < NIL && y < NIL && R.T? && R.id < NIL && y != R.id && y != z && z != R.id
    requires RepTree(m1, R, z) && RepCtx(m1, c, z) && RepTree(m1, l, z) && SepTree(R)
    requires m1[z].left == Link(l) && m1[z].parent == CtxId(c) && m1[NIL].color == Black && m1[y].area == a
    requires y !in Ids(R) && y !in Ids(l) && y !in CtxIds(c) && Ids(R) !! Ids(l) && Ids(R) !! CtxIds(c)
    requires m2 == m1[y := m1[y].(right := R.id)][R.id := m1[R.id].(parent := y)]
    ensures Detached(m2, z, y, c, l, R, a)
  {
    assert R.id in Ids(R);
    TreeFrame(m1, m2, l, z);
    CtxFrame(m1, m2, c, z);
    TreeReparent(m1, m2, R, z, y);
  }

  lemma DetachDeep(m: Memory, m1: Memory, m2: Memory, root: nat, c: Ctx, t: Tree, d: Ctx, yt: Tree)
    requires t.T? && yt.T? && yt.left.Leaf? && t.right == Plug(d, yt) && d.Frame?
    requires Zip(m, root, Append(d, RightFrame(c, t)), yt) && Zip(m, root, c, t)
    requires Transplanted(m, m1, yt.id, Link(yt.right), d.id)
    requires var r, y := Link(t.right), yt.id;
             r < NIL && y < NIL && r != y && m2 == m1[y := m1[y].(right := r)][r := m1[r].(parent := y)]
    ensures Detached(m2, t.id, yt.id, c, t.left, Plug(d, yt.right), yt.area)
    ensures m2[Link(yt.right)].parent == d.id
  {
    var R, y := Plug(d, yt.right), yt.id;
    DeepFacts(m, root, c, t, d, yt);
    DetachSplice(m, m1, root, c, t, d, yt);
    DetachGraft(m1, m2, c, t.id, t.left, R, y, yt.area);
  }

  // Where the successor, the top of the subtree it leaves and its own child stand.
  lemma DeepFacts(m: Memory, root: nat, c: Ctx, t: Tree, d: Ctx, yt: Tree)
    requires t.T? && yt.T? && yt.left.Leaf? && t.right == Plug(d, yt) && d.Frame?
    requires Zip(m, root, Append(d, RightFrame(c, t)), yt) && Zip(m, root, c, t)
    ensures var R, y := Plug(d, yt.right), yt.id;
      && R.T? && R.id == Link(t.right) && R.id < NIL && y != R.id && y != t.id && t.id != R.id
      && y !in Ids(R) && y !in Ids(t.left) && y !in CtxIds(c) && Ids(R) !! Ids(t.left) && Ids(R) !! CtxIds(c)
      && Link(yt.right) != R.id && Link(yt.right) != y
  {
    SuccessorApart(t, d, yt);
    SuccessorNodes(m, root, c, t, d, yt);
    var R := Plug(d, yt.right);
    assert R.id in Ids(R) && R.id in Ids(t.right);
    assert yt.right.T? ==> yt.right.id in Ids(yt);
  }
}
