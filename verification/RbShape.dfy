// Shape of the red-black store: a node memory with parent links and one shared NIL
// sentinel, the mathematical tree it represents, and a zipper for the point at which
// the fix-up loops work.
module RbShape {
  import opened VmaSpec

  const NIL: nat := CAPACITY        // index of the shared sentinel
  const NULL: nat := CAPACITY + 1   // end of the free list; never dereferenced

  datatype Color = Red | Black

  datatype Node = Node(area: Area, color: Color, parent: nat, left: nat, right: nat)

  type Memory = seq<Node>

  datatype Tree = Leaf | T(id: nat, color: Color, area: Area, left: Tree, right: Tree)

  // The path from a subtree up to the root. `onLeft` tells which child the hole is.
  datatype Ctx = Top | Frame(onLeft: bool, id: nat, color: Color, area: Area, sib: Tree, up: Ctx)

  // A tree node and a memory node written relative to a direction: `near` is the left
  // child when `onLeft` holds, the right child otherwise.
  function Mk(onLeft: bool, id: nat, color: Color, area: Area, near: Tree, far: Tree): Tree {
    if onLeft then T(id, color, area, near, far) else T(id, color, area, far, near)
  }

  function Near(onLeft: bool, t: Tree): Tree
    requires t.T?
  {
    if onLeft then t.left else t.right
  }

  function Far(onLeft: bool, t: Tree): Tree
    requires t.T?
  {
    if onLeft then t.right else t.left
  }

  function MkNode(onLeft: bool, area: Area, color: Color, parent: nat, near: nat, far: nat): Node {
    if onLeft then Node(area, color, parent, near, far) else Node(area, color, parent, far, near)
  }

  function SetNear(onLeft: bool, n: Node, child: nat): Node {
    if onLeft then n.(left := child) else n.(right := child)
  }

  function Link(t: Tree): nat {
    if t.Leaf? then NIL else t.id
  }

  function CtxId(c: Ctx): nat {
    if c.Top? then NIL else c.id
  }

  function RootLink(c: Ctx, hole: nat): nat {
    if c.Top? then hole else RootLink(c.up, c.id)
  }

  function Plug(c: Ctx, t: Tree): Tree {
    if c.Top? then t else Plug(c.up, Mk(c.onLeft, c.id, c.color, c.area, t, c.sib))
  }

  function Depth(c: Ctx): nat {
    if c.Top? then 0 else 1 + Depth(c.up)
  }

  ghost function Ids(t: Tree): set<nat> {
    if t.Leaf? then {} else {t.id} + Ids(t.left) + Ids(t.right)
  }

  ghost function CtxIds(c: Ctx): set<nat> {
    if c.Top? then {} else {c.id} + Ids(c.sib) + CtxIds(c.up)
  }

  function Areas(t: Tree): seq<Area> {
    if t.Leaf? then [] else Areas(t.left) + [t.area] + Areas(t.right)
  }

  // The ranges listed before and after the hole by an in-order traversal.
  function Before(c: Ctx): seq<Area> {
    if c.Top? then [] else if c.onLeft then Before(c.up) else Before(c.up) + Areas(c.sib) + [c.area]
  }

  function After(c: Ctx): seq<Area> {
    if c.Top? then [] else if c.onLeft then [c.area] + Areas(c.sib) + After(c.up) else After(c.up)
  }

  // Node `i` of the memory holds exactly the fields of the tree node, its parent link
  // included, and so on for the whole subtree.
  ghost predicate RepTree(m: Memory, t: Tree, parent: nat) {
    t.T? ==>
      && t.id < NIL < |m|
      && m[t.id] == Node(t.area, t.color, parent, Link(t.left), Link(t.right))
      && RepTree(m, t.left, t.id)
      && RepTree(m, t.right, t.id)
  }

  ghost predicate RepCtx(m: Memory, c: Ctx, hole: nat) {
    c.Frame? ==>
      && c.id < NIL < |m|
      && m[c.id] == MkNode(c.onLeft, c.area, c.color, CtxId(c.up), hole, Link(c.sib))
      && RepTree(m, c.sib, c.id)
      && RepCtx(m, c.up, c.id)
  }

  ghost predicate SepTree(t: Tree) {
    t.T? ==>
      && t.id !in Ids(t.left) && t.id !in Ids(t.right)
      && Ids(t.left) !! Ids(t.right)
      && SepTree(t.left) && SepTree(t.right)
  }

  ghost predicate SepCtx(c: Ctx) {
    c.Frame? ==>
      && c.id !in Ids(c.sib) && c.id !in CtxIds(c.up)
      && Ids(c.sib) !! CtxIds(c.up)
      && SepTree(c.sib) && SepCtx(c.up)
  }

  // The memory represents tree `t` sitting in context `c`, with `root` as tree root.
  ghost predicate Zip(m: Memory, root: nat, c: Ctx, t: Tree) {
    && |m| == NIL + 1
    && m[NIL].color == Black
    && root == RootLink(c, Link(t))
    && RepTree(m, t, CtxId(c)) && RepCtx(m, c, Link(t))
    && SepTree(t) && SepCtx(c) && Ids(t) !! CtxIds(c)
  }

  lemma {:induction false} IdsBelowNil(m: Memory, t: Tree, parent: nat)
    requires RepTree(m, t, parent)
    ensures forall i <- Ids(t) :: i < NIL
  {
    if t.T? {
      IdsBelowNil(m, t.left, t.id);
      IdsBelowNil(m, t.right, t.id);
    }
  }

  lemma {:induction false} CtxIdsBelowNil(m: Memory, c: Ctx, hole: nat)
    requires RepCtx(m, c, hole)
    ensures forall i <- CtxIds(c) :: i < NIL
  {
    if c.Frame? {
      IdsBelowNil(m, c.sib, c.id);
      CtxIdsBelowNil(m, c.up, c.id);
    }
  }

  // A subtree only depends on its own nodes.
  lemma {:induction false} TreeFrame(m: Memory, m': Memory, t: Tree, parent: nat)
    requires RepTree(m, t, parent) && |m| == |m'|
    requires forall i <- Ids(t) | i < |m| :: m'[i] == m[i]
    ensures RepTree(m', t, parent)
  {
    if t.T? {
      TreeFrame(m, m', t.left, t.id);
      TreeFrame(m, m', t.right, t.id);
    }
  }

  lemma {:induction false} CtxFrame(m: Memory, m': Memory, c: Ctx, hole: nat)
    requires RepCtx(m, c, hole) && |m| == |m'|
    requires forall i <- CtxIds(c) | i < |m| :: m'[i] == m[i]
    ensures RepCtx(m', c, hole)
  {
    if c.Frame? {
      TreeFrame(m, m', c.sib, c.id);
      CtxFrame(m, m', c.up, c.id);
    }
  }

  // Rehanging the hole of a context: only the parent's child pointer (or the root) moves.
  lemma CtxRelink(m: Memory, m': Memory, c: Ctx, hole: nat, hole': nat)
    requires RepCtx(m, c, hole) && |m| == |m'| == NIL + 1 && SepCtx(c)
    requires c.Frame? && c.id < |m| ==> m'[c.id] == SetNear(c.onLeft, m[c.id], hole')
    requires forall i <- CtxIds(c) | i < |m| && i != CtxId(c) :: m'[i] == m[i]
    ensures RepCtx(m', c, hole')
  {
    if c.Frame? {
      TreeFrame(m, m', c.sib, c.id);
      CtxFrame(m, m', c.up, c.id);
    }
  }

  // Rehanging a subtree: only its root's parent link moves.
  lemma TreeReparent(m: Memory, m': Memory, t: Tree, parent: nat, parent': nat)
    requires RepTree(m, t, parent) && |m| == |m'| == NIL + 1 && SepTree(t)
    requires t.T? && t.id < |m| ==> m'[t.id] == m[t.id].(parent := parent')
    requires forall i <- Ids(t) | i < |m| && i != Link(t) :: m'[i] == m[i]
    ensures RepTree(m', t, parent')
  {
    if t.T? {
      TreeFrame(m, m', t.left, t.id);
      TreeFrame(m, m', t.right, t.id);
    }
  }

  lemma MkShape(onLeft: bool, id: nat, color: Color, area: Area, near: Tree, far: Tree)
    ensures Ids(Mk(onLeft, id, color, area, near, far)) == {id} + Ids(near) + Ids(far)
    ensures var t := Mk(onLeft, id, color, area, near, far);
            SepTree(t) <==> id !in Ids(near) && id !in Ids(far) && Ids(near) !! Ids(far) && SepTree(near) && SepTree(far)
  {
  }

  // Moving the focus one level up or down describes the same memory.
  lemma ZipUp(m: Memory, root: nat, c: Ctx, t: Tree)
    requires Zip(m, root, c, t) && c.Frame?
    ensures Zip(m, root, c.up, Mk(c.onLeft, c.id, c.color, c.area, t, c.sib))
  {
    MkShape(c.onLeft, c.id, c.color, c.area, t, c.sib);
  }

  lemma ZipDown(m: Memory, root: nat, c: Ctx, onLeft: bool, id: nat, color: Color, area: Area, near: Tree, far: Tree)
    requires Zip(m, root, c, Mk(onLeft, id, color, area, near, far))
    ensures Zip(m, root, Frame(onLeft, id, color, area, far, c), near)
  {
    MkShape(onLeft, id, color, area, near, far);
  }

  // A node is never its sibling: pointer equality with the parent's child tells the side,
  // even when the node is the sentinel, provided the sibling is a real node.
  lemma SideByPointer(m: Memory, root: nat, c: Ctx, t: Tree)
    requires Zip(m, root, c, t) && c.Frame? && (t.T? || c.sib.T?)
    ensures c.id < NIL
    ensures m[c.id].left == Link(t) <==> c.onLeft
    ensures m[c.id].right == Link(t) <==> !c.onLeft
  {
    IdsBelowNil(m, t, c.id);
    IdsBelowNil(m, c.sib, c.id);
    assert t.T? ==> t.id in Ids(t);
    assert c.sib.T? ==> c.sib.id in CtxIds(c) && c.sib.id in Ids(c.sib);
  }

  // The focus is the tree root exactly when the context is empty.
  lemma {:induction false} RootByPointer(m: Memory, c: Ctx, hole: nat)
    requires RepCtx(m, c, hole)
    ensures c.Frame? ==> RootLink(c, hole) in CtxIds(c) && RootLink(c, hole) < NIL
  {
    if c.Frame? {
      RootByPointer(m, c.up, c.id);
    }
  }

  // Recolouring the focused node.
  lemma ZipRecolor(m: Memory, root: nat, c: Ctx, t: Tree, k: Color)
    requires Zip(m, root, c, t) && t.T?
    ensures Zip(m[t.id := m[t.id].(color := k)], root, c, t.(color := k))
  {
    var m' := m[t.id := m[t.id].(color := k)];
    TreeFrame(m, m', t.left, t.id);
    TreeFrame(m, m', t.right, t.id);
    CtxFrame(m, m', c, t.id);
  }

  // Recolouring the parent or the sibling of the focus.
  lemma ZipRecolorParent(m: Memory, root: nat, c: Ctx, t: Tree, k: Color)
    requires Zip(m, root, c, t) && c.Frame?
    ensures c.id < NIL && Zip(m[c.id := m[c.id].(color := k)], root, c.(color := k), t)
  {
    var m' := m[c.id := m[c.id].(color := k)];
    TreeFrame(m, m', t, c.id);
    TreeFrame(m, m', c.sib, c.id);
    CtxFrame(m, m', c.up, c.id);
  }

  lemma ZipRecolorSibling(m: Memory, root: nat, c: Ctx, t: Tree, k: Color)
    requires Zip(m, root, c, t) && c.Frame? && c.sib.T?
    ensures c.sib.id < NIL && Zip(m[c.sib.id := m[c.sib.id].(color := k)], root, c.(sib := c.sib.(color := k)), t)
  {
    var s := c.sib;
    assert RepTree(m, s, c.id) && s.id in Ids(s) && s.id in CtxIds(c);
    var m' := m[s.id := m[s.id].(color := k)];
    TreeFrame(m, m', t, c.id);
    TreeFrame(m, m', s.left, s.id);
    TreeFrame(m, m', s.right, s.id);
    CtxFrame(m, m', c.up, c.id);
  }

  // Moving the focus to the sibling.
  lemma ZipOver(m: Memory, root: nat, c: Ctx, t: Tree)
    requires Zip(m, root, c, t) && c.Frame?
    ensures Zip(m, root, c.(onLeft := !c.onLeft, sib := t), c.sib)
  {
    ZipUp(m, root, c, t);
    ZipDown(m, root, c.up, !c.onLeft, c.id, c.color, c.area, c.sib, t);
  }

  function RecolorChild(onLeft: bool, t: Tree, k: Color): Tree
    requires t.T? && Near(onLeft, t).T?
  {
    if onLeft then t.(left := t.left.(color := k)) else t.(right := t.right.(color := k))
  }

  lemma ZipRecolorChild(m: Memory, root: nat, c: Ctx, t: Tree, onLeft: bool, k: Color)
    requires Zip(m, root, c, t) && t.T? && Near(onLeft, t).T?
    ensures var i := Near(onLeft, t).id;
            i < NIL && Zip(m[i := m[i].(color := k)], root, c, RecolorChild(onLeft, t, k))
  {
    var n := Near(onLeft, t);
    ZipDown(m, root, c, onLeft, t.id, t.color, t.area, n, Far(onLeft, t));
    var c' := Frame(onLeft, t.id, t.color, t.area, Far(onLeft, t), c);
    ZipRecolor(m, root, c', n, k);
    ZipUp(m[n.id := m[n.id].(color := k)], root, c', n.(color := k));
  }

  lemma ZipRecolorNephew(m: Memory, root: nat, c: Ctx, t: Tree, onLeft: bool, k: Color)
    requires Zip(m, root, c, t) && c.Frame? && c.sib.T? && Near(onLeft, c.sib).T?
    ensures var i := Near(onLeft, c.sib).id;
            i < NIL && Zip(m[i := m[i].(color := k)], root, c.(sib := RecolorChild(onLeft, c.sib, k)), t)
  {
    var i := Near(onLeft, c.sib).id;
    var s := RecolorChild(onLeft, c.sib, k);
    ZipOver(m, root, c, t);
    var c' := c.(onLeft := !c.onLeft, sib := t);
    ZipRecolorChild(m, root, c', c.sib, onLeft, k);
    ZipOver(m[i := m[i].(color := k)], root, c', s);
    assert c'.(onLeft := !c'.onLeft, sib := s) == c.(sib := s);
  }

  lemma ZipFrame(m: Memory, m': Memory, root: nat, c: Ctx, t: Tree)
    requires Zip(m, root, c, t) && |m| == |m'| && m'[NIL].color == Black
    requires forall i <- Ids(t) + CtxIds(c) | i < |m| :: m'[i] == m[i]
    ensures Zip(m', root, c, t)
  {
    TreeFrame(m, m', t, CtxId(c));
    CtxFrame(m, m', c, Link(t));
  }

  // The links around a rotation at `x`: `y` is the child on the far side, `b` its near
  // child (possibly NIL), `p` the parent of x (possibly NIL), and all of them differ.
  ghost predicate RotateLinks(m: Memory, onLeft: bool, x: nat, y: nat, b: nat, p: nat) {
    && |m| == NIL + 1 && x < NIL && y < NIL && b <= NIL && p <= NIL
    && x != y && b != x && b != y && p != x && p != y && (b != NIL ==> p != b)
    && m[x].parent == p && m[y].parent == x
    && (if onLeft then m[x].right == y && m[y].left == b else m[x].left == y && m[y].right == b)
    && (p != NIL ==> (m[p].left == x) != (m[p].right == x))
  }

  // What the rotation leaves: y hangs in x's place, x is y's near child and b is x's far one.
  ghost predicate Rotated(m: Memory, m': Memory, onLeft: bool, x: nat, y: nat, b: nat, p: nat)
    requires RotateLinks(m, onLeft, x, y, b, p)
  {
    && |m'| == NIL + 1
    && m'[x] == (if onLeft then m[x].(parent := y, right := b) else m[x].(parent := y, left := b))
    && m'[y] == (if onLeft then m[y].(parent := p, left := x) else m[y].(parent := p, right := x))
    && (b != NIL ==> m'[b] == m[b].(parent := x))
    && (p != NIL ==> m'[p] == SetNear(m[p].left == x, m[p], y))
    && (forall i | 0 <= i <= NIL && i != x && i != y && i != b && i != p :: m'[i] == m[i])
    && m'[NIL] == m[NIL]
  }

  function RotateTree(onLeft: bool, t: Tree): Tree
    requires t.T? && Far(onLeft, t).T?
  {
    var y := Far(onLeft, t);
    Mk(onLeft, y.id, y.color, y.area, Mk(onLeft, t.id, t.color, t.area, Near(onLeft, t), Near(onLeft, y)), Far(onLeft, y))
  }

  lemma RotateNodes(m: Memory, root: nat, c: Ctx, onLeft: bool, t: Tree)
    requires Zip(m, root, c, t) && t.T? && Far(onLeft, t).T?
    ensures var y := Far(onLeft, t);
            var B := Near(onLeft, y);
      && RotateLinks(m, onLeft, t.id, y.id, Link(B), CtxId(c))
      && {t.id, y.id} <= Ids(t) && (B.T? ==> B.id in Ids(t)) && (c.Frame? ==> c.id in CtxIds(c))
      && (c.Frame? ==> (c.onLeft <==> m[c.id].left == t.id))
  {
    var y := Far(onLeft, t);
    var B := Near(onLeft, y);
    assert RepTree(m, y, t.id);
    assert RepTree(m, B, y.id);
    assert y.id in Ids(y) && (B.T? ==> B.id in Ids(B) && B.id in Ids(y));
    if c.Frame? {
      SideByPointer(m, root, c, t);
    }
  }

  // The relinking is a rotation of the represented tree.
  lemma ZipRotate(m: Memory, m': Memory, root: nat, c: Ctx, onLeft: bool, t: Tree)
    requires Zip(m, root, c, t) && t.T? && Far(onLeft, t).T?
    requires var y := Far(onLeft, t);
             var b := Link(Near(onLeft, y));
             RotateLinks(m, onLeft, t.id, y.id, b, CtxId(c)) && Rotated(m, m', onLeft, t.id, y.id, b, CtxId(c))
    ensures Zip(m', RootLink(c, Far(onLeft, t).id), c, RotateTree(onLeft, t))
    ensures forall i | 0 <= i <= NIL && i !in Ids(t) && i !in CtxIds(c) :: m'[i] == m[i]
  {
    RotateNodes(m, root, c, onLeft, t);
    RotateSep(onLeft, t);
    IdsBelowNil(m, t, CtxId(c));
    RotateRep(m, m', onLeft, t, CtxId(c));
    CtxRelink(m, m', c, t.id, Far(onLeft, t).id);
  }

  lemma RotateSep(onLeft: bool, t: Tree)
    requires SepTree(t) && t.T? && Far(onLeft, t).T?
    ensures SepTree(RotateTree(onLeft, t)) && Ids(RotateTree(onLeft, t)) == Ids(t)
  {
    var y := Far(onLeft, t);
    var A, B, C := Near(onLeft, t), Near(onLeft, y), Far(onLeft, y);
    MkShape(onLeft, y.id, y.color, y.area, B, C);
    MkShape(onLeft, t.id, t.color, t.area, A, y);
    MkShape(onLeft, t.id, t.color, t.area, A, B);
    MkShape(onLeft, y.id, y.color, y.area, Mk(onLeft, t.id, t.color, t.area, A, B), C);
  }

  lemma RotateRep(m: Memory, m': Memory, onLeft: bool, t: Tree, p: nat)
    requires RepTree(m, t, p) && SepTree(t) && t.T? && Far(onLeft, t).T? && p !in Ids(t)
    requires var y := Far(onLeft, t);
             var b := Link(Near(onLeft, y));
             RotateLinks(m, onLeft, t.id, y.id, b, p) && Rotated(m, m', onLeft, t.id, y.id, b, p)
    ensures RepTree(m', RotateTree(onLeft, t), p)
  {
    var y := Far(onLeft, t);
    var A, B, C := Near(onLeft, t), Near(onLeft, y), Far(onLeft, y);
    IdsBelowNil(m, t, p);
    assert RepTree(m, A, t.id) && RepTree(m, y, t.id);
    assert RepTree(m, B, y.id) && RepTree(m, C, y.id);
    assert B.T? ==> B.id in Ids(B);
    assert Ids(y) == {y.id} + Ids(B) + Ids(C);
    TreeFrame(m, m', A, t.id);
    TreeFrame(m, m', C, y.id);
    TreeReparent(m, m', B, y.id, t.id);
  }

  // Content is a function of the plugged tree, so it survives any change of focus, and
  // any local change that keeps the in-order listing of the focused subtree.
  lemma {:induction false} PlugAreas(c: Ctx, t: Tree)
    ensures Areas(Plug(c, t)) == Before(c) + Areas(t) + After(c)
  {
    if c.Frame? {
      PlugAreas(c.up, Mk(c.onLeft, c.id, c.color, c.area, t, c.sib));
    }
  }

  lemma {:induction false} PlugIds(c: Ctx, t: Tree)
    ensures Ids(Plug(c, t)) == Ids(t) + CtxIds(c)
  {
    if c.Frame? {
      PlugIds(c.up, Mk(c.onLeft, c.id, c.color, c.area, t, c.sib));
      MkShape(c.onLeft, c.id, c.color, c.area, t, c.sib);
    }
  }

  lemma {:induction false} PlugZip(m: Memory, root: nat, c: Ctx, t: Tree)
    requires Zip(m, root, c, t)
    ensures Zip(m, root, Top, Plug(c, t))
    ensures Plug(c, t).T? == (t.T? || c.Frame?)
    decreases c
  {
    if c.Frame? {
      ZipUp(m, root, c, t);
      PlugZip(m, root, c.up, Mk(c.onLeft, c.id, c.color, c.area, t, c.sib));
    }
  }

  // Two subtrees with the same in-order listing and the same nodes are interchangeable.
  ghost predicate SameContent(t: Tree, t': Tree) {
    Areas(t) == Areas(t') && Ids(t) == Ids(t')
  }

  lemma PlugContent(c: Ctx, t: Tree, t': Tree)
    requires SameContent(t, t')
    ensures SameContent(Plug(c, t), Plug(c, t'))
  {
    PlugAreas(c, t);
    PlugAreas(c, t');
    PlugIds(c, t);
    PlugIds(c, t');
  }

  lemma RecolorContent(c: Ctx, t: Tree, k: Color)
    ensures t.T? ==> SameContent(Plug(c, t), Plug(c, t.(color := k)))
    ensures c.Frame? ==> SameContent(Plug(c, t), Plug(c.(color := k), t))
    ensures c.Frame? && c.sib.T? ==> SameContent(Plug(c, t), Plug(c.(sib := c.sib.(color := k)), t))
  {
    if t.T? {
      PlugContent(c, t, t.(color := k));
    }
    if c.Frame? {
      var p := Mk(c.onLeft, c.id, c.color, c.area, t, c.sib);
      PlugContent(c.up, p, p.(color := k));
      if c.sib.T? {
        PlugContent(c.up, p, Mk(c.onLeft, c.id, c.color, c.area, t, c.sib.(color := k)));
      }
    }
  }

  lemma SiblingContent(c: Ctx, t: Tree, s: Tree)
    requires c.Frame? && SameContent(c.sib, s)
    ensures SameContent(Plug(c, t), Plug(c.(sib := s), t))
  {
    PlugContent(c.up, Mk(c.onLeft, c.id, c.color, c.area, t, c.sib), Mk(c.onLeft, c.id, c.color, c.area, t, s));
  }

  lemma RotateContent(onLeft: bool, t: Tree)
    requires t.T? && Far(onLeft, t).T?
    ensures SameContent(t, RotateTree(onLeft, t))
  {
    var y := Far(onLeft, t);
    if onLeft {
      assert Areas(t.left) + [t.area] + (Areas(y.left) + [y.area] + Areas(y.right))
          == (Areas(t.left) + [t.area] + Areas(y.left)) + [y.area] + Areas(y.right);
    } else {
      assert (Areas(y.left) + [y.area] + Areas(y.right)) + [t.area] + Areas(t.right)
          == Areas(y.left) + [y.area] + (Areas(y.right) + [t.area] + Areas(t.right));
    }
  }
}
