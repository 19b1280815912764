// The red-black VMA store: node pool with a free list, add, remove and find.
module RbTree {
  import opened Prelude
  import opened VmaSpec
  import opened RbShape
  import opened RbBalance
  import opened RbSplice
  import opened RbFixup

  // The free nodes, chained through their right links.
  ghost predicate FreeList(m: Memory, head: nat, fs: seq<nat>)
    decreases |fs|
  {
    if fs == [] then head == NULL
    else head == fs[0] && head < NIL < |m| && FreeList(m, m[head].right, fs[1..])
  }

  ghost predicate Distinct(fs: seq<nat>) {
    forall i, j | 0 <= i < j < |fs| :: fs[i] != fs[j]
  }

  lemma {:induction false} FreeListFrame(m: Memory, m': Memory, head: nat, fs: seq<nat>)
    requires FreeList(m, head, fs) && |m| == |m'|
    requires forall i <- fs | i < |m| :: m'[i].right == m[i].right
    ensures FreeList(m', head, fs)
    decreases |fs|
  {
    if fs != [] {
      FreeListFrame(m, m', m[head].right, fs[1..]);
    }
  }

  lemma {:induction false} FreeListBelow(m: Memory, head: nat, fs: seq<nat>)
    requires FreeList(m, head, fs)
    ensures forall i <- fs :: i < NIL
    decreases |fs|
  {
    if fs != [] {
      FreeListBelow(m, m[head].right, fs[1..]);
      assert fs == [fs[0]] + fs[1..];
    }
  }

  class Store {
    const mem: NodeStore
    var freeHead: nat
    var count: nat
    ghost var tree: Tree
    ghost var free: seq<nat>

    ghost predicate PoolValid()
      reads this, mem, mem.pool
    {
      && mem.pool.Length == NIL + 1
      && FreeList(mem.pool[..], freeHead, free) && Distinct(free)
    }

    // The red-black invariant, the search order and the accounting of nodes.
    ghost predicate Valid()
      reads this, mem, mem.pool
    {
      && PoolValid()
      && mem.At(Top, tree) && Balanced(tree) && IsBlack(tree)
      && Ordered(Areas(tree))
      && count == |Areas(tree)| && count + |free| == CAPACITY
      && (forall i <- free :: i !in Ids(tree))
    }

    // In-order traversal: what a dump prints.
    ghost function Listing(): seq<Area>
      reads this
    {
      Areas(tree)
    }

    ghost function Contents(): set<Area>
      reads this
    {
      Elems(Areas(tree))
    }

    constructor ()
      ensures Valid() && fresh(mem) && fresh(mem.pool) && Contents() == {} && count == 0
    {
      mem := new NodeStore();
      tree := Leaf;
      count := 0;
      new;
      PoolInit();
    }

    // ---- node pool ----

    method PoolInit()
      requires mem.pool.Length == NIL + 1
      modifies this`freeHead, this`free, mem.pool
      ensures PoolValid() && |free| == CAPACITY && mem.pool[NIL] == old(mem.pool[NIL])
    {
      freeHead := 0;
      var i := 0;
      while i < CAPACITY - 1
        invariant 0 <= i <= CAPACITY - 1
        invariant mem.pool[NIL] == old(mem.pool[NIL])
        invariant forall j | 0 <= j < i :: mem.pool[j].right == j + 1
        modifies mem.pool
      {
        mem.pool[i] := mem.pool[i].(right := i + 1);
        i := i + 1;
      }
      mem.pool[CAPACITY - 1] := mem.pool[CAPACITY - 1].(right := NULL);
      InitialFreeList(mem.pool[..], 0);
      free := From(0);
    }

    method PoolAlloc() returns (n: nat)
      requires PoolValid()
      modifies this`freeHead, this`free, mem.pool
      ensures PoolValid()
      ensures old(free) == [] ==> n == NULL && mem.pool[..] == old(mem.pool[..]) && free == []
      ensures old(free) != [] ==>
        && n == old(free)[0] < NIL && free == old(free)[1..]
        && mem.pool[..] == old(mem.pool[..])[n := Node(Area(0, 0, 0, 0), Red, NIL, NIL, NIL)]
    {
      if freeHead == NULL {
        return NULL;
      }
      n := freeHead;
      freeHead := mem.pool[n].right;
      ghost var m := mem.pool[..];
      mem.pool[n] := Node(Area(0, 0, 0, 0), Red, NIL, NIL, NIL);
      free := free[1..];
      FreeListFrame(m, mem.pool[..], freeHead, free);
      assert mem.pool[..] == m[n := Node(Area(0, 0, 0, 0), Red, NIL, NIL, NIL)];
    }

    method PoolFree(n: nat)
      requires PoolValid() && n < NIL && n !in free
      modifies this`freeHead, this`free, mem.pool
      ensures PoolValid() && free == [n] + old(free)
      ensures mem.pool[..] == old(mem.pool[..])[n := old(mem.pool[n]).(right := old(freeHead))]
    {
      ghost var m := mem.pool[..];
      mem.pool[n] := mem.pool[n].(right := freeHead);
      FreeListFrame(m, mem.pool[..], freeHead, free);
      freeHead := n;
      assert ([n] + free)[1..] == free;
      free := [n] + free;
      assert mem.pool[..] == m[n := m[n].(right := old(freeHead))];
    }

    // ---- queries ----

    method Count() returns (n: nat)
      requires Valid()
      ensures n == |Contents()| == |Listing()|
    {
      OrderedCount(Areas(tree));
      n := count;
    }

    // `steps` counts the nodes visited: those from the root to the node found, or to the empty
    // place, at c.
    method Find(addr: u32) returns (r: Option<Area>, ghost steps: nat, ghost c: Ctx, ghost t: Tree)
      requires Valid()
      ensures IsHit(Contents(), addr, r)
      ensures Plug(c, t) == tree && (if r.Some? then !t.Leaf? && t.area == r.value && steps == Depth(c) + 1
                                     else t == Leaf && steps == Depth(c))
      ensures steps <= Height(tree) && Pow2(steps) <= (count + 1) * (count + 1)
    {
      var cur := mem.root;
      c, t, steps := Top, tree, 0;
      while cur != NIL
        invariant mem.At(c, t) && Plug(c, t) == tree && cur == Link(t) && steps == Depth(c)
        invariant forall a <- Before(c) :: a.end <= addr
        invariant forall a <- After(c) :: addr < a.start
        invariant steps + Height(t) <= Height(tree)
        decreases t
      {
        Descend(mem.pool[..], mem.root, c, t);
        var node := mem.pool[cur];
        steps := steps + 1;
        if addr < node.area.start {
          c, t := LeftOf(c, t), t.left;
          cur := node.left;
        } else if addr >= node.area.end {
          c, t := RightOf(c, t), t.right;
          cur := node.right;
        } else {
          StepBound(tree, steps);
          return Some(node.area), steps, c, t;
        }
      }
      PlugAreas(c, t);
      StepBound(tree, steps);
      r := None;
    }

    // ---- insertion ----

    // The descent: stops at the first overlapping range, or at the empty slot for `start`.
    method FindSlot(start: u32, end: u32) returns (overlap: bool, parent: nat, ghost c: Ctx, ghost steps: nat)
      requires Valid() && ValidRange(start, end)
      ensures Pow2(steps) <= (count + 1) * (count + 1)
      ensures overlap ==> exists a <- Contents() :: Overlap(start, end, a)
      ensures !overlap ==>
        && mem.At(c, Leaf) && Plug(c, Leaf) == tree && parent == CtxId(c) && steps == Depth(c)
        && (c.Frame? ==> (c.onLeft <==> start < c.area.start))
        && (forall a <- Before(c) :: a.end <= start) && (forall a <- After(c) :: end <= a.start)
    {
      parent, overlap, steps := NIL, false, 0;
      var cur := mem.root;
      ghost var t := tree;
      c := Top;
      while cur != NIL
        invariant Path(mem.pool[..], mem.root, c, t, tree, steps, start, end) && cur == Link(t) && parent == CtxId(c)
        invariant steps == Depth(c)
        decreases t
      {
        PathStep(mem.pool[..], mem.root, c, t, tree, steps, start, end);
        steps := steps + 1;
        parent := cur;
        var node := mem.pool[cur];
        if start < node.area.end && node.area.start < end {
          StepBound(tree, steps);
          assert node.area in Contents();
          overlap := true;
          return;
        }
        if start < node.area.start {
          c, t := LeftOf(c, t), t.left;
          cur := node.left;
        } else {
          c, t := RightOf(c, t), t.right;
          cur := node.right;
        }
      }
      StepBound(tree, steps);
    }

    // Returns 0 or -1 exactly as the abstract store does. Overlap is only tested along the
    // descent path: the ranges off the path end before `start` or begin after `end`.
    method Add(start: u32, end: u32, flags: u32, name: u32) returns (code: int)
      requires Valid()
      modifies this, mem, mem.pool
      ensures Valid()
      ensures (Contents(), Status(code)) == Step(old(Contents()), VmaSpec.Add(start, end, flags, name))
    {
      OrderedCount(Areas(tree));
      if count >= CAPACITY {
        return -1;
      }
      if start >= end {
        return -1;
      }
      if start % PAGE_SIZE != 0 || end % PAGE_SIZE != 0 {
        return -1;
      }
      ghost var c, steps;
      var overlap, parent;
      overlap, parent, c, steps := FindSlot(start, end);
      if overlap {
        return -1;
      }
      code := InsertAt(Area(start, end, flags, name), parent, c);
    }

    method InsertAt(a: Area, parent: nat, ghost c: Ctx) returns (code: int)
      requires Valid() && count < CAPACITY && mem.At(c, Leaf) && Plug(c, Leaf) == tree && parent == CtxId(c)
      requires ValidRange(a.start, a.end) && (c.Frame? ==> (c.onLeft <==> a.start < c.area.start))
      requires (forall b <- Before(c) :: b.end <= a.start) && (forall b <- After(c) :: a.end <= b.start)
      modifies this, mem, mem.pool
      ensures Valid() && code == 0 && Contents() == old(Contents()) + {a}
      ensures forall b <- old(Contents()) :: !Overlap(a.start, a.end, b)
    {
      InsertListing(c, tree, a);
      var z := TakeNode(c);
      ghost var steps := LinkAndFix(z, parent, a, c);
      count := count + 1;
      code := 0;
    }

    // Everything in Valid() except the node count, which add and remove update last.
    ghost predicate ValidTree()
      reads this, mem, mem.pool
    {
      && PoolValid()
      && mem.At(Top, tree) && Balanced(tree) && IsBlack(tree)
      && (forall i <- free :: i !in Ids(tree))
    }

    // Taking a node from the pool disturbs neither the tree nor the slot found in it.
    method TakeNode(ghost c: Ctx) returns (z: nat)
      requires ValidTree() && mem.At(c, Leaf) && Plug(c, Leaf) == tree
      modifies this`freeHead, this`free, mem.pool
      ensures ValidTree() && mem.At(c, Leaf)
      ensures z == NULL <==> old(free) == []
      ensures z != NULL ==> z < NIL && z !in Ids(tree) && z !in free && |free| == |old(free)| - 1
    {
      PlugIds(c, Leaf);
      ghost var m := mem.pool[..];
      z := PoolAlloc();
      ZipFrame(m, mem.pool[..], mem.root, c, Leaf);
      ZipFrame(m, mem.pool[..], mem.root, Top, tree);
    }

    // Linking and repair, in at most one round more than the old tree is high.
    method LinkAndFix(z: nat, parent: nat, a: Area, ghost c: Ctx) returns (ghost steps: nat)
      requires ValidTree() && tree == Plug(c, Leaf) && mem.At(c, Leaf)
      requires z < NIL && z !in Ids(tree) && z !in free && parent == CtxId(c)
      requires c.Frame? ==> (c.onLeft <==> a.start < c.area.start)
      modifies this`tree, mem, mem.pool
      ensures ValidTree() && Areas(tree) == Before(c) + [a] + After(c)
      ensures steps <= 1 + Height(old(tree))
    {
      DepthWithin(c, Leaf);
      NewLeaf(c, z, a);
      ghost var t := T(z, Red, a, Leaf, Leaf);
      ghost var m := mem.pool[..];
      LinkNode(z, parent, a, c);
      ZipLinkIn(m, mem.pool[..], old(mem.root), c, z, a);
      tree, steps := mem.InsertFixup(z, c, t);
      FreeListFrame(m, mem.pool[..], freeHead, free);
    }

    method LinkNode(z: nat, parent: nat, a: Area, ghost c: Ctx)
      requires mem.pool.Length == NIL + 1 && z < NIL && parent == CtxId(c) != z
      requires c.Frame? ==> parent < NIL && mem.pool[parent].area == c.area && (c.onLeft <==> a.start < c.area.start)
      modifies mem`root, mem.pool
      ensures LinkedIn(old(mem.pool[..]), mem.pool[..], c, z, a)
      ensures mem.root == if c.Top? then z else old(mem.root)
    {
      mem.pool[z] := Node(a, Red, parent, NIL, NIL);
      if parent == NIL {
        mem.root := z;
      } else if a.start < mem.pool[parent].area.start {
        mem.pool[parent] := mem.pool[parent].(left := z);
      } else {
        mem.pool[parent] := mem.pool[parent].(right := z);
      }
    }

    // ---- removal ----

    method Transplant(u: nat, v: nat)
      requires mem.pool.Length == NIL + 1 && u < NIL && v <= NIL
      requires var p := mem.pool[u].parent;
               p <= NIL && (p != NIL ==> p != v && p != u && (mem.pool[p].left == u) != (mem.pool[p].right == u))
      modifies mem`root, mem.pool
      ensures var p := old(mem.pool[u].parent);
        && Transplanted(old(mem.pool[..]), mem.pool[..], u, v, p)
        && mem.root == if p == NIL then v else old(mem.root)
    {
      var p := mem.pool[u].parent;
      if p == NIL {
        mem.root := v;
      } else if u == mem.pool[p].left {
        mem.pool[p] := mem.pool[p].(left := v);
      } else {
        mem.pool[p] := mem.pool[p].(right := v);
      }
      mem.pool[v] := mem.pool[v].(parent := mem.pool[u].parent);
    }

    // The leftmost node below `x0`.
    method TreeMinimum(x0: nat, ghost k: Ctx, ghost r: Tree) returns (y: nat, ghost d: Ctx, ghost t: Tree)
      requires mem.At(k, r) && r.T? && x0 == r.id
      ensures mem.At(Append(d, k), t) && AllLeft(d) && Plug(d, t) == r
      ensures t.T? && t.left.Leaf? && y == t.id < NIL
    {
      y, d, t := x0, Top, r;
      assert RepTree(mem.pool[..], t.left, t.id);
      while mem.pool[y].left != NIL
        invariant mem.At(Append(d, k), t) && AllLeft(d) && Plug(d, t) == r
        invariant t.T? && y == t.id < NIL
        invariant mem.pool[y].left == Link(t.left) <= NIL && (t.left.Leaf? <==> Link(t.left) == NIL)
        decreases t
      {
        ghost var l := t.left;
        ZipDown(mem.pool[..], mem.root, Append(d, k), true, t.id, t.color, t.area, l, t.right);
        d, t := Frame(true, t.id, t.color, t.area, t.right, d), l;
        y := mem.pool[y].left;
        assert RepTree(mem.pool[..], t.left, t.id);
      }
    }

    // Cases 1 and 2: `z` has at most one child, which takes its place.
    method UnlinkOne(z: nat, x: nat, ghost c: Ctx, ghost t: Tree)
      requires mem.At(c, t) && t.T? && z == t.id && (t.left.Leaf? || t.right.Leaf?) && x == Link(OnlyChild(t))
      modifies mem, mem.pool
      ensures mem.At(c, OnlyChild(t)) && mem.Hangs(x, c, OnlyChild(t))
      ensures forall i | 0 <= i < NIL && i !in Ids(t) && i !in CtxIds(c) :: mem.pool[i] == old(mem.pool[i])
    {
      SpliceNodes(mem.pool[..], mem.root, c, t);
      ghost var m := mem.pool[..];
      Transplant(z, x);
      ZipSplice(m, mem.pool[..], old(mem.root), c, t);
    }

    // Case 3, first half: the successor `y` is cut out and takes over z's right subtree.
    // When y is z's own child only the parent link of `x`, possibly NIL, is written.
    method DetachSuccessor(z: nat, y: nat, x: nat, ghost c: Ctx, ghost t: Tree, ghost d: Ctx, ghost yt: Tree)
      requires t.T? && z == t.id && mem.At(Append(d, RightFrame(c, t)), yt)
      requires yt.T? && yt.left.Leaf? && y == yt.id && x == Link(yt.right) && t.right == Plug(d, yt)
      modifies mem, mem.pool
      ensures Detached(mem.pool[..], z, y, c, t.left, Plug(d, yt.right), yt.area) && mem.root == old(mem.root)
      ensures x <= NIL && mem.pool[x].parent == if d.Top? then y else d.id
      ensures mem.pool[z].color == t.color
      ensures forall i | 0 <= i < NIL && i !in Ids(t) && i !in CtxIds(c) :: mem.pool[i] == old(mem.pool[i])
    {
      ghost var m := mem.pool[..];
      ZipSuccessor(m, mem.root, c, t, d, yt);
      SuccessorNodes(m, mem.root, c, t, d, yt);
      if mem.pool[y].parent == z {
        mem.pool[x] := mem.pool[x].(parent := y);
        DetachChild(m, mem.pool[..], mem.root, c, t, yt);
      } else {
        DetachFar(z, y, x, c, t, d, yt);
      }
    }

    // The successor lies deeper: it leaves its place and takes over the right subtree.
    method DetachFar(z: nat, y: nat, x: nat, ghost c: Ctx, ghost t: Tree, ghost d: Ctx, ghost yt: Tree)
      requires t.T? && z == t.id && mem.At(Append(d, RightFrame(c, t)), yt) && mem.At(c, t) && d.Frame?
      requires yt.T? && yt.left.Leaf? && y == yt.id && x == Link(yt.right) && t.right == Plug(d, yt)
      modifies mem, mem.pool
      ensures Detached(mem.pool[..], z, y, c, t.left, Plug(d, yt.right), yt.area) && mem.root == old(mem.root)
      ensures x <= NIL && mem.pool[x].parent == d.id && mem.pool[z].color == t.color
      ensures forall i | 0 <= i < NIL && i !in Ids(t) && i !in CtxIds(c) :: mem.pool[i] == old(mem.pool[i])
    {
      ghost var m := mem.pool[..];
      SuccessorNodes(m, mem.root, c, t, d, yt);
      Transplant(y, mem.pool[y].right);
      ghost var m1 := mem.pool[..];
      mem.pool[y] := mem.pool[y].(right := mem.pool[z].right);
      var r := mem.pool[y].right;
      mem.pool[r] := mem.pool[r].(parent := y);
      DetachDeep(m, m1, mem.pool[..], old(mem.root), c, t, d, yt);
    }

    // Case 3, second half: `y` takes the place, the left subtree and the colour of `z`.
    method PlaceSuccessor(z: nat, y: nat, ghost c: Ctx, ghost l: Tree, ghost R: Tree, ghost a: Area)
      requires mem.pool.Length == NIL + 1 && Detached(mem.pool[..], z, y, c, l, R, a) && l.T? && y != z
      requires l.id != y && l.id != z && l.id != Link(R) && z != Link(R) && y != Link(R)
      requires c.Frame? ==>
        && c.id < NIL && c.id != z && c.id != y && c.id != l.id && c.id != Link(R)
        && (c.onLeft <==> mem.pool[c.id].left == z) && (c.onLeft <==> mem.pool[c.id].right != z)
      modifies mem, mem.pool
      ensures Replaced(old(mem.pool[..]), mem.pool[..], c, y, old(mem.pool[z].color), a, l, R)
      ensures mem.root == (if c.Top? then y else old(mem.root)) && mem.pool[NIL] == old(mem.pool[NIL])
    {
      Transplant(z, y);
      mem.pool[y] := mem.pool[y].(left := mem.pool[z].left);
      var l' := mem.pool[y].left;
      mem.pool[l'] := mem.pool[l'].(parent := y);
      mem.pool[y] := mem.pool[y].(color := mem.pool[z].color);
    }

    // Case 3: `z` has two children; its successor moves into its place.
    method UnlinkTwo(z: nat, ghost c: Ctx, ghost t: Tree)
      returns (x: nat, color: Color, ghost k: Ctx, ghost d: Ctx, ghost yt: Tree)
      requires mem.At(c, t) && t.T? && z == t.id && t.left.T? && t.right.T?
      modifies mem, mem.pool
      ensures yt.T? && yt.left.Leaf? && AllLeft(d) && t.right == Plug(d, yt) && color == yt.color
      ensures k == Append(d, Frame(false, yt.id, t.color, yt.area, t.left, c))
      ensures mem.At(k, yt.right) && mem.Hangs(x, k, yt.right)
      ensures forall i | 0 <= i < NIL && i !in Ids(t) && i !in CtxIds(c) :: mem.pool[i] == old(mem.pool[i])
    {
      ghost var f := RightFrame(c, t);
      ZipDown(mem.pool[..], mem.root, c, false, z, t.color, t.area, t.right, t.left);
      var y;
      y, d, yt := TreeMinimum(mem.pool[z].right, f, t.right);
      ZipSuccessor(mem.pool[..], mem.root, c, t, d, yt);
      SuccessorNodes(mem.pool[..], mem.root, c, t, d, yt);
      SuccessorApart(t, d, yt);
      color := mem.pool[y].color;
      x := mem.pool[y].right;
      PlugIds(d, yt.right);
      assert yt.right.T? ==> yt.right.id in Ids(yt.right);
      DetachSuccessor(z, y, x, c, t, d, yt);
      k := SettleSuccessor(z, y, x, c, t, d, yt);
    }

    method SettleSuccessor(z: nat, y: nat, ghost x: nat, ghost c: Ctx, ghost t: Tree, ghost d: Ctx, ghost yt: Tree)
      returns (ghost k: Ctx)
      requires t.T? && t.left.T? && z == t.id && yt.T? && y == yt.id && x == Link(yt.right)
      requires SepTree(t) && SepCtx(c) && Ids(t) !! CtxIds(c) && mem.root == RootLink(c, z)
      requires var R := Plug(d, yt.right);
        && Ids(t.right) == Ids(R) + {y} && y !in Ids(R) && (d.Frame? ==> d.id in Ids(R))
        && mem.pool.Length == NIL + 1 && Detached(mem.pool[..], z, y, c, t.left, R, yt.area)
        && mem.pool[z].color == t.color
        && x <= NIL && mem.pool[x].parent == (if d.Top? then y else d.id)
        && (x != NIL ==> x in Ids(R))
      modifies mem, mem.pool
      ensures k == Append(d, Frame(false, y, t.color, yt.area, t.left, c))
      ensures mem.At(k, yt.right) && mem.Hangs(x, k, yt.right)
      ensures forall i | 0 <= i < NIL && i !in Ids(t) && i !in CtxIds(c) :: mem.pool[i] == old(mem.pool[i])
    {
      ghost var m, R := mem.pool[..], Plug(d, yt.right);
      SuccessorLinks(m, c, t, R, y);
      TopLink(m, c, z);
      PlaceSuccessor(z, y, c, t.left, R, yt.area);
      ZipReplace(m, mem.pool[..], c, z, y, t.color, yt.area, t.left, R, y);
      ghost var f := Frame(false, y, t.color, yt.area, t.left, c);
      ZipDown(mem.pool[..], mem.root, c, false, y, t.color, yt.area, R, t.left);
      ZipDownAppend(mem.pool[..], mem.root, d, f, yt.right);
      k := Append(d, f);
      assert CtxId(k) == if d.Top? then y else d.id;
    }

    // The links the second half rewrites belong to different nodes.
    lemma SuccessorLinks(m: Memory, c: Ctx, t: Tree, R: Tree, y: nat)
      requires t.T? && t.left.T? && SepTree(t) && Ids(t) !! CtxIds(c)
      requires Ids(t.right) == Ids(R) + {y} && y !in Ids(R)
      requires RepTree(m, t.left, t.id) && RepTree(m, R, y) && t.id < NIL && y < NIL
      ensures t.left.id in Ids(t) && (R.T? ==> R.id in Ids(t)) && y in Ids(t)
      ensures t.left.id != y && t.left.id != t.id && t.left.id != Link(R) && t.id != Link(R) && y != Link(R) && y != t.id
    {
      assert t.left.id in Ids(t.left);
      assert y in Ids(t.right);
      assert R.T? ==> R.id in Ids(R) && R.id in Ids(t.right);
    }

    lemma TopLink(m: Memory, c: Ctx, z: nat)
      requires |m| == NIL + 1 && RepCtx(m, c, z) && z < NIL && z !in CtxIds(c)
      ensures c.Frame? ==>
        && c.id < NIL && c.id in CtxIds(c)
        && (c.onLeft <==> m[c.id].left == z) && (c.onLeft <==> m[c.id].right != z)
    {
      assert c.Frame? && c.sib.T? ==> c.sib.id in CtxIds(c);
    }

    method FindStart(start: u32) returns (z: nat, ghost c: Ctx, ghost t: Tree)
      requires Valid()
      ensures z == NIL ==> forall a <- Contents() :: a.start != start
      ensures z != NIL ==> mem.At(c, t) && Plug(c, t) == tree && t.T? && z == t.id < NIL && t.area.start == start
    {
      z, c, t := mem.root, Top, tree;
      while z != NIL
        invariant mem.At(c, t) && Plug(c, t) == tree && z == Link(t)
        invariant forall a <- Before(c) :: a.start != start
        invariant forall a <- After(c) :: a.start != start
        decreases t
      {
        Descend(mem.pool[..], mem.root, c, t);
        DescendOrder(c, t);
        var node := mem.pool[z];
        if start == node.area.start {
          return;
        } else if start < node.area.start {
          z, c, t := node.left, LeftOf(c, t), t.left;
        } else {
          z, c, t := node.right, RightOf(c, t), t.right;
        }
      }
      PlugAreas(c, t);
    }

    // Takes `z` out of the tree; `color` is the colour the tree has lost.
    method Unlink(z: nat, ghost c: Ctx, ghost t: Tree) returns (x: nat, color: Color, ghost k: Ctx, ghost xt: Tree)
      requires mem.At(c, t) && t.T? && z == t.id && Balanced(Plug(c, t)) && IsBlack(Plug(c, t))
      modifies mem, mem.pool
      ensures mem.At(k, xt) && mem.Hangs(x, k, xt)
      ensures if color.Black? then DeletePoint(k, xt) else Balanced(Plug(k, xt)) && IsBlack(Plug(k, xt))
      ensures Ids(Plug(k, xt)) == Ids(t) + CtxIds(c) - {z} && Depth(k) <= Height(Plug(c, t))
      ensures Areas(Plug(c, t)) == Before(c) + Areas(t.left) + [t.area] + (Areas(t.right) + After(c))
      ensures Areas(Plug(k, xt)) == Before(c) + Areas(t.left) + (Areas(t.right) + After(c))
      ensures forall i | 0 <= i < NIL && i !in Ids(t) && i !in CtxIds(c) :: mem.pool[i] == old(mem.pool[i])
    {
      NodeView(mem.pool[..], c, t);
      DepthWithin(c, t);
      color := mem.pool[z].color;
      if mem.pool[z].left == NIL || mem.pool[z].right == NIL {
        x := if mem.pool[z].left == NIL then mem.pool[z].right else mem.pool[z].left;
        k, xt := c, OnlyChild(t);
        ExtractOneFacts(mem.pool[..], mem.root, c, t);
        UnlinkOne(z, x, c, t);
      } else {
        ghost var d, yt;
        x, color, k, d, yt := UnlinkTwo(z, c, t);
        xt := yt.right;
        ExtractTwoFacts(c, t, d, yt);
        SuccessorDepth(c, t, d, yt);
      }
    }

    // Removal and repair, in at most one round more than the old tree is high; afterwards
    // `z` is in no list.
    method Extract(z: nat, ghost c: Ctx, ghost t: Tree) returns (ghost steps: nat)
      requires ValidTree() && mem.At(c, t) && Plug(c, t) == tree && t.T? && z == t.id
      modifies this`tree, mem, mem.pool
      ensures ValidTree() && z !in Ids(tree) && z !in free && steps <= 1 + Height(old(tree))
      ensures Areas(old(tree)) == Before(c) + Areas(t.left) + [t.area] + (Areas(t.right) + After(c))
      ensures Areas(tree) == Before(c) + Areas(t.left) + (Areas(t.right) + After(c))
    {
      PlugIds(c, t);
      ghost var m := mem.pool[..];
      var x, color;
      ghost var k, xt;
      x, color, k, xt := Unlink(z, c, t);
      if color == Black {
        tree, steps := mem.DeleteFixup(x, k, xt);
      } else {
        tree, steps := Plug(k, xt), 0;
        PlugZip(mem.pool[..], mem.root, k, xt);
      }
      FreeListBelow(m, freeHead, free);
      FreeListFrame(m, mem.pool[..], freeHead, free);
    }

    method Remove(start: u32) returns (code: int)
      requires Valid()
      modifies this, mem, mem.pool
      ensures Valid()
      ensures (Contents(), Status(code)) == Step(old(Contents()), VmaSpec.Remove(start))
    {
      var z;
      ghost var c, t;
      z, c, t := FindStart(start);
      if z == NIL {
        return -1;
      }
      ghost var steps := Extract(z, c, t);
      OrderedDelete(Before(c) + Areas(t.left), t.area, Areas(t.right) + After(c));
      Recycle(z);
      count := count - 1;
      code := 0;
    }

    method Recycle(z: nat)
      requires ValidTree() && z < NIL && z !in Ids(tree) && z !in free
      modifies this`freeHead, this`free, mem.pool
      ensures ValidTree() && free == [z] + old(free)
    {
      ghost var m := mem.pool[..];
      PoolFree(z);
      ZipFrame(m, mem.pool[..], mem.root, Top, tree);
    }
  }

  lemma DescendOrder(c: Ctx, t: Tree)
    requires t.T? && Ordered(Areas(Plug(c, t)))
    ensures forall a <- After(LeftOf(c, t)) :: a in After(c) || a == t.area || t.area.start < a.start
    ensures forall a <- Before(RightOf(c, t)) :: a in Before(c) || a == t.area || a.start < t.area.start
  {
    PlugAreas(c, t);
    FocusListing(c, t);
  }

  lemma ExtractOneFacts(m: Memory, root: nat, c: Ctx, t: Tree)
    requires Zip(m, root, c, t) && t.T? && (t.left.Leaf? || t.right.Leaf?)
    requires Balanced(Plug(c, t)) && IsBlack(Plug(c, t))
    ensures var x := OnlyChild(t);
      && (t.color.Black? ==> DeletePoint(c, x))
      && (t.color.Red? ==> Balanced(Plug(c, x)) && IsBlack(Plug(c, x)))
      && Ids(Plug(c, x)) == Ids(t) + CtxIds(c) - {t.id}
    ensures var pre := Before(c) + Areas(t.left);
            var post := Areas(t.right) + After(c);
            Areas(Plug(c, t)) == pre + [t.area] + post && Areas(Plug(c, OnlyChild(t))) == pre + post
  {
    SpliceBalance(c, t);
    SpliceListing(c, t);
    PlugIds(c, t);
    PlugIds(c, OnlyChild(t));
  }

  lemma ExtractTwoFacts(c: Ctx, t: Tree, d: Ctx, yt: Tree)
    requires t.T? && yt.T? && yt.left.Leaf? && AllLeft(d) && t.right == Plug(d, yt)
    requires Balanced(Plug(c, t)) && IsBlack(Plug(c, t)) && SepTree(t) && Ids(t) !! CtxIds(c)
    ensures var k := Append(d, Frame(false, yt.id, t.color, yt.area, t.left, c));
      && (yt.color.Black? ==> DeletePoint(k, yt.right))
      && (yt.color.Red? ==> Balanced(Plug(k, yt.right)) && IsBlack(Plug(k, yt.right)))
      && Ids(Plug(k, yt.right)) == Ids(t) + CtxIds(c) - {t.id}
      && (var pre := Before(c) + Areas(t.left);
          var post := Areas(t.right) + After(c);
          Areas(Plug(c, t)) == pre + [t.area] + post && Areas(Plug(k, yt.right)) == pre + post)
  {
    SuccessorBalance(c, t, d, yt);
    SuccessorListing(c, t, d, yt);
    ExtractTwoIds(c, t, d, yt);
  }

  // The successor's place is no deeper than the tree is high.
  lemma SuccessorDepth(c: Ctx, t: Tree, d: Ctx, yt: Tree)
    requires t.T? && yt.T? && t.right == Plug(d, yt)
    ensures Depth(Append(d, Frame(false, yt.id, t.color, yt.area, t.left, c))) <= Height(Plug(c, t))
  {
    DepthAppend(d, Frame(false, yt.id, t.color, yt.area, t.left, c));
    DepthWithin(d, yt);
    DepthWithin(c, t);
  }

  lemma {:induction false} DepthAppend(d: Ctx, c: Ctx)
    ensures Depth(Append(d, c)) == Depth(d) + Depth(c)
    decreases d
  {
    if d.Frame? {
      DepthAppend(d.up, c);
    }
  }

  lemma ExtractTwoIds(c: Ctx, t: Tree, d: Ctx, yt: Tree)
    requires t.T? && yt.T? && yt.left.Leaf? && t.right == Plug(d, yt) && SepTree(t) && Ids(t) !! CtxIds(c)
    ensures var t' := T(yt.id, t.color, yt.area, t.left, Plug(d, yt.right));
            Ids(Plug(c, t')) == Ids(t) + CtxIds(c) - {t.id}
  {
    SuccessorApart(t, d, yt);
    PlugIds(c, T(yt.id, t.color, yt.area, t.left, Plug(d, yt.right)));
  }

  lemma NodeView(m: Memory, c: Ctx, t: Tree)
    requires RepTree(m, t, CtxId(c)) && t.T?
    ensures t.id < NIL < |m| && m[t.id] == Node(t.area, t.color, CtxId(c), Link(t.left), Link(t.right))
    ensures (Link(t.left) == NIL <==> t.left.Leaf?) && (Link(t.right) == NIL <==> t.right.Leaf?)
  {
    assert RepTree(m, t.left, t.id) && RepTree(m, t.right, t.id);
  }

  lemma NewLeaf(c: Ctx, z: nat, a: Area)
    requires Balanced(Plug(c, Leaf)) && IsBlack(Plug(c, Leaf))
    ensures var t := T(z, Red, a, Leaf, Leaf);
            InsertPoint(c, t) && Areas(Plug(c, t)) == Before(c) + [a] + After(c) && Ids(Plug(c, t)) == CtxIds(c) + {z}
    ensures Ids(Plug(c, Leaf)) == CtxIds(c)
  {
    var t := T(z, Red, a, Leaf, Leaf);
    UnplugBalanced(c, Leaf);
    PlugIds(c, Leaf);
    PlugIds(c, t);
    PlugAreas(c, t);
  }

  // A new range between the two sides of an empty slot keeps the listing ordered.
  lemma InsertListing(c: Ctx, t: Tree, a: Area)
    requires t == Plug(c, Leaf) && Ordered(Areas(t)) && ValidRange(a.start, a.end)
    requires forall b <- Before(c) :: b.end <= a.start
    requires forall b <- After(c) :: a.end <= b.start
    ensures var s := Before(c) + [a] + After(c);
            Ordered(s) && Elems(s) == Elems(Areas(t)) + {a} && |s| == |Areas(t)| + 1
    ensures forall b <- Elems(Areas(t)) :: !Overlap(a.start, a.end, b)
  {
    PlugAreas(c, Leaf);
    assert Before(c) + [] + After(c) == Before(c) + After(c);
    OrderedInsert(Before(c), a, After(c));
  }

  lemma StepBound(t: Tree, steps: nat)
    requires Balanced(t) && IsBlack(t) && steps <= Height(t)
    ensures Pow2(steps) <= (|Areas(t)| + 1) * (|Areas(t)| + 1)
  {
    HeightBound(t);
    Pow2Monotone(steps, Height(t));
  }

  function LeftOf(c: Ctx, t: Tree): Ctx
    requires t.T?
  {
    Frame(true, t.id, t.color, t.area, t.right, c)
  }

  function RightOf(c: Ctx, t: Tree): Ctx
    requires t.T?
  {
    Frame(false, t.id, t.color, t.area, t.left, c)
  }

  // One step of a descent: what the node at the focus says about the rest of the tree.
  // The ranges to the left of this place end before the new one, those to the right start
  // after it.
  ghost predicate Bracketed(c: Ctx, start: u32, end: u32) {
    && (forall a <- Before(c) :: a.end <= start) && (forall a <- After(c) :: end <= a.start)
    && (c.Frame? ==> (c.onLeft <==> start < c.area.start))
  }

  // A place on the descent for a new range, `steps` nodes down.
  ghost predicate Path(m: Memory, root: nat, c: Ctx, t: Tree, tree: Tree, steps: nat, start: u32, end: u32) {
    Zip(m, root, c, t) && Plug(c, t) == tree && Bracketed(c, start, end) && steps + Height(t) <= Height(tree)
  }

  // The descent goes on past a range that does not overlap.
  lemma PathStep(m: Memory, root: nat, c: Ctx, t: Tree, tree: Tree, steps: nat, start: u32, end: u32)
    requires Path(m, root, c, t, tree, steps, start, end) && t.T? && Ordered(Areas(tree)) && start < end
    ensures t.id < NIL && m[t.id] == Node(t.area, t.color, CtxId(c), Link(t.left), Link(t.right))
    ensures t.area in Areas(tree) && steps + 1 <= Height(tree)
    ensures !Overlap(start, end, t.area) ==>
      if start < t.area.start then Path(m, root, LeftOf(c, t), t.left, tree, steps + 1, start, end)
      else Path(m, root, RightOf(c, t), t.right, tree, steps + 1, start, end)
  {
    Descend(m, root, c, t);
  }

  lemma Descend(m: Memory, root: nat, c: Ctx, t: Tree)
    requires Zip(m, root, c, t) && t.T? && Ordered(Areas(Plug(c, t)))
    ensures t.id < NIL && m[t.id] == Node(t.area, t.color, CtxId(c), Link(t.left), Link(t.right))
    ensures t.area in Areas(Plug(c, t)) && ValidRange(t.area.start, t.area.end)
    ensures var l := LeftOf(c, t);
      && Zip(m, root, l, t.left) && Plug(l, t.left) == Plug(c, t) && Before(l) == Before(c)
      && forall a <- After(l) :: a in After(c) || t.area.start <= a.start
    ensures var r := RightOf(c, t);
      && Zip(m, root, r, t.right) && Plug(r, t.right) == Plug(c, t) && After(r) == After(c)
      && forall a <- Before(r) :: a in Before(c) || (a.start <= t.area.start && a.end <= t.area.end)
  {
    ZipDown(m, root, c, true, t.id, t.color, t.area, t.left, t.right);
    ZipDown(m, root, c, false, t.id, t.color, t.area, t.right, t.left);
    PlugAreas(c, t);
    FocusListing(c, t);
  }

  // Around a focused node the ranges are split at its range.
  lemma FocusListing(c: Ctx, t: Tree)
    requires t.T? && Ordered(Before(c) + Areas(t) + After(c))
    ensures t.area in Before(c) + Areas(t) + After(c)
    ensures ValidRange(t.area.start, t.area.end)
    ensures forall a <- Areas(t.left) :: a.end <= t.area.start && ValidRange(a.start, a.end)
    ensures forall a <- Areas(t.right) :: t.area.end <= a.start
  {
    OrderedSplit(Before(c) + Areas(t), After(c));
    OrderedSplit(Before(c), Areas(t));
    OrderedSplit(Areas(t.left) + [t.area], Areas(t.right));
    OrderedSplit(Areas(t.left), [t.area]);
    assert Areas(t)[|Areas(t.left)|] == t.area;
    assert (Before(c) + Areas(t) + After(c))[|Before(c)| + |Areas(t.left)|] == t.area;
  }

  ghost function From(i: nat): (s: seq<nat>)
    requires i <= CAPACITY
    ensures |s| == CAPACITY - i && forall j | 0 <= j < |s| :: s[j] == i + j
  {
    seq(CAPACITY - i, j requires 0 <= j => i + j)
  }

  lemma {:induction false} InitialFreeList(m: Memory, i: nat)
    requires |m| == NIL + 1 && i <= CAPACITY
    requires forall j | 0 <= j < CAPACITY - 1 :: m[j].right == j + 1
    requires m[CAPACITY - 1].right == NULL
    ensures FreeList(m, if i < CAPACITY then i else NULL, From(i))
    decreases CAPACITY - i
  {
    if i < CAPACITY {
      InitialFreeList(m, i + 1);
      assert From(i)[1..] == From(i + 1);
    }
  }
}
