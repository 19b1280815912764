// What insertion, splitting and passing a split upwards do to the tree.
module MapleSplit {
  import opened VmaSpec
  import opened MapleNodes

  // ---- frames ----

  // The node's own entries and bounds are as before.
  ghost predicate SameNode(s: Tree, s': Tree, z: nat)
    requires Sized(s) && Sized(s') && z < s.used <= s'.used
  {
    && s'.m[z] == s.m[z].(parent := s'.m[z].parent)
    && s'.g[z].level == s.g[z].level && s'.g[z].lo == s.g[z].lo && s'.g[z].hi == s.g[z].hi
    && s'.g[z].hi <= s'.g[z].slotHi <= TOP
  }

  // A child is where its parent expects it.
  ghost predicate SameKid(s: Tree, s': Tree, z: nat, c: nat)
    requires Sized(s) && Sized(s') && c < s.used <= s'.used
  {
    s'.m[c].parent == z && s'.g[c].level == s.g[c].level && s'.g[c].lo == s.g[c].lo
    && s'.g[c].slotHi == s.g[c].slotHi && s'.g[c].orphan == s.g[c].orphan
  }

  lemma NodeFrame(s: Tree, s': Tree, z: nat)
    requires Sized(s) && Sized(s') && z < s.used <= s'.used && NodeOk(s, z) && SameNode(s, s', z)
    requires forall c: nat | c in s.m[z].children && c < s.used :: SameKid(s, s', z, c)
    ensures NodeOk(s', z)
  {
    if !s.m[z].isLeaf {
      forall k: nat | k < |s.m[z].children| ensures KidOk(s', z, k) {
        var c := s.m[z].children[k];
        assert KidOk(s, z, k);
        assert c in s.m[z].children && SameKid(s, s', z, c);
      }
    }
  }

  // ---- inserting into a leaf ----

  function LeafInsert(n: Node, pos: nat, a: Area): Node
    requires pos <= |n.pivots| == |n.slots|
  {
    n.(pivots := n.pivots[..pos] + [a.start] + n.pivots[pos..], slots := n.slots[..pos] + [a] + n.slots[pos..])
  }

  function Inserted(s: Tree, x: nat, pos: nat, a: Area): Tree
    requires Sized(s) && x < s.used && pos <= |s.m[x].pivots| == |s.m[x].slots|
  {
    s.(m := s.m[x := LeafInsert(s.m[x], pos, a)])
  }

  ghost predicate PosFor(n: Node, pos: nat, start: nat) {
    && pos <= |n.slots|
    && (forall i | 0 <= i < pos :: n.slots[i].start < start)
    && (forall i | pos <= i < |n.slots| :: start <= n.slots[i].start)
  }

  lemma StoredValid(s: Tree, S: set<Area>, a: Area)
    requires Holds(s, S) && a in S
    ensures ValidRange(a.start, a.end)
  {
    assert Stores(s, a);
    var x: nat :| x < s.used && a in s.m[x].slots;
    assert LocalOk(s, x);
  }

  // A new area that meets no stored one stays inside the leaf its start belongs to.
  lemma StaysInside(s: Tree, S: set<Area>, x: nat, a: Area)
    requires Holds(s, S) && x < s.used && a.start < s.g[x].hi && ValidRange(a.start, a.end)
    requires forall b <- S :: !Overlap(a.start, a.end, b)
    ensures a.end <= s.g[x].hi
  {
    assert BoundOk(s, x, S);
    if s.g[x].hi != TOP {
      var b :| b in S && b.start == s.g[x].hi;
      StoredValid(s, S, b);
    }
  }

  lemma LeafInsertOk(n: Node, i: Info, pos: nat, a: Area)
    requires LeafOk(n, i) && PosFor(n, pos, a.start) && ValidRange(a.start, a.end)
    requires i.lo <= a.start && a.end <= i.hi && forall k | 0 <= k < |n.slots| :: !Overlap(a.start, a.end, n.slots[k])
    ensures LeafOk(LeafInsert(n, pos, a), i)
    ensures forall b: Area :: b in LeafInsert(n, pos, a).slots <==> b in n.slots || b == a
  {
    InsertOrdered(n.slots, pos, a);
    InsertMembers(n.slots, pos, a);
  }

  lemma InsertOrdered(s: seq<Area>, pos: nat, a: Area)
    requires Ordered(s) && pos <= |s| && ValidRange(a.start, a.end)
    requires forall k | 0 <= k < |s| :: !Overlap(a.start, a.end, s[k])
    requires (forall i | 0 <= i < pos :: s[i].start < a.start) && (forall i | pos <= i < |s| :: a.start <= s[i].start)
    ensures Ordered(s[..pos] + [a] + s[pos..])
  {
    var pre, post := s[..pos], s[pos..];
    assert s == pre + post;
    forall k | 0 <= k < |pre| ensures pre[k].end <= a.start {
      assert pre[k] == s[k] && ValidRange(s[k].start, s[k].end);
    }
    forall k | 0 <= k < |post| ensures a.end <= post[k].start {
      assert post[k] == s[pos + k] && ValidRange(s[pos + k].start, s[pos + k].end);
    }
    OrderedInsert(pre, a, post);
  }

  lemma InsertMembers(s: seq<Area>, pos: nat, a: Area)
    requires pos <= |s|
    ensures forall b: Area :: b in s[..pos] + [a] + s[pos..] <==> b in s || b == a
  {
    assert s == s[..pos] + s[pos..];
  }

  lemma InsertHolds(s: Tree, S: set<Area>, x: nat, pos: nat, a: Area)
    requires Holds(s, S) && x < s.used && s.m[x].isLeaf && |s.m[x].slots| < SLOTS && PosFor(s.m[x], pos, a.start)
    requires s.g[x].lo <= a.start < s.g[x].hi && ValidRange(a.start, a.end)
    requires forall b <- S :: !Overlap(a.start, a.end, b)
    ensures |s.m[x].pivots| == |s.m[x].slots| && Holds(Inserted(s, x, pos, a), S + {a})
  {
    assert LocalOk(s, x);
    StaysInside(s, S, x, a);
    forall k | 0 <= k < |s.m[x].slots| ensures !Overlap(a.start, a.end, s.m[x].slots[k]) {
      assert Stores(s, s.m[x].slots[k]);
    }
    LeafInsertOk(s.m[x], s.g[x], pos, a);
    var s' := Inserted(s, x, pos, a);
    forall z: nat | z < s.used ensures LocalOk(s', z) {
      assert LocalOk(s, z);
      if z != x {
        forall c: nat | c in s.m[z].children && c < s.used ensures SameKid(s, s', z, c) {
          ChildOf(s, z, c);
        }
        NodeFrame(s, s', z);
      }
    }
    forall z: nat | z < s.used ensures BoundOk(s', z, S + {a}) {
      assert BoundOk(s, z, S);
    }
    forall b: Area ensures b in S + {a} <==> Stores(s', b) {
      InsertStores(s, x, pos, a, b);
    }
  }

  lemma ChildOf(s: Tree, z: nat, c: nat)
    requires Sized(s) && z < s.used && NodeOk(s, z) && c in s.m[z].children
    ensures !s.m[z].isLeaf && c < s.used && s.m[c].parent == z && !s.g[c].orphan
  {
    var k :| 0 <= k < |s.m[z].children| && s.m[z].children[k] == c;
    if !s.m[z].isLeaf {
      assert KidOk(s, z, k);
    }
  }

  lemma InsertStores(s: Tree, x: nat, pos: nat, a: Area, b: Area)
    requires Sized(s) && x < s.used && pos <= |s.m[x].pivots| == |s.m[x].slots|
    requires forall b: Area :: b in LeafInsert(s.m[x], pos, a).slots <==> b in s.m[x].slots || b == a
    ensures Stores(Inserted(s, x, pos, a), b) <==> Stores(s, b) || b == a
  {
    var s' := Inserted(s, x, pos, a);
    if Stores(s, b) {
      var z: nat :| z < s.used && b in s.m[z].slots;
      assert b in s'.m[z].slots;
    }
    if b == a {
      assert b in s'.m[x].slots;
    }
    if Stores(s', b) {
      var z: nat :| z < s'.used && b in s'.m[z].slots;
      assert z != x ==> b in s.m[z].slots;
    }
  }

  // ---- splitting a full node ----

  function SplitKey(n: Node): nat
    requires |n.pivots| > SPLIT_MID
  {
    if n.isLeaf then n.pivots[SPLIT_MID] else n.pivots[SPLIT_MID - 1]
  }

  ghost predicate FullNode(n: Node) {
    Entries(n) == SLOTS && if n.isLeaf then |n.pivots| == |n.slots| else |n.children| == |n.pivots| + 1
  }

  function LeftHalf(n: Node): Node
    requires FullNode(n)
  {
    if n.isLeaf then n.(pivots := n.pivots[..SPLIT_MID], slots := n.slots[..SPLIT_MID])
    else n.(pivots := n.pivots[..SPLIT_MID - 1], children := n.children[..SPLIT_MID])
  }

  function RightHalf(n: Node): Node
    requires FullNode(n)
  {
    if n.isLeaf then Node(true, NULL, n.pivots[SPLIT_MID..], [], n.slots[SPLIT_MID..])
    else Node(false, NULL, n.pivots[SPLIT_MID..], n.children[SPLIT_MID..], [])
  }

  // The given nodes get a new parent.
  function Adopt(m: seq<Node>, z: nat, kids: seq<nat>): (m': seq<Node>)
    ensures |m'| == |m|
    ensures forall i | 0 <= i < |m| :: m'[i] == if i in kids then m[i].(parent := z) else m[i]
  {
    seq(|m|, i requires 0 <= i < |m| => if i in kids then m[i].(parent := z) else m[i])
  }

  function SplitInfo(g: seq<Info>, x: nat, z: nat, key: nat): seq<Info>
    requires x < |g| && z < |g|
  {
    g[x := g[x].(hi := key)][z := Info(g[x].level, key, g[x].hi, g[x].slotHi, true)]
  }

  function Split(s: Tree, x: nat): Tree
    requires Sized(s) && x < s.used < MAX_NODES && FullNode(s.m[x])
  {
    var n, z := s.m[x], s.used;
    Tree(Adopt(s.m[x := LeftHalf(n)][z := RightHalf(n)], z, RightHalf(n).children),
         SplitInfo(s.g, x, z, SplitKey(n)), s.root, s.used + 1)
  }

  lemma LeafHalves(n: Node, i: Info)
    requires LeafOk(n, i) && n.isLeaf && FullNode(n) && i.lo < i.hi
    ensures var key := SplitKey(n);
            && i.lo < key < i.hi && key == n.slots[SPLIT_MID].start
            && LeafOk(LeftHalf(n), i.(hi := key)) && LeafOk(RightHalf(n), i.(lo := key))
  {
    assert n.slots[0].end <= n.slots[SPLIT_MID].start;
  }

  lemma HalvesLink(s: Tree, x: nat)
    requires Shape(s) && x < s.used < MAX_NODES && FullNode(s.m[x]) && !s.m[x].isLeaf
    ensures var n, key := s.m[x], SplitKey(s.m[x]);
            s.g[x].lo < key < s.g[x].hi && key == LoAt(s, x, SPLIT_MID) == HiAt(s, x, SPLIT_MID - 1)
  {
    assert LocalOk(s, x);
    KidInside(s, x, SPLIT_MID);
    KidInside(s, x, SPLIT_MID - 1);
  }

  // A child of the node being split goes with the half it is in.
  lemma SplitKid(s: Tree, x: nat, k: nat)
    requires Shape(s) && x < s.used < MAX_NODES && FullNode(s.m[x]) && !s.m[x].isLeaf && k < SLOTS
    ensures KidOk(s, x, k)
    ensures var c, s' := s.m[x].children[k], Split(s, x);
            && c != x && c < s.used && s'.g[c] == s.g[c]
            && s'.m[c].parent == if k < SPLIT_MID then x else s.used
  {
    KidFacts(s, x, k);
    var c := s.m[x].children[k];
    if k < SPLIT_MID && c in s.m[x].children[SPLIT_MID..] {
      var j :| SPLIT_MID <= j < SLOTS && s.m[x].children[j] == c;
      KidFacts(s, x, j);
      KidUnique(s, x, k, j, s.g[c].lo);
    }
    if k >= SPLIT_MID {
      assert s.m[x].children[SPLIT_MID..][k - SPLIT_MID] == c;
    }
  }

  lemma LeftKid(s: Tree, x: nat, k: nat)
    requires Shape(s) && x < s.used < MAX_NODES && FullNode(s.m[x]) && !s.m[x].isLeaf && k < SPLIT_MID
    ensures KidOk(Split(s, x), x, k)
  {
    HalvesLink(s, x);
    SplitKid(s, x, k);
  }

  lemma RightKid(s: Tree, x: nat, k: nat)
    requires Shape(s) && x < s.used < MAX_NODES && FullNode(s.m[x]) && !s.m[x].isLeaf && k < SPLIT_MID
    requires s.g[x].hi == s.g[x].slotHi
    ensures KidOk(Split(s, x), s.used, k)
  {
    HalvesLink(s, x);
    SplitKid(s, x, SPLIT_MID + k);
  }

  lemma SplitLeftOk(s: Tree, x: nat)
    requires Shape(s) && x < s.used < MAX_NODES && FullNode(s.m[x]) && s.g[x].hi == s.g[x].slotHi
    ensures NodeOk(Split(s, x), x)
  {
    var s' := Split(s, x);
    assert LocalOk(s, x);
    if s.m[x].isLeaf {
      LeafHalves(s.m[x], s.g[x]);
    } else {
      HalvesLink(s, x);
      forall k: nat | k < SPLIT_MID ensures KidOk(s', x, k) {
        LeftKid(s, x, k);
      }
    }
  }

  lemma SplitRightOk(s: Tree, x: nat)
    requires Shape(s) && x < s.used < MAX_NODES && FullNode(s.m[x]) && s.g[x].hi == s.g[x].slotHi
    ensures NodeOk(Split(s, x), s.used)
  {
    var s', z := Split(s, x), s.used;
    assert LocalOk(s, x);
    if s.m[x].isLeaf {
      LeafHalves(s.m[x], s.g[x]);
    } else {
      HalvesLink(s, x);
      forall k: nat | k < SPLIT_MID ensures KidOk(s', z, k) {
        RightKid(s, x, k);
      }
    }
  }

  // Which nodes are moved: children of x in its right half.
  lemma MovedChild(s: Tree, x: nat, c: nat)
    requires Shape(s) && x < s.used < MAX_NODES && FullNode(s.m[x]) && c in RightHalf(s.m[x]).children
    ensures c < s.used && c != x && c != s.root && s.m[c].parent == x && !s.g[c].orphan
    ensures !s.m[x].isLeaf && c in s.m[x].children
  {
    var k :| 0 <= k < |RightHalf(s.m[x]).children| && RightHalf(s.m[x]).children[k] == c;
    assert s.m[x].children[SPLIT_MID + k] == c;
    KidFacts(s, x, SPLIT_MID + k);
    assert LocalOk(s, c);
    RootParent(s);
  }

  lemma RootParent(s: Tree)
    requires Shape(s)
    ensures s.m[s.root].parent == NULL
  {
    assert LocalOk(s, s.root);
  }

  lemma SplitOther(s: Tree, x: nat, w: nat)
    requires Shape(s) && x < s.used < MAX_NODES && FullNode(s.m[x]) && s.g[x].hi == s.g[x].slotHi
    requires w < s.used && w != x
    ensures LocalOk(Split(s, x), w)
  {
    var s', z := Split(s, x), s.used;
    assert LocalOk(s, w);
    forall c: nat | c in s.m[w].children && c < s.used ensures SameKid(s, s', w, c) {
      ChildOf(s, w, c);
      if c in RightHalf(s.m[x]).children {
        MovedChild(s, x, c);
      }
    }
    NodeFrame(s, s', w);
    SplitUp(s, x, w);
  }

  lemma InHalf(n: Node, k: nat)
    requires FullNode(n) && k < |n.children|
    ensures n.isLeaf || n.children[k] in (if k < SPLIT_MID then LeftHalf(n) else RightHalf(n)).children
  {
    if !n.isLeaf {
      assert k < SPLIT_MID ==> n.children[k] == LeftHalf(n).children[k];
      assert k >= SPLIT_MID ==> n.children[k] == RightHalf(n).children[k - SPLIT_MID];
    }
  }

  lemma SplitUp(s: Tree, x: nat, w: nat)
    requires Shape(s) && x < s.used < MAX_NODES && FullNode(s.m[x]) && w < s.used
    ensures UpOk(Split(s, x), w)
  {
    assert LocalOk(s, w);
    var s', z := Split(s, x), s.used;
    if w in RightHalf(s.m[x]).children {
      MovedChild(s, x, w);
    } else if w != s.root && !s.g[w].orphan && s.m[w].parent == x {
      var k :| 0 <= k < |s.m[x].children| && s.m[x].children[k] == w;
      InHalf(s.m[x], k);
    }
  }

  lemma SplitShape(s: Tree, x: nat)
    requires Shape(s) && x < s.used < MAX_NODES && FullNode(s.m[x]) && s.g[x].hi == s.g[x].slotHi
    ensures Shape(Split(s, x))
  {
    var s' := Split(s, x);
    assert LocalOk(s, x);
    SplitLeftOk(s, x);
    SplitRightOk(s, x);
    SplitUp(s, x, x);
    SplitFresh(s, x);
    forall w: nat | w < s'.used ensures LocalOk(s', w) {
      if w < s.used && w != x {
        SplitOther(s, x, w);
      }
    }
  }

  lemma SplitFresh(s: Tree, x: nat)
    requires Shape(s) && x < s.used < MAX_NODES && FullNode(s.m[x])
    ensures UpOk(Split(s, x), s.used) && RootOk(Split(s, x))
  {
    FreshOrphan(s, x);
    SplitLevels(s, x);
  }

  lemma FreshOrphan(s: Tree, x: nat)
    requires Shape(s) && x < s.used < MAX_NODES && FullNode(s.m[x])
    ensures Split(s, x).g[s.used].orphan && Split(s, x).m[s.used].parent == NULL
  {
    if s.used in RightHalf(s.m[x]).children {
      MovedChild(s, x, s.used);
    }
  }

  lemma SplitLevels(s: Tree, x: nat)
    requires Shape(s) && x < s.used < MAX_NODES && FullNode(s.m[x])
    ensures RootOk(Split(s, x))
  {
  }

  lemma HalfSlots(n: Node, a: Area)
    requires FullNode(n) && (!n.isLeaf ==> n.slots == [])
    ensures a in n.slots <==> a in LeftHalf(n).slots || a in RightHalf(n).slots
  {
    if n.isLeaf {
      assert n.slots == n.slots[..SPLIT_MID] + n.slots[SPLIT_MID..];
    }
  }

  lemma SplitSlots(s: Tree, x: nat, w: nat)
    requires Shape(s) && x < s.used < MAX_NODES && FullNode(s.m[x]) && w <= s.used
    ensures Split(s, x).m[w].slots ==
            if w == x then LeftHalf(s.m[x]).slots else if w == s.used then RightHalf(s.m[x]).slots else s.m[w].slots
  {
  }

  lemma SplitStores(s: Tree, x: nat, a: Area)
    requires Shape(s) && x < s.used < MAX_NODES && FullNode(s.m[x])
    ensures Stores(Split(s, x), a) <==> Stores(s, a)
  {
    var s', z := Split(s, x), s.used;
    assert LocalOk(s, x);
    HalfSlots(s.m[x], a);
    SplitSlots(s, x, x);
    SplitSlots(s, x, z);
    if w: nat :| w < s.used && a in s.m[w].slots {
      SplitSlots(s, x, w);
      assert a in s'.m[w].slots || a in s'.m[z].slots;
    }
    if w: nat :| w < s'.used && a in s'.m[w].slots {
      SplitSlots(s, x, w);
      assert a in s.m[if w == z then x else w].slots;
    }
  }

  // After a split: the right half is an orphan, and the left half's parent does not show
  // the new bound yet.
  ghost predicate Pending(s: Tree, x: nat, y: nat) {
    && Sized(s) && x < s.used && y < s.used && x != y
    && s.g[y].orphan && s.g[x].hi == s.g[y].lo && s.g[x].slotHi == s.g[y].slotHi == s.g[y].hi
    && s.g[x].level == s.g[y].level && s.g[x].hi < s.g[y].hi && !s.g[x].orphan
  }

  // That split is the only one under way.
  ghost predicate OnlyPending(s: Tree, x: nat, y: nat) {
    && Pending(s, x, y)
    && forall w: nat | w < s.used :: (w != y ==> !s.g[w].orphan) && (w != x ==> s.g[w].slotHi == s.g[w].hi)
  }

  lemma SplitHolds(s: Tree, S: set<Area>, x: nat)
    requires Holds(s, S) && x < s.used < MAX_NODES && FullNode(s.m[x]) && s.g[x].hi == s.g[x].slotHi && !s.g[x].orphan
    ensures Holds(Split(s, x), S) && Pending(Split(s, x), x, s.used)
    ensures Split(s, x).g[x].hi == SplitKey(s.m[x])
  {
    var s' := Split(s, x);
    SplitShape(s, x);
    forall a: Area ensures Stores(s', a) <==> Stores(s, a) {
      SplitStores(s, x, a);
    }
    SplitBound(s, S, x);
    forall w: nat | w < s'.used ensures BoundOk(s', w, S) {
      assert BoundOk(s, if w == s.used then x else w, S);
    }
  }

  // The key passed up starts a stored area and lies inside the node.
  lemma SplitBound(s: Tree, S: set<Area>, x: nat)
    requires Holds(s, S) && x < s.used < MAX_NODES && FullNode(s.m[x])
    ensures StartOf(S, SplitKey(s.m[x])) && s.g[x].lo < SplitKey(s.m[x]) < s.g[x].hi
  {
    assert LocalOk(s, x);
    if s.m[x].isLeaf {
      LeafHalves(s.m[x], s.g[x]);
      assert Stores(s, s.m[x].slots[SPLIT_MID]);
    } else {
      HalvesLink(s, x);
      KidFacts(s, x, SPLIT_MID - 1);
      assert BoundOk(s, s.m[x].children[SPLIT_MID - 1], S);
    }
  }

  // ---- attaching the right half to the parent ----

  function ChildInsert(n: Node, pos: nat, key: nat, y: nat): Node
    requires pos <= |n.pivots| && pos < |n.children|
  {
    n.(pivots := n.pivots[..pos] + [key] + n.pivots[pos..],
       children := n.children[..pos + 1] + [y] + n.children[pos + 1..])
  }

  function ShownInfo(g: seq<Info>, x: nat, y: nat): seq<Info>
    requires x < |g| && y < |g|
  {
    g[x := g[x].(slotHi := g[x].hi)][y := g[y].(orphan := false)]
  }

  function Attached(s: Tree, p: nat, pos: nat, x: nat, y: nat): Tree
    requires Sized(s) && p < s.used && x < s.used && y < s.used && x != y && p != y
    requires pos <= |s.m[p].pivots| && pos < |s.m[p].children|
  {
    s.(m := s.m[p := ChildInsert(s.m[p], pos, s.g[x].hi, y)][y := s.m[y].(parent := p)], g := ShownInfo(s.g, x, y))
  }

  ghost predicate CanAttach(s: Tree, p: nat, pos: nat, x: nat, y: nat) {
    && Shape(s) && Pending(s, x, y) && p < s.used && !s.m[p].isLeaf && Entries(s.m[p]) < SLOTS
    && pos < |s.m[p].children| && s.m[p].children[pos] == x
  }

  lemma AttachFacts(s: Tree, p: nat, pos: nat, x: nat, y: nat)
    requires CanAttach(s, p, pos, x, y)
    ensures p != x && p != y && x != s.root && y != s.root && s.m[x].parent == p
    ensures |s.m[p].children| == |s.m[p].pivots| + 1 && KidOk(s, p, pos)
    ensures forall k: nat | k < |s.m[p].children| :: s.m[p].children[k] != y && (k != pos ==> s.m[p].children[k] != x)
  {
    assert LocalOk(s, p) && LocalOk(s, x);
    KidFacts(s, p, pos);
    RootParent(s);
    forall k: nat | k < |s.m[p].children| ensures s.m[p].children[k] != y && (k != pos ==> s.m[p].children[k] != x) {
      KidFacts(s, p, k);
      if k != pos && s.m[p].children[k] == x {
        KidUnique(s, p, k, pos, s.g[x].lo);
      }
    }
  }

  lemma AttachKid(s: Tree, p: nat, pos: nat, x: nat, y: nat, k: nat)
    requires CanAttach(s, p, pos, x, y) && k <= |s.m[p].children| && p != y && |s.m[p].children| == |s.m[p].pivots| + 1
    ensures KidOk(Attached(s, p, pos, x, y), p, k)
  {
    AttachFacts(s, p, pos, x, y);
    if k <= pos {
      KidFacts(s, p, k);
    } else {
      KidFacts(s, p, k - 1);
    }
  }

  lemma AttachParentOk(s: Tree, p: nat, pos: nat, x: nat, y: nat)
    requires CanAttach(s, p, pos, x, y) && p != y && |s.m[p].children| == |s.m[p].pivots| + 1
    ensures LocalOk(Attached(s, p, pos, x, y), p)
  {
    AttachFacts(s, p, pos, x, y);
    assert LocalOk(s, p);
    var s' := Attached(s, p, pos, x, y);
    forall k: nat | k < |s'.m[p].children| ensures KidOk(s', p, k) {
      AttachKid(s, p, pos, x, y, k);
    }
    AttachUp(s, p, pos, x, y, p);
  }

  lemma AttachUp(s: Tree, p: nat, pos: nat, x: nat, y: nat, w: nat)
    requires CanAttach(s, p, pos, x, y) && w < s.used && p != y && |s.m[p].children| == |s.m[p].pivots| + 1
    ensures UpOk(Attached(s, p, pos, x, y), w)
  {
    AttachFacts(s, p, pos, x, y);
    assert LocalOk(s, w) && LocalOk(s, x) && LocalOk(s, y);
    var s' := Attached(s, p, pos, x, y);
    ChildrenKept(s.m[p], pos, s.g[x].hi, y);
  }

  lemma ChildrenKept(n: Node, pos: nat, key: nat, y: nat)
    requires pos <= |n.pivots| && pos < |n.children|
    ensures forall c: nat :: c in ChildInsert(n, pos, key, y).children <==> c in n.children || c == y
  {
    assert n.children == n.children[..pos + 1] + n.children[pos + 1..];
  }

  lemma AttachOther(s: Tree, p: nat, pos: nat, x: nat, y: nat, w: nat)
    requires CanAttach(s, p, pos, x, y) && w < s.used && w != p && p != y && |s.m[p].children| == |s.m[p].pivots| + 1
    ensures LocalOk(Attached(s, p, pos, x, y), w)
  {
    AttachFacts(s, p, pos, x, y);
    assert LocalOk(s, w);
    var s' := Attached(s, p, pos, x, y);
    forall c: nat | c in s.m[w].children && c < s.used ensures SameKid(s, s', w, c) {
      ChildOf(s, w, c);
    }
    NodeFrame(s, s', w);
    AttachUp(s, p, pos, x, y, w);
  }

  lemma AttachHolds(s: Tree, S: set<Area>, p: nat, pos: nat, x: nat, y: nat)
    requires CanAttach(s, p, pos, x, y) && Holds(s, S)
    ensures p != y && |s.m[p].children| == |s.m[p].pivots| + 1 && Holds(Attached(s, p, pos, x, y), S)
  {
    AttachFacts(s, p, pos, x, y);
    var s' := Attached(s, p, pos, x, y);
    AttachParentOk(s, p, pos, x, y);
    forall w: nat | w < s'.used ensures LocalOk(s', w) {
      if w != p {
        AttachOther(s, p, pos, x, y, w);
      }
    }
    assert LocalOk(s, p);
    SameStores(s, s');
    forall w: nat | w < s'.used ensures BoundOk(s', w, S) {
      assert BoundOk(s, w, S);
    }
  }

  lemma SameStores(s: Tree, s': Tree)
    requires Sized(s) && Sized(s') && s.used <= s'.used
    requires forall w: nat | w < s'.used :: if w < s.used then s'.m[w].slots == s.m[w].slots else s'.m[w].slots == []
    ensures forall a: Area :: Stores(s', a) <==> Stores(s, a)
  {
    forall a: Area ensures Stores(s', a) <==> Stores(s, a) {
      if w: nat :| w < s.used && a in s.m[w].slots {
        assert a in s'.m[w].slots;
      }
      if w: nat :| w < s'.used && a in s'.m[w].slots {
        assert a in s.m[w].slots;
      }
    }
  }

  // Scanning the parent's pivots for the key passed up stops at the node that was split.
  lemma ScanFindsChild(s: Tree, p: nat, pos: nat, x: nat, y: nat)
    requires Shape(s) && Pending(s, x, y) && x != s.root && p == s.m[x].parent
    requires p < s.used ==> ScanStop(s.m[p].pivots, s.g[x].hi, pos)
    ensures p < s.used && !s.m[p].isLeaf && pos < |s.m[p].children| && s.m[p].children[pos] == x
  {
    assert LocalOk(s, x);
    var i :| 0 <= i < |s.m[p].children| && s.m[p].children[i] == x;
    KidFacts(s, p, i);
    KidInside(s, p, i);
    ScanIsChild(s, p, s.g[x].hi, pos);
    KidUnique(s, p, i, pos, s.g[x].hi);
  }

  // ---- a new root ----

  function NewRoot(s: Tree, y: nat): Tree
    requires Sized(s) && s.used < MAX_NODES && y < s.used && y != s.root
  {
    var x, z := s.root, s.used;
    Tree(s.m[z := Node(false, NULL, [s.g[x].hi], [x, y], [])][x := s.m[x].(parent := z)][y := s.m[y].(parent := z)],
         ShownInfo(s.g, x, y)[z := Info(s.g[x].level + 1, 0, TOP, TOP, false)], z, z + 1)
  }

  lemma NewRootOther(s: Tree, y: nat, w: nat)
    requires Shape(s) && Pending(s, s.root, y) && s.used < MAX_NODES && w < s.used
    ensures LocalOk(NewRoot(s, y), w)
  {
    var s' := NewRoot(s, y);
    assert LocalOk(s, w) && LocalOk(s, s.root);
    forall c: nat | c in s.m[w].children && c < s.used ensures SameKid(s, s', w, c) {
      ChildOf(s, w, c);
    }
    NodeFrame(s, s', w);
  }

  lemma NewRootTop(s: Tree, y: nat)
    requires Shape(s) && Pending(s, s.root, y) && s.used < MAX_NODES
    ensures LocalOk(NewRoot(s, y), s.used) && RootOk(NewRoot(s, y))
  {
    var s', z := NewRoot(s, y), s.used;
    assert LocalOk(s, s.root) && LocalOk(s, y);
    assert KidOk(s', z, 0) && KidOk(s', z, 1);
  }

  lemma NewRootHolds(s: Tree, S: set<Area>, y: nat)
    requires Holds(s, S) && Pending(s, s.root, y) && s.used < MAX_NODES
    ensures Holds(NewRoot(s, y), S)
  {
    var s' := NewRoot(s, y);
    NewRootTop(s, y);
    forall w: nat | w < s'.used ensures LocalOk(s', w) {
      if w < s.used {
        NewRootOther(s, y, w);
      }
    }
    SameStores(s, s');
    forall w: nat | w < s'.used ensures BoundOk(s', w, S) {
      assert w < s.used ==> BoundOk(s, w, S);
    }
  }
}
