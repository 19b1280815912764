// The nodes of the B+ tree in their static pool, and what holds of each node locally. The
// ghost record of a node gives its level and the addresses it is responsible for.
module MapleNodes {
  import opened Prelude
  import opened VmaSpec

  const SLOTS: nat := 10
  const MAX_PIVOTS: nat := SLOTS - 1   // as declared; see MapleLimit for what that means for leaves
  const SPLIT_MID: nat := 5
  const MAX_NODES: nat := 64
  const NULL: nat := 64
  const TOP: nat := WORD

  // A leaf has a pivot for each slot, the start of its range; an inner node has a pivot
  // between each two children.
  datatype Node = Node(isLeaf: bool, parent: nat, pivots: seq<nat>, children: seq<nat>, slots: seq<Area>)

  // The node is responsible for [lo, hi). While a split is being passed on to the parent,
  // `slotHi` is the bound the parent still shows, and the new right half is an orphan.
  datatype Info = Info(level: nat, lo: nat, hi: nat, slotHi: nat, orphan: bool)

  datatype Tree = Tree(m: seq<Node>, g: seq<Info>, root: nat, used: nat)

  function Entries(n: Node): nat {
    if n.isLeaf then |n.slots| else |n.children|
  }

  // ---- local invariants ----

  predicate Sized(s: Tree) {
    |s.m| == |s.g| == MAX_NODES && s.root < s.used <= MAX_NODES
  }

  function LoAt(s: Tree, x: nat, k: nat): nat
    requires Sized(s) && x < s.used && k <= |s.m[x].pivots|
  {
    if k == 0 then s.g[x].lo else s.m[x].pivots[k - 1]
  }

  function HiAt(s: Tree, x: nat, k: nat): nat
    requires Sized(s) && x < s.used
  {
    if k < |s.m[x].pivots| then s.m[x].pivots[k] else s.g[x].hi
  }

  // Child k hangs under x, one level down, over its share of the addresses.
  ghost predicate KidOk(s: Tree, x: nat, k: nat)
    requires Sized(s) && x < s.used && k < |s.m[x].children| == |s.m[x].pivots| + 1
  {
    var c := s.m[x].children[k];
    && c < s.used && s.m[c].parent == x && !s.g[c].orphan && s.g[c].level + 1 == s.g[x].level
    && s.g[c].lo == LoAt(s, x, k) && s.g[c].slotHi == HiAt(s, x, k)
    && s.g[c].lo < s.g[c].slotHi
  }

  ghost predicate LeafOk(n: Node, i: Info) {
    && n.children == [] && i.level == 0 && |n.pivots| == |n.slots|
    && (forall k | 0 <= k < |n.slots| :: n.pivots[k] == n.slots[k].start)
    && Ordered(n.slots) && (forall k | 0 <= k < |n.slots| :: i.lo <= n.slots[k].start && n.slots[k].end <= i.hi)
  }

  ghost predicate InnerOk(s: Tree, x: nat)
    requires Sized(s) && x < s.used
  {
    && s.m[x].slots == [] && s.g[x].level > 0
    && |s.m[x].children| == |s.m[x].pivots| + 1 && |s.m[x].children| >= 2
    && forall k: nat | k < |s.m[x].children| :: KidOk(s, x, k)
  }

  ghost predicate NodeOk(s: Tree, x: nat)
    requires Sized(s) && x < s.used
  {
    && s.g[x].lo < s.g[x].hi <= s.g[x].slotHi <= TOP && Entries(s.m[x]) <= SLOTS
    && if s.m[x].isLeaf then LeafOk(s.m[x], s.g[x]) else InnerOk(s, x)
  }

  // Every node but the root and orphans is among the children of its parent.
  ghost predicate UpOk(s: Tree, x: nat)
    requires Sized(s) && x < s.used
  {
    if x == s.root || s.g[x].orphan then s.m[x].parent == NULL else
      var p := s.m[x].parent;
      && p < s.used && !s.m[p].isLeaf && x in s.m[p].children
      && s.g[x].level < s.g[s.root].level
  }

  // Nodes are at least half full, except a root that has not just been split.
  ghost predicate FillOk(s: Tree, x: nat)
    requires Sized(s) && x < s.used
  {
    x != s.root || s.g[x].hi != s.g[x].slotHi ==> SPLIT_MID <= Entries(s.m[x])
  }

  ghost predicate RootOk(s: Tree)
    requires Sized(s)
  {
    && !s.g[s.root].orphan && s.g[s.root].lo == 0 && s.g[s.root].slotHi == TOP
    && forall x: nat | x < s.used :: s.g[x].level <= s.g[s.root].level
  }

  ghost predicate LocalOk(s: Tree, x: nat)
    requires Sized(s) && x < s.used
  {
    NodeOk(s, x) && UpOk(s, x) && FillOk(s, x)
  }

  ghost predicate Shape(s: Tree) {
    Sized(s) && RootOk(s) && forall x: nat | x < s.used :: LocalOk(s, x)
  }

  // No split is being passed on.
  ghost predicate Settled(s: Tree)
    requires Sized(s)
  {
    forall x: nat | x < s.used :: !s.g[x].orphan && s.g[x].slotHi == s.g[x].hi
  }

  // ---- stored areas ----

  ghost predicate Stores(s: Tree, a: Area)
    requires Sized(s)
  {
    exists x: nat :: x < s.used && a in s.m[x].slots
  }

  ghost predicate StartOf(S: set<Area>, h: nat) {
    h == TOP || exists a <- S :: a.start == h
  }

  // Right bounds are starts of stored areas, so no area crosses one.
  ghost predicate BoundOk(s: Tree, x: nat, S: set<Area>)
    requires Sized(s) && x < s.used
  {
    StartOf(S, s.g[x].hi) && StartOf(S, s.g[x].slotHi)
  }

  ghost predicate Holds(s: Tree, S: set<Area>) {
    && Shape(s)
    && (forall a: Area :: a in S <==> Stores(s, a))
    && (forall x: nat | x < s.used :: BoundOk(s, x, S))
  }

  // ---- children of one node ----

  lemma KidFacts(s: Tree, x: nat, k: nat)
    requires Shape(s) && x < s.used && !s.m[x].isLeaf && k < |s.m[x].children|
    ensures |s.m[x].children| == |s.m[x].pivots| + 1 && KidOk(s, x, k) && NodeOk(s, s.m[x].children[k])
  {
    assert LocalOk(s, x);
    assert KidOk(s, x, k);
    assert LocalOk(s, s.m[x].children[k]);
  }

  lemma {:induction false} KidsInOrder(s: Tree, x: nat, i: nat, j: nat)
    requires Shape(s) && x < s.used && !s.m[x].isLeaf && i < j < |s.m[x].children|
    ensures |s.m[x].children| == |s.m[x].pivots| + 1
    ensures HiAt(s, x, i) <= LoAt(s, x, j)
    decreases j
  {
    KidFacts(s, x, i);
    if i + 1 < j {
      KidsInOrder(s, x, i, j - 1);
      KidFacts(s, x, j - 1);
    }
  }

  lemma KidInside(s: Tree, x: nat, k: nat)
    requires Shape(s) && x < s.used && !s.m[x].isLeaf && k < |s.m[x].children|
    ensures |s.m[x].children| == |s.m[x].pivots| + 1
    ensures s.g[x].lo <= LoAt(s, x, k) < HiAt(s, x, k) <= s.g[x].hi
  {
    KidFacts(s, x, k);
    KidFacts(s, x, 0);
    var last := |s.m[x].children| - 1;
    KidFacts(s, x, last);
    if k > 0 {
      KidsInOrder(s, x, 0, k);
    }
    if k < last {
      KidsInOrder(s, x, k, last);
    }
  }

  // An address picks out one child.
  lemma KidUnique(s: Tree, x: nat, i: nat, j: nat, a: nat)
    requires Shape(s) && x < s.used && !s.m[x].isLeaf && i < |s.m[x].children| && j < |s.m[x].children|
    requires |s.m[x].children| == |s.m[x].pivots| + 1
    requires LoAt(s, x, i) <= a < HiAt(s, x, i) && LoAt(s, x, j) <= a < HiAt(s, x, j)
    ensures i == j
  {
    if i < j {
      KidsInOrder(s, x, i, j);
    } else if j < i {
      KidsInOrder(s, x, j, i);
    }
  }

  // What the scan over the pivots finds.
  ghost predicate ScanStop(pivots: seq<nat>, a: nat, k: nat) {
    k <= |pivots| && (forall i | 0 <= i < k :: pivots[i] <= a) && (k < |pivots| ==> a < pivots[k])
  }

  lemma ScanIsChild(s: Tree, x: nat, a: nat, k: nat)
    requires Shape(s) && x < s.used && !s.m[x].isLeaf && s.g[x].lo <= a < s.g[x].hi && ScanStop(s.m[x].pivots, a, k)
    ensures |s.m[x].children| == |s.m[x].pivots| + 1 && KidOk(s, x, k)
    ensures LoAt(s, x, k) <= a < HiAt(s, x, k)
  {
    assert LocalOk(s, x);
    KidFacts(s, x, k);
  }

  // ---- one leaf per address ----

  lemma {:induction false} NodeOfLevel(s: Tree, x: nat, y: nat, a: nat)
    requires Shape(s) && Settled(s) && x < s.used && y < s.used && s.g[x].level == s.g[y].level
    requires s.g[x].lo <= a < s.g[x].hi && s.g[y].lo <= a < s.g[y].hi
    ensures x == y
    decreases s.g[s.root].level - s.g[x].level
  {
    assert LocalOk(s, x) && LocalOk(s, y);
    if x != s.root && y != s.root {
      var p, q := s.m[x].parent, s.m[y].parent;
      var i :| 0 <= i < |s.m[p].children| && s.m[p].children[i] == x;
      var j :| 0 <= j < |s.m[q].children| && s.m[q].children[j] == y;
      KidFacts(s, p, i);
      KidFacts(s, q, j);
      KidInside(s, p, i);
      KidInside(s, q, j);
      NodeOfLevel(s, p, q, a);
      KidUnique(s, p, i, j, a);
    }
  }

  // The leaf responsible for an address is the only place an area containing it can be.
  lemma FindExact(s: Tree, S: set<Area>, x: nat, addr: u32, a: Area)
    requires Holds(s, S) && Settled(s) && x < s.used && s.m[x].isLeaf && s.g[x].lo <= addr < s.g[x].hi
    requires a in S && Contains(a, addr)
    ensures a in s.m[x].slots
  {
    assert Stores(s, a);
    var y: nat :| y < s.used && a in s.m[y].slots;
    assert LocalOk(s, x) && LocalOk(s, y);
    NodeOfLevel(s, x, y, addr);
  }
}
