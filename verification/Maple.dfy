// The maple-tree VMA store: a B+ tree in a static pool, with nodes split on the way up.
module Maple {
  import opened Prelude
  import opened VmaSpec
  import opened MapleNodes
  import opened MapleSplit
  import opened MapleCount
  import opened MapleCascade
  import opened MapleLimit

  const BLANK: Node := Node(false, NULL, [], [], [])

  // Nodes not yet taken are linked through their parent fields, in order.
  ghost predicate FreeChain(m: seq<Node>, free: nat) {
    forall i: nat | free <= i < |m| :: m[i].parent == i + 1
  }

  class Store {
    const nodes: array<Node>
    var free: nat             // head of the free chain
    var root: nat
    var count: nat
    ghost var info: seq<Info>
    ghost var stored: set<Area>

    ghost function Shown(): Tree
      reads this, nodes
    {
      Tree(nodes[..], info, root, free)
    }

    ghost predicate Valid()
      reads this, nodes
    {
      && nodes.Length == MAX_NODES && Resting(Shown(), stored, count) && FreeChain(nodes[..], free)
      && count == |stored| <= CAPACITY
    }

    ghost function Contents(): set<Area>
      reads this
    {
      stored
    }

    constructor ()
      ensures Valid() && fresh(nodes) && Contents() == {}
    {
      nodes := new Node[MAX_NODES](i => Node(false, i + 1, [], [], []));
      free, root, count := 0, 0, 0;
      info := seq(MAX_NODES, _ => Info(0, 0, TOP, TOP, false));
      stored := {};
      new;
      root := NodeAlloc();
      SetNode(root, nodes[root].(isLeaf := true));
      EmptyTree(Shown());
    }

    // Between steps of an insertion.
    ghost predicate Midway(child: nat, newChild: nat)
      reads this, nodes
    {
      && nodes.Length == MAX_NODES && Passing(Shown(), stored, |stored|, child, newChild) && FreeChain(nodes[..], free)
      && |stored| <= CAPACITY
    }

    // ---- the pool ----

    method SetNode(x: nat, n: Node)
      requires x < nodes.Length
      modifies nodes
      ensures nodes[..] == old(nodes[..])[x := n]
    {
      nodes[x] := n;
    }

    method NodeAlloc() returns (n: nat)
      requires nodes.Length == MAX_NODES && FreeChain(nodes[..], free) && free <= MAX_NODES
      modifies this`free, nodes
      ensures n == old(free)
      ensures n == NULL ==> nodes[..] == old(nodes[..]) && free == old(free)
      ensures n != NULL ==> nodes[..] == old(nodes[..])[n := BLANK] && free == n + 1
    {
      n := free;
      if n != NULL {
        assert nodes[..][n].parent == n + 1;
        free := nodes[n].parent;
        SetNode(n, BLANK);
      }
    }

    // ---- descending ----

    // First pivot above addr.
    method FindChild(n: Node, addr: nat) returns (k: nat)
      requires |n.children| == |n.pivots| + 1
      ensures ScanStop(n.pivots, addr, k)
    {
      k := 0;
      while k < |n.children| - 1
        invariant k <= |n.pivots| && forall i | 0 <= i < k :: n.pivots[i] <= addr
      {
        if addr < n.pivots[k] {
          return;
        }
        k := k + 1;
      }
    }

    // The leaf responsible for an address.
    method FindLeaf(addr: nat) returns (x: nat)
      requires nodes.Length == MAX_NODES && Shape(Shown()) && Settled(Shown()) && addr < TOP
      ensures x < free && nodes[x].isLeaf && info[x].lo <= addr < info[x].hi
    {
      x := root;
      while !nodes[x].isLeaf
        invariant x < free && info[x].lo <= addr < info[x].hi
        decreases info[x].level
      {
        assert LocalOk(Shown(), x);
        var k := FindChild(nodes[x], addr);
        ScanIsChild(Shown(), x, addr, k);
        KidFacts(Shown(), x, k);
        x := nodes[x].children[k];
      }
    }

    method Find(addr: u32) returns (r: Option<Area>)
      requires Valid()
      ensures IsHit(Contents(), addr, r)
    {
      var x := FindLeaf(addr);
      var n := nodes[x];
      var i := 0;
      while i < |n.slots|
        invariant i <= |n.slots| && forall j | 0 <= j < i :: !Contains(n.slots[j], addr)
      {
        if n.slots[i].start <= addr && addr < n.slots[i].end {
          assert Stores(Shown(), n.slots[i]);
          return Some(n.slots[i]);
        }
        i := i + 1;
      }
      r := None;
      forall a | a in stored ensures !Contains(a, addr) {
        if Contains(a, addr) {
          FindExact(Shown(), stored, x, addr, a);
        }
      }
    }

    method Count() returns (n: nat)
      requires Valid()
      ensures n == |Contents()|
    {
      n := count;
    }

    // ---- inserting ----

    // First slot whose range starts at or after `start`.
    method FindSlot(n: Node, start: nat, ghost i: Info) returns (pos: nat)
      requires LeafOk(n, i)
      ensures PosFor(n, pos, start)
    {
      pos := 0;
      while pos < |n.slots|
        invariant pos <= |n.slots| && forall k | 0 <= k < pos :: n.slots[k].start < start
      {
        if n.pivots[pos] >= start {
          SlotsAscend(n.slots, pos);
          return;
        }
        pos := pos + 1;
      }
    }

    method InsertAt(x: nat, a: Area) returns (ghost pos: nat)
      requires nodes.Length == MAX_NODES && Sized(Shown()) && FreeChain(nodes[..], free)
      requires x < free && LeafOk(nodes[x], info[x])
      modifies nodes
      ensures FreeChain(nodes[..], free) && PosFor(old(nodes[x]), pos, a.start)
      ensures Shown() == Inserted(old(Shown()), x, pos, a)
    {
      var k := FindSlot(nodes[x], a.start, info[x]);
      pos := k;
      SetNode(x, LeafInsert(nodes[x], k, a));
    }

    method InsertIn(x: nat, a: Area)
      requires nodes.Length == MAX_NODES && Holds(Shown(), stored) && Tally(Shown(), |stored|) && FreeChain(nodes[..], free)
      requires x < free && nodes[x].isLeaf && |nodes[x].slots| < SLOTS && info[x].lo <= a.start < info[x].hi
      requires ValidRange(a.start, a.end) && forall b <- stored :: !Overlap(a.start, a.end, b)
      modifies nodes, this`stored
      ensures Holds(Shown(), stored) && Tally(Shown(), |stored|) && FreeChain(nodes[..], free)
      ensures stored == old(stored) + {a} && |stored| == |old(stored)| + 1
    {
      ghost var s := Shown();
      assert LocalOk(s, x);
      ghost var pos := InsertAt(x, a);
      InsertKeeps(s, stored, |stored|, x, pos, a);
      NotStored(stored, a);
      stored := stored + {a};
    }

    // ---- splitting ----

    method AdoptAll(z: nat, kids: seq<nat>)
      requires forall k | 0 <= k < |kids| :: kids[k] < nodes.Length
      modifies nodes
      ensures nodes[..] == Adopt(old(nodes[..]), z, kids)
    {
      ghost var m := nodes[..];
      var i := 0;
      while i < |kids|
        invariant i <= |kids| && nodes[..] == Adopt(m, z, kids[..i])
      {
        AdoptNext(m, z, kids, i);
        SetNode(kids[i], nodes[kids[i]].(parent := z));
        i := i + 1;
      }
      assert kids[..i] == kids;
    }

    // The right half of a full node moves to a fresh one.
    method SplitAt(x: nat) returns (z: nat)
      requires nodes.Length == MAX_NODES && Sized(Shown()) && FreeChain(nodes[..], free)
      requires x < free < MAX_NODES && FullNode(nodes[x]) && MovedInUse(Shown(), x)
      modifies nodes, this`free, this`info
      ensures z == old(free) && Shown() == Split(old(Shown()), x) && FreeChain(nodes[..], free)
    {
      ghost var s := Shown();
      var n := nodes[x];
      z := NodeAlloc();
      SetNode(z, RightHalf(n));
      SetNode(x, LeftHalf(n));
      assert nodes[..] == s.m[x := LeftHalf(n)][z := RightHalf(n)];
      AdoptAll(z, RightHalf(n).children);
      info := SplitInfo(info, x, z, SplitKey(n));
    }

    // ---- passing the split upwards ----

    // The new half goes in after the child it was split from.
    method AttachTo(p: nat, key: nat, newChild: nat, ghost child: nat) returns (ghost pos: nat)
      requires nodes.Length == MAX_NODES && Sized(Shown()) && FreeChain(nodes[..], free)
      requires p < free && child < free && newChild < free && p != newChild && child != newChild
      requires |nodes[p].children| == |nodes[p].pivots| + 1 && key == info[child].hi
      modifies nodes, this`info
      ensures FreeChain(nodes[..], free) && ScanStop(old(nodes[p]).pivots, key, pos)
      ensures Shown() == Attached(old(Shown()), p, pos, child, newChild)
    {
      var k := FindChild(nodes[p], key);
      pos := k;
      SetNode(p, ChildInsert(nodes[p], k, key, newChild));
      SetNode(newChild, nodes[newChild].(parent := p));
      info := ShownInfo(info, child, newChild);
    }

    // The tree grows by a level: a root above the old root and its new half.
    method GrowRoot(key: nat, newChild: nat)
      requires nodes.Length == MAX_NODES && Sized(Shown()) && FreeChain(nodes[..], free) && free < MAX_NODES
      requires newChild < free && newChild != root && key == info[root].hi
      modifies nodes, this`info, this`free, this`root
      ensures FreeChain(nodes[..], free) && Shown() == NewRoot(old(Shown()), newChild)
    {
      ghost var s := Shown();
      var child := root;
      var z := NodeAlloc();
      SetNode(z, Node(false, NULL, [key], [child, newChild], []));
      SetNode(child, nodes[child].(parent := z));
      SetNode(newChild, nodes[newChild].(parent := z));
      info := ShownInfo(info, child, newChild)[z := Info(info[child].level + 1, 0, TOP, TOP, false)];
      root := z;
      assert nodes[..] == NewRoot(s, newChild).m;
    }

    // A full parent is split, and the new half goes under the half its sibling is in.
    method SplitAndAttach(parent: nat, key: nat, newChild: nat, ghost child: nat)
      returns (newParent: nat, upKey: nat, ghost pos: nat)
      requires nodes.Length == MAX_NODES && Sized(Shown()) && FreeChain(nodes[..], free) && CanPass(Shown(), child, newChild)
      requires parent == nodes[child].parent && key == info[child].hi
      modifies nodes, this`info, this`free
      ensures FreeChain(nodes[..], free) && newParent == old(free) && upKey == SplitKey(old(nodes[parent]))
      ensures ScanStop(Split(old(Shown()), parent).m[HalfFor(old(Shown()), child)].pivots, key, pos)
      ensures Shown() == Attached(Split(old(Shown()), parent), HalfFor(old(Shown()), child), pos, child, newChild)
    {
      upKey := SplitKey(nodes[parent]);
      newParent := SplitAt(parent);
      pos := AttachTo(if key < upKey then parent else newParent, key, newChild, child);
    }

    method SplitParent(child: nat, key: nat, newChild: nat) returns (newParent: nat, upKey: nat)
      requires Midway(child, newChild) && child != root && key == info[child].hi
      requires nodes[child].parent < free ==> Entries(nodes[nodes[child].parent]) == SLOTS
      modifies nodes, this`info, this`free
      ensures Midway(old(nodes[child].parent), newParent) && upKey == info[old(nodes[child].parent)].hi
      ensures info[old(nodes[child].parent)].level == old(info[child].level) + 1
      ensures info[root].level == old(info[root].level)
    {
      ghost var s := Shown();
      BeforeSplit(s, stored, |stored|, child, newChild);
      ghost var pos;
      newParent, upKey, pos := SplitAndAttach(nodes[child].parent, key, newChild, child);
      AfterAttach(s, stored, |stored|, child, newChild, pos);
    }

    // One step up. `done` when the tree is at rest again.
    method PassUp(child: nat, key: nat, newChild: nat) returns (done: bool, child': nat, key': nat, newChild': nat)
      requires Midway(child, newChild) && key == info[child].hi
      modifies nodes, this`info, this`free, this`root
      ensures done ==> nodes.Length == MAX_NODES && Resting(Shown(), stored, |stored|) && FreeChain(nodes[..], free)
      ensures !done ==> Midway(child', newChild') && key' == info[child'].hi
      ensures !done ==> info[root].level == old(info[root].level) && info[child'].level == old(info[child].level) + 1
    {
      ghost var s := Shown();
      done, child', key', newChild' := true, child, key, newChild;
      var parent := nodes[child].parent;
      ParentKnown(s, child, newChild);
      if parent == NULL {
        RootRests(s, stored, |stored|, newChild);
        GrowRoot(key, newChild);
      } else if Entries(nodes[parent]) < SLOTS {
        ghost var pos := AttachTo(parent, key, newChild, child);
        AttachRests(s, stored, |stored|, child, newChild, pos);
      } else {
        newChild', key' := SplitParent(child, key, newChild);
        done, child' := false, parent;
      }
    }

    // Carries the split upwards until a parent has room or the tree has a new root.
    method PassAllUp(first: nat, firstKey: nat, firstNew: nat)
      requires Midway(first, firstNew) && firstKey == info[first].hi
      modifies nodes, this`info, this`free, this`root
      ensures nodes.Length == MAX_NODES && Resting(Shown(), stored, |stored|) && FreeChain(nodes[..], free)
    {
      var child, key, newChild := first, firstKey, firstNew;
      while true
        invariant Midway(child, newChild) && key == info[child].hi
        decreases info[root].level - info[child].level
        modifies nodes, this`info, this`free, this`root
      {
        LevelInTree(Shown(), child);
        var done;
        done, child, key, newChild := PassUp(child, key, newChild);
        if done {
          return;
        }
        LevelInTree(Shown(), child);
      }
    }

    method SplitLeaf(x: nat) returns (newLeaf: nat, key: nat)
      requires Valid() && count < CAPACITY && x < free && nodes[x].isLeaf && |nodes[x].slots| == SLOTS
      modifies nodes, this`info, this`free
      ensures Midway(x, newLeaf) && key == info[x].hi && newLeaf < free && x < free
      ensures nodes[x].isLeaf && |nodes[x].slots| == SPLIT_MID && info[x].lo == old(info[x].lo)
      ensures nodes[newLeaf].isLeaf && |nodes[newLeaf].slots| == SPLIT_MID
      ensures info[newLeaf].lo == key && info[newLeaf].hi == old(info[x].hi)
    {
      ghost var s := Shown();
      LeafSplit(s, stored, count, x);
      MovedAll(s, x);
      HalvesOpen(s, x);
      key := SplitKey(nodes[x]);
      newLeaf := SplitAt(x);
    }

    // The half the range belongs to takes it, while the split is still to be passed on.
    method InsertHalf(x: nat, newLeaf: nat, key: nat, a: Area)
      requires Midway(x, newLeaf) && |stored| < CAPACITY && newLeaf < free && x < free
      requires key == info[x].hi == info[newLeaf].lo && info[x].lo <= a.start < info[newLeaf].hi
      requires nodes[x].isLeaf && |nodes[x].slots| < SLOTS && nodes[newLeaf].isLeaf && |nodes[newLeaf].slots| < SLOTS
      requires ValidRange(a.start, a.end) && forall b <- stored :: !Overlap(a.start, a.end, b)
      modifies nodes, this`stored
      ensures Midway(x, newLeaf) && stored == old(stored) + {a} && |stored| == |old(stored)| + 1
    {
      ghost var s := Shown();
      InsertIn(if a.start < key then x else newLeaf, a);
      SamePending(s, Shown(), x, newLeaf);
    }

    // A full leaf: split first, then insert into the half the range belongs to.
    method SplitInsert(x: nat, a: Area)
      requires Valid() && count < CAPACITY && x < free && nodes[x].isLeaf && |nodes[x].slots| == SLOTS
      requires info[x].lo <= a.start < info[x].hi && ValidRange(a.start, a.end)
      requires forall b <- stored :: !Overlap(a.start, a.end, b)
      modifies nodes, this`info, this`free, this`root, this`stored
      ensures nodes.Length == MAX_NODES && Resting(Shown(), stored, |stored|) && FreeChain(nodes[..], free)
      ensures stored == old(stored) + {a} && |stored| == |old(stored)| + 1
    {
      var newLeaf, key := SplitLeaf(x);
      InsertHalf(x, newLeaf, key, a);
      PassAllUp(x, key, newLeaf);
    }

    // Does an area in this leaf meet the range?
    method Clash(n: Node, start: u32, end: u32) returns (clash: bool)
      ensures clash <==> ClashIn(n, start, end)
    {
      clash := false;
      var i := 0;
      while i < |n.slots|
        invariant i <= |n.slots| && forall j | 0 <= j < i :: !Overlap(start, end, n.slots[j])
      {
        if start < n.slots[i].end && n.slots[i].start < end {
          assert n.slots[i] in n.slots;
          return true;
        }
        i := i + 1;
      }
    }

    method InsertRoom(x: nat, a: Area)
      requires Valid() && x < free && nodes[x].isLeaf && |nodes[x].slots| < SLOTS
      requires info[x].lo <= a.start < info[x].hi && ValidRange(a.start, a.end)
      requires forall b <- stored :: !Overlap(a.start, a.end, b)
      modifies nodes, this`stored
      ensures nodes.Length == MAX_NODES && Resting(Shown(), stored, |stored|) && FreeChain(nodes[..], free)
      ensures stored == old(stored) + {a} && |stored| == |old(stored)| + 1
    {
      InsertIn(x, a);
    }

    method InsertNew(x: nat, a: Area)
      requires Valid() && count < CAPACITY && x < free && nodes[x].isLeaf
      requires info[x].lo <= a.start < info[x].hi && ValidRange(a.start, a.end)
      requires forall b <- stored :: !Overlap(a.start, a.end, b)
      modifies this, nodes
      ensures Valid() && stored == old(stored) + {a}
    {
      AtMostSlots(Shown(), x);
      if |nodes[x].slots| < SLOTS {
        InsertRoom(x, a);
      } else {
        SplitInsert(x, a);
      }
      CountOne();
    }

    method CountOne()
      requires nodes.Length == MAX_NODES && Resting(Shown(), stored, |stored|) && FreeChain(nodes[..], free)
      requires count + 1 == |stored| <= CAPACITY
      modifies this`count
      ensures Valid() && count == old(count) + 1
    {
      count := count + 1;
    }

    // What an addition answers, before anything is changed: 0 where it goes on to insert. The
    // answer is right except for the ranges whose overlap the check does not see; those are
    // accepted.
    method Answer(start: u32, end: u32) returns (code: int, x: nat)
      requires Valid()
      ensures code == 0 || code == -1
      ensures (code == 0 <==> CanAdd(Contents(), start, end)) <==>
              !(count < CAPACITY && ValidRange(start, end) && Unseen(Shown(), start, end))
      ensures count < CAPACITY && ValidRange(start, end) && Unseen(Shown(), start, end) ==> code == 0
      ensures code == 0 ==>
        && count < CAPACITY && ValidRange(start, end)
        && x < free && nodes[x].isLeaf && info[x].lo <= start < info[x].hi
    {
      code, x := -1, root;
      if count >= CAPACITY || start >= end || start % PAGE_SIZE != 0 || end % PAGE_SIZE != 0 {
        return;
      }
      x := FindLeaf(start);
      LeafSeesOverlap(Shown(), stored, x, start, end);
      UnseenAt(Shown(), stored, x, start, end);
      var clash := Clash(nodes[x], start, end);
      if !clash {
        code := 0;
      }
    }

    method Add(start: u32, end: u32, flags: u32, name: u32) returns (code: int)
      requires Valid() && (count < CAPACITY && ValidRange(start, end) ==> !Unseen(Shown(), start, end))
      modifies this, nodes
      ensures Valid()
      ensures (Contents(), Status(code)) == Step(old(Contents()), VmaSpec.Add(start, end, flags, name))
    {
      var x;
      code, x := Answer(start, end);
      if code == 0 {
        InsertNew(x, Area(start, end, flags, name));
      }
    }
  }

  lemma SlotsAscend(s: seq<Area>, pos: nat)
    requires Ordered(s) && pos < |s|
    ensures forall i | pos <= i < |s| :: s[pos].start <= s[i].start
  {
    assert forall i | pos < i < |s| :: s[pos].end <= s[i].start;
    assert ValidRange(s[pos].start, s[pos].end);
  }

  lemma NotStored(S: set<Area>, a: Area)
    requires ValidRange(a.start, a.end) && forall b <- S :: !Overlap(a.start, a.end, b)
    ensures a !in S
  {
  }

  lemma AdoptNext(m: seq<Node>, z: nat, kids: seq<nat>, i: nat)
    requires i < |kids| && kids[i] < |m|
    ensures var m1 := Adopt(m, z, kids[..i]);
            Adopt(m, z, kids[..i + 1]) == m1[kids[i] := m1[kids[i]].(parent := z)]
  {
    assert kids[..i + 1] == kids[..i] + [kids[i]];
  }

  lemma ParentKnown(s: Tree, x: nat, y: nat)
    requires Shape(s) && OnlyPending(s, x, y)
    ensures s.m[x].parent == NULL <==> x == s.root
    ensures x != s.root ==>
      && s.m[x].parent < s.used && s.m[x].parent != y && Entries(s.m[s.m[x].parent]) <= SLOTS
      && |s.m[s.m[x].parent].children| == |s.m[s.m[x].parent].pivots| + 1
  {
    RootParent(s);
    if x != s.root {
      ParentOf(s, x, y);
    }
  }

  lemma LevelInTree(s: Tree, x: nat)
    requires Shape(s) && x < s.used
    ensures s.g[x].level <= s.g[s.root].level
  {
  }

  // Both halves of a split leaf have room, and share out its addresses.
  lemma HalvesOpen(s: Tree, x: nat)
    requires Sized(s) && x < s.used < MAX_NODES && s.m[x].isLeaf && FullNode(s.m[x])
    ensures var s', z := Split(s, x), s.used;
            && s'.m[x].isLeaf && |s'.m[x].slots| == SPLIT_MID && s'.m[z].isLeaf && |s'.m[z].slots| == SPLIT_MID
            && s'.g[x] == s.g[x].(hi := SplitKey(s.m[x])) && s'.g[z].lo == SplitKey(s.m[x]) && s'.g[z].hi == s.g[x].hi
  {
  }

  lemma EmptyTree(s: Tree)
    requires Sized(s) && s.root == 0 && s.used == 1 && s.m[0] == Node(true, NULL, [], [], [])
    requires s.g[0] == Info(0, 0, TOP, TOP, false)
    ensures Resting(s, {}, 0)
  {
    assert LocalOk(s, 0);
    assert EntriesOn(s, 0) == [0] && HungOn(s, 0) == [1];
    assert forall a: Area :: !Stores(s, a);
    assert Sum([0]) == 0 && Sum([1]) == 1;
  }

  lemma AtMostSlots(s: Tree, x: nat)
    requires Shape(s) && x < s.used && s.m[x].isLeaf
    ensures |s.m[x].slots| <= SLOTS
  {
    assert LocalOk(s, x);
  }

  // Adding pairwise disjoint ranges one after another, up to capacity: every one is accepted,
  // and the tree then holds exactly these. This takes leaves with a pivot for every slot;
  // `overrun` tells whether an addition goes past the declared pivots, which happens exactly
  // in runs of ten or more.
  method AddAll(areas: seq<Area>) returns (s: Store, ok: bool, ghost overrun: bool)
    requires |areas| <= CAPACITY && forall i | 0 <= i < |areas| :: ValidRange(areas[i].start, areas[i].end)
    requires forall i, j | 0 <= i < j < |areas| :: !Overlap(areas[i].start, areas[i].end, areas[j])
    ensures fresh(s) && fresh(s.nodes) && s.Valid() && ok && s.Contents() == Elems(areas) && s.count == |areas|
    ensures overrun <==> |areas| > MAX_PIVOTS
  {
    s := new Store();
    ok, overrun := true, false;
    var i := 0;
    while i < |areas|
      invariant i <= |areas| && s.Valid() && fresh(s) && fresh(s.nodes) && ok
      invariant s.Contents() == Elems(areas[..i]) && s.count == i && (overrun <==> i > MAX_PIVOTS)
    {
      overrun := overrun || Overruns(s.Shown(), areas[i].start);
      if i <= MAX_PIVOTS {
        OverrunsAtNine(s.Shown(), s.stored, i, areas[i].start);
      }
      var code := AddNext(s, areas, i);
      ok := ok && code == 0;
      i := i + 1;
    }
    assert areas[..i] == areas;
  }

  method AddNext(s: Store, areas: seq<Area>, i: nat) returns (code: int)
    requires s.Valid() && i < |areas| <= CAPACITY && s.Contents() == Elems(areas[..i]) && s.count == i
    requires ValidRange(areas[i].start, areas[i].end)
    requires forall j | 0 <= j < i :: !Overlap(areas[j].start, areas[j].end, areas[i])
    modifies s, s.nodes
    ensures s.Valid() && code == 0 && s.Contents() == Elems(areas[..i + 1]) && s.count == i + 1
  {
    var a := areas[i];
    NextArea(areas, i);
    DisjointSeen(s.Shown(), s.stored, a.start, a.end);
    code := s.Add(a.start, a.end, a.flags, a.name);
  }

  lemma NextArea(areas: seq<Area>, i: nat)
    requires i < |areas| && ValidRange(areas[i].start, areas[i].end)
    requires forall j | 0 <= j < i :: !Overlap(areas[j].start, areas[j].end, areas[i])
    ensures Elems(areas[..i + 1]) == Elems(areas[..i]) + {areas[i]} && areas[i] !in Elems(areas[..i])
    ensures forall b <- Elems(areas[..i]) :: !Overlap(areas[i].start, areas[i].end, b)
  {
    assert areas[..i + 1] == areas[..i] + [areas[i]];
    NotStored(Elems(areas[..i]), areas[i]);
  }

  // With leaves that have a pivot for every slot, eleven additions reach such a tree.
  method HiddenOverlap() returns (s: Store, ghost start: u32, ghost end: u32)
    ensures fresh(s) && s.Valid() && ValidRange(start, end) && Unseen(s.Shown(), start, end)
    ensures exists a <- s.Contents() :: Overlap(start, end, a)
  {
    var ok;
    ghost var overrun;
    s, ok, overrun := AddAll(Sample());
    var x := s.FindLeaf(0);
    start, end := AroundBound(s.Shown(), x);
  }

  lemma AroundBound(s: Tree, x: nat) returns (start: u32, end: u32)
    requires Holds(s, Elems(Sample())) && Settled(s) && x < s.used && s.m[x].isLeaf && s.g[x].lo == 0
    ensures ValidRange(start, end) && Unseen(s, start, end) && exists a <- Elems(Sample()) :: Overlap(start, end, a)
  {
    SampleHidesOverlap(s, x);
    start, end := s.g[x].hi - 0x1000, s.g[x].hi + 0x1000;
  }

  // As declared, a tree does not get that far. Whatever the nine areas of a store and the
  // admissible tenth: the words of its one leaf, with the tenth written at its place, no
  // longer represent a leaf, and their count says one.
  method TenthWrite(s: Store, a: Area) returns (ghost before: seq<nat>, w: array<nat>, pos: nat)
    requires s.Valid() && s.count == MAX_PIVOTS && CanAdd(s.Contents(), a.start, a.end)
    ensures s.root == 0 < s.nodes.Length && s.free == 1 && s.nodes[0].isLeaf && |s.nodes[0].slots| == |s.nodes[0].pivots| == MAX_PIVOTS
    ensures fresh(w) && w.Length == HEAD_WORDS && PosFor(s.nodes[0], pos, a.start)
    ensures Represents(before, s.nodes[0]) && Written(before, w[..], pos, a.start)
    ensures !Represents(w[..], LeafInsert(s.nodes[0], pos, a)) && CountByte(w[MAX_PIVOTS]) == 1
  {
    OneLeaf(s.Shown(), s.stored, MAX_PIVOTS);
    assert LocalOk(s.Shown(), 0);
    var n := s.nodes[0];
    AlignedPivots(s.Shown(), s.stored, 0);
    w := FullWords(n);
    before := w[..];
    pos := s.FindSlot(n, a.start, s.info[0]);
    InsertIntoLeaf(w, n, pos, a, a.start);
  }

  // Such a store, and the tenth range that does it.
  method TenthAddition() returns (s: Store, ghost before: seq<nat>, w: array<nat>, pos: nat)
    ensures fresh(s) && s.Valid() && s.Contents() == Elems(Sample()[..MAX_PIVOTS]) && s.count == MAX_PIVOTS
    ensures CanAdd(s.Contents(), Sample()[MAX_PIVOTS].start, Sample()[MAX_PIVOTS].end)
    ensures 0 < s.nodes.Length && w.Length == HEAD_WORDS && PosFor(s.nodes[0], pos, Sample()[MAX_PIVOTS].start)
    ensures Represents(before, s.nodes[0]) && Written(before, w[..], pos, Sample()[MAX_PIVOTS].start)
    ensures |s.nodes[0].pivots| == |s.nodes[0].slots| == MAX_PIVOTS && !Represents(w[..], LeafInsert(s.nodes[0], pos, Sample()[MAX_PIVOTS]))
    ensures CountByte(w[MAX_PIVOTS]) == 1
  {
    var ok;
    ghost var overrun;
    s, ok, overrun := AddAll(Sample()[..MAX_PIVOTS]);
    before, w, pos := TenthWrite(s, Sample()[MAX_PIVOTS]);
  }

  // The words of a leaf with nine entries.
  method FullWords(n: Node) returns (w: array<nat>)
    requires n.isLeaf && |n.pivots| == MAX_PIVOTS
    ensures fresh(w) && w.Length == HEAD_WORDS && Represents(w[..], n)
  {
    w := new nat[HEAD_WORDS](i requires 0 <= i => if i < |n.pivots| then n.pivots[i] else MAX_PIVOTS + 256);
    assert w[..|n.pivots|] == n.pivots;
  }

  lemma AlignedPivots(s: Tree, S: set<Area>, x: nat)
    requires Holds(s, S) && x < s.used && s.m[x].isLeaf
    ensures forall p <- s.m[x].pivots :: p % PAGE_SIZE == 0
  {
    assert LocalOk(s, x);
    forall k | 0 <= k < |s.m[x].pivots| ensures s.m[x].pivots[k] % PAGE_SIZE == 0 {
      assert s.m[x].pivots[k] == s.m[x].slots[k].start;
      assert Stores(s, s.m[x].slots[k]);
      StoredValid(s, S, s.m[x].slots[k]);
    }
  }
}
