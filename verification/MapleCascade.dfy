// Passing a split up the tree, one parent at a time, and what a leaf knows of overlaps.
module MapleCascade {
  import opened Prelude
  import opened VmaSpec
  import opened MapleNodes
  import opened MapleSplit
  import opened MapleCount

  // Everything a tree in the middle of an insertion keeps.
  ghost predicate Passing(s: Tree, S: set<Area>, n: nat, x: nat, y: nat) {
    Holds(s, S) && OnlyPending(s, x, y) && Tally(s, n)
  }

  ghost predicate Resting(s: Tree, S: set<Area>, n: nat) {
    Holds(s, S) && Settled(s) && Tally(s, n)
  }

  lemma ParentOf(s: Tree, x: nat, y: nat)
    requires Shape(s) && OnlyPending(s, x, y) && x != s.root
    ensures var p := s.m[x].parent;
            && p < s.used && !s.m[p].isLeaf && x in s.m[p].children && s.g[p].level == s.g[x].level + 1
            && p != x && p != y && !s.g[p].orphan && s.g[p].hi == s.g[p].slotHi
            && |s.m[p].children| == |s.m[p].pivots| + 1 && Entries(s.m[p]) <= SLOTS
    ensures s.m[x].parent != NULL
  {
    assert LocalOk(s, x);
    var p := s.m[x].parent;
    var k :| 0 <= k < |s.m[p].children| && s.m[p].children[k] == x;
    KidFacts(s, p, k);
    assert LocalOk(s, p);
  }

  // An insertion into a leaf leaves the split under way as it is.
  lemma SamePending(s: Tree, s': Tree, x: nat, y: nat)
    requires OnlyPending(s, x, y) && Sized(s') && s'.g == s.g && s'.used == s.used
    ensures OnlyPending(s', x, y)
  {
  }

  // The split of a full leaf of a settled tree.
  lemma LeafSplit(s: Tree, S: set<Area>, n: nat, x: nat)
    requires Resting(s, S, n) && x < s.used && s.m[x].isLeaf && Entries(s.m[x]) == SLOTS && n < CAPACITY
    ensures s.used < MAX_NODES && FullNode(s.m[x]) && Passing(Split(s, x), S, n, x, s.used)
    ensures Split(s, x).g[x].hi == SplitKey(s.m[x])
  {
    RoomForLeaf(s, n, x);
    assert LocalOk(s, x);
    SplitHolds(s, S, x);
    SplitIsBy(s, x);
    SplitTally(s, Split(s, x), x, n);
  }

  // One area into a leaf, with or without a split under way.
  lemma InsertKeeps(s: Tree, S: set<Area>, n: nat, x: nat, pos: nat, a: Area)
    requires Holds(s, S) && Tally(s, n) && x < s.used && s.m[x].isLeaf && |s.m[x].slots| < SLOTS && PosFor(s.m[x], pos, a.start)
    requires s.g[x].lo <= a.start < s.g[x].hi && ValidRange(a.start, a.end) && forall b <- S :: !Overlap(a.start, a.end, b)
    ensures |s.m[x].pivots| == |s.m[x].slots|
    ensures Holds(Inserted(s, x, pos, a), S + {a}) && Tally(Inserted(s, x, pos, a), n + 1)
  {
    InsertHolds(s, S, x, pos, a);
    InsertTally(s, x, pos, a, n);
  }

  // A parent with room takes the new half, and the tree is at rest.
  lemma AttachRests(s: Tree, S: set<Area>, n: nat, x: nat, y: nat, pos: nat)
    requires Passing(s, S, n, x, y) && x != s.root
    requires s.m[x].parent < s.used ==> Entries(s.m[s.m[x].parent]) < SLOTS && ScanStop(s.m[s.m[x].parent].pivots, s.g[x].hi, pos)
    ensures var p := s.m[x].parent; CanAttach(s, p, pos, x, y) && p != y && |s.m[p].children| == |s.m[p].pivots| + 1
    ensures Resting(Attached(s, s.m[x].parent, pos, x, y), S, n)
  {
    var p := s.m[x].parent;
    ParentOf(s, x, y);
    ScanFindsChild(s, p, pos, x, y);
    AttachHolds(s, S, p, pos, x, y);
    assert LocalOk(s, x);
    AttachIsBy(s, p, pos, x, y);
    AttachTally(s, Attached(s, p, pos, x, y), p, y, n);
  }

  lemma RootRests(s: Tree, S: set<Area>, n: nat, y: nat)
    requires Passing(s, S, n, s.root, y) && n <= CAPACITY
    ensures s.used < MAX_NODES && Resting(NewRoot(s, y), S, n)
  {
    RoomForRoot(s, n, y);
    NewRootHolds(s, S, y);
    NewRootIsBy(s, y);
    RootTally(s, NewRoot(s, y), y, n);
  }

  // A full parent is split in turn.
  lemma ParentSplit(s: Tree, S: set<Area>, n: nat, x: nat, y: nat)
    requires Passing(s, S, n, x, y) && x != s.root && n <= CAPACITY
    requires s.m[x].parent < s.used ==> Entries(s.m[s.m[x].parent]) == SLOTS
    ensures s.used < MAX_NODES && s.m[x].parent < s.used && FullNode(s.m[s.m[x].parent])
    ensures var s1 := Split(s, s.m[x].parent);
            && Holds(s1, S) && Tally(s1, n) && Pending(s1, s.m[x].parent, s.used) && Pending(s1, x, y) && x != s1.root
    ensures y != s.m[x].parent
  {
    var p := s.m[x].parent;
    ParentOf(s, x, y);
    RoomForParent(s, n, x, y, p);
    SplitHolds(s, S, p);
    SplitIsBy(s, p);
    SplitTally(s, Split(s, p), p, n);
  }

  // The half of the split parent under which the split child now hangs.
  lemma HalfOfChild(s: Tree, x: nat, y: nat)
    requires Shape(s) && OnlyPending(s, x, y) && x != s.root && s.used < MAX_NODES
    requires s.m[x].parent < s.used && FullNode(s.m[s.m[x].parent])
    ensures var p := s.m[x].parent;
            Split(s, p).m[x].parent == if s.g[x].hi < SplitKey(s.m[p]) then p else s.used
  {
    var p := s.m[x].parent;
    ParentOf(s, x, y);
    var k :| 0 <= k < |s.m[p].children| && s.m[p].children[k] == x;
    KidFacts(s, p, k);
    assert LocalOk(s, x);
    KeySide(s, p, k, s.g[x].hi);
    SplitKid(s, p, k);
  }

  // Comparing a key with the one passed up tells which half holds its child.
  lemma KeySide(s: Tree, p: nat, k: nat, key: nat)
    requires Shape(s) && p < s.used < MAX_NODES && FullNode(s.m[p]) && !s.m[p].isLeaf && k < SLOTS
    requires LoAt(s, p, k) <= key < HiAt(s, p, k)
    ensures key < SplitKey(s.m[p]) <==> k < SPLIT_MID
  {
    HalvesLink(s, p);
    if k < SPLIT_MID - 1 {
      KidsInOrder(s, p, k, SPLIT_MID - 1);
      KidInside(s, p, SPLIT_MID - 1);
    } else if k > SPLIT_MID {
      KidsInOrder(s, p, SPLIT_MID, k);
      KidInside(s, p, SPLIT_MID);
    }
  }

  // The waiting child is attached below the half it belongs to, and the parent's own split
  // is the one to pass on.
  lemma PassedOn(s: Tree, S: set<Area>, n: nat, x: nat, y: nat, s1: Tree, p: nat, q: nat, pos: nat)
    requires Passing(s, S, n, x, y) && x != s.root && p == s.m[x].parent && p < s.used < MAX_NODES && FullNode(s.m[p])
    requires s1 == Split(s, p) && Holds(s1, S) && Tally(s1, n) && Pending(s1, p, s.used) && Pending(s1, x, y) && x != s1.root
    requires q == s1.m[x].parent && (q == p || q == s.used) && q < s1.used && ScanStop(s1.m[q].pivots, s1.g[x].hi, pos)
    ensures CanAttach(s1, q, pos, x, y) && q != y && |s1.m[q].children| == |s1.m[q].pivots| + 1
    ensures Passing(Attached(s1, q, pos, x, y), S, n, p, s.used)
    ensures Attached(s1, q, pos, x, y).g[p].level == s.g[x].level + 1
  {
    ParentOf(s, x, y);
    ScanFindsChild(s1, q, pos, x, y);
    SplitEntries(s, p, q);
    AttachHolds(s1, S, q, pos, x, y);
    LevelBelow(s1, x);
    AttachIsBy(s1, q, pos, x, y);
    AttachTally(s1, Attached(s1, q, pos, x, y), q, y, n);
    SplitPending(s, x, y, p);
    ShownPending(s1, ShownInfo(s1.g, x, y), x, y, p, s.used);
  }

  lemma LevelBelow(s: Tree, x: nat)
    requires Shape(s) && x < s.used && x != s.root && !s.g[x].orphan
    ensures s.g[x].level < s.g[s.root].level
  {
    assert LocalOk(s, x);
  }

  // Once the child's split is shown, only the parent's is left.
  lemma ShownPending(s: Tree, g: seq<Info>, x: nat, y: nat, p: nat, z: nat)
    requires Sized(s) && Pending(s, x, y) && Pending(s, p, z) && p != x && p != y && z != x && z != y
    requires forall w: nat | w < s.used ::
      (w != y && w != z ==> !s.g[w].orphan) && (w != x && w != p ==> s.g[w].slotHi == s.g[w].hi)
    requires g == ShownInfo(s.g, x, y)
    ensures forall s': Tree | s'.g == g && s'.used == s.used && Sized(s') :: OnlyPending(s', p, z)
  {
  }

  // The half that the split child of a full parent ends up under.
  function HalfFor(s: Tree, x: nat): nat
    requires Sized(s) && x < s.used && s.m[x].parent < s.used && FullNode(s.m[s.m[x].parent])
  {
    if s.g[x].hi < SplitKey(s.m[s.m[x].parent]) then s.m[x].parent else s.used
  }

  // The moved children are nodes in use.
  ghost predicate MovedInUse(s: Tree, x: nat)
    requires Sized(s) && x < s.used && FullNode(s.m[x])
  {
    var kids := RightHalf(s.m[x]).children;
    && (forall k | 0 <= k < |kids| :: kids[k] < s.used)
    && (forall c: nat | s.used <= c :: c !in kids)
  }

  lemma MovedAll(s: Tree, x: nat)
    requires Shape(s) && x < s.used < MAX_NODES && FullNode(s.m[x])
    ensures MovedInUse(s, x)
  {
    var kids := RightHalf(s.m[x]).children;
    forall k | 0 <= k < |kids| ensures kids[k] < s.used {
      MovedChild(s, x, kids[k]);
    }
  }

  // What the steps of splitting a full parent rely on.
  ghost predicate CanPass(s: Tree, x: nat, y: nat) {
    && Sized(s) && x < s.used < MAX_NODES && y < s.used && x != y
    && s.m[x].parent < s.used && FullNode(s.m[s.m[x].parent]) && MovedInUse(s, s.m[x].parent)
    && var s1, q := Split(s, s.m[x].parent), HalfFor(s, x);
       q < s1.used && q != y && s1.g[x] == s.g[x] && |s1.m[q].children| == |s1.m[q].pivots| + 1
  }

  lemma BeforeSplit(s: Tree, S: set<Area>, n: nat, x: nat, y: nat)
    requires Passing(s, S, n, x, y) && x != s.root && n <= CAPACITY
    requires s.m[x].parent < s.used ==> Entries(s.m[s.m[x].parent]) == SLOTS
    ensures CanPass(s, x, y)
  {
    ParentSplit(s, S, n, x, y);
    HalfOfChild(s, x, y);
    HalfSized(Split(s, s.m[x].parent), HalfFor(s, x), y, x);
    ParentOf(s, x, y);
    MovedAll(s, s.m[x].parent);
  }

  lemma HalfSized(s: Tree, q: nat, y: nat, x: nat)
    requires Shape(s) && Pending(s, x, y) && q < s.used && x < s.used && x != s.root && q == s.m[x].parent
    ensures q != y && |s.m[q].children| == |s.m[q].pivots| + 1
  {
    assert LocalOk(s, x);
    var k :| 0 <= k < |s.m[q].children| && s.m[q].children[k] == x;
    KidFacts(s, q, k);
  }

  // After a full parent has been split and the child's new half attached, the parent's own
  // split is the one to pass on.
  lemma AfterAttach(s: Tree, S: set<Area>, n: nat, x: nat, y: nat, pos: nat)
    requires Passing(s, S, n, x, y) && x != s.root && n <= CAPACITY
    requires s.used < MAX_NODES && s.m[x].parent < s.used && FullNode(s.m[s.m[x].parent])
    requires ScanStop(Split(s, s.m[x].parent).m[HalfFor(s, x)].pivots, s.g[x].hi, pos)
    ensures var p, q := s.m[x].parent, HalfFor(s, x);
            var s1 := Split(s, p);
            && q != y && q < s1.used && x < s1.used && y < s1.used && |s1.m[q].children| == |s1.m[q].pivots| + 1
            && var s2 := Attached(s1, q, pos, x, y);
               && Passing(s2, S, n, p, s.used) && s2.g[p].hi == SplitKey(s.m[p])
               && s2.g[p].level == s.g[x].level + 1 && s2.g[s2.root].level == s.g[s.root].level
  {
    BeforeSplit(s, S, n, x, y);
    ParentSplit(s, S, n, x, y);
    HalfOfChild(s, x, y);
    ParentOf(s, x, y);
    PassedOn(s, S, n, x, y, Split(s, s.m[x].parent), s.m[x].parent, HalfFor(s, x), pos);
    InfoAfter(s, s.m[x].parent, x, y);
  }

  lemma InfoAfter(s: Tree, p: nat, x: nat, y: nat)
    requires Sized(s) && p < s.used < MAX_NODES && FullNode(s.m[p]) && x < s.used && y < s.used && p != x && p != y
    ensures ShownInfo(Split(s, p).g, x, y)[p].hi == SplitKey(s.m[p])
    ensures ShownInfo(Split(s, p).g, x, y)[p].level == s.g[p].level
    ensures ShownInfo(Split(s, p).g, x, y)[s.root].level == s.g[s.root].level
  {
    InfoShown(s.g, p, s.used, SplitKey(s.m[p]), x, y, s.root);
  }

  lemma InfoShown(g: seq<Info>, p: nat, z: nat, key: nat, x: nat, y: nat, r: nat)
    requires p < z < |g| && x < z && y < z && r < z && p != x && p != y
    ensures var g' := ShownInfo(SplitInfo(g, p, z, key), x, y);
            g'[p].hi == key && g'[p].level == g[p].level && g'[r].level == g[r].level
  {
  }

  // Orphans and bounds after the parent of a pending split is split itself.
  lemma SplitPending(s: Tree, x: nat, y: nat, p: nat)
    requires Sized(s) && OnlyPending(s, x, y) && p < s.used < MAX_NODES && FullNode(s.m[p]) && p != x && p != y
    ensures forall w: nat | w < s.used + 1 ::
      && (w != y && w != s.used ==> !Split(s, p).g[w].orphan)
      && (w != x && w != p ==> Split(s, p).g[w].slotHi == Split(s, p).g[w].hi)
  {
  }

  // ---- what a leaf knows of overlaps ----

  // Some area in the leaf meets the range.
  ghost predicate ClashIn(n: Node, start: u32, end: u32) {
    exists a <- n.slots :: Overlap(start, end, a)
  }

  // Looking only into the leaf where the range starts finds an overlap unless every area
  // that meets the range starts at or after the leaf's right bound.
  lemma LeafSeesOverlap(s: Tree, S: set<Area>, x: nat, start: u32, end: u32)
    requires Holds(s, S) && Settled(s) && x < s.used && s.m[x].isLeaf
    requires s.g[x].lo <= start < s.g[x].hi && ValidRange(start, end)
    ensures (exists a <- S :: Overlap(start, end, a)) <==> ClashIn(s.m[x], start, end) || end > s.g[x].hi
  {
    if a :| a in s.m[x].slots && Overlap(start, end, a) {
      assert Stores(s, a);
    }
    if end > s.g[x].hi {
      assert BoundOk(s, x, S);
      var b :| b in S && b.start == s.g[x].hi;
      StoredValid(s, S, b);
      assert Overlap(start, end, b);
    } else if a :| a in S && Overlap(start, end, a) {
      OverlapInLeaf(s, S, x, start, end, a);
    }
  }

  lemma OverlapInLeaf(s: Tree, S: set<Area>, x: nat, start: u32, end: u32, a: Area)
    requires Holds(s, S) && Settled(s) && x < s.used && s.m[x].isLeaf && a in S && Overlap(start, end, a)
    requires s.g[x].lo <= start < s.g[x].hi && ValidRange(start, end) && end <= s.g[x].hi
    ensures a in s.m[x].slots
  {
    StoredValid(s, S, a);
    var shared: u32 := if a.start < start then start else a.start;
    FindExact(s, S, x, shared, a);
  }

  // The one situation the overlap check does not see: nothing in the leaf where the range
  // starts meets it, but it runs past the leaf's right bound.
  ghost predicate Unseen(s: Tree, start: u32, end: u32)
    requires Sized(s)
  {
    exists x: nat :: x < s.used && s.m[x].isLeaf && s.g[x].lo <= start < s.g[x].hi < end && !ClashIn(s.m[x], start, end)
  }

  // There is one leaf to look at.
  lemma UnseenAt(s: Tree, S: set<Area>, x: nat, start: u32, end: u32)
    requires Holds(s, S) && Settled(s) && x < s.used && s.m[x].isLeaf && s.g[x].lo <= start < s.g[x].hi
    ensures Unseen(s, start, end) <==> end > s.g[x].hi && !ClashIn(s.m[x], start, end)
  {
    forall y: nat | y < s.used && s.m[y].isLeaf && s.g[y].lo <= start < s.g[y].hi ensures y == x {
      assert LocalOk(s, x) && LocalOk(s, y);
      NodeOfLevel(s, x, y, start);
    }
  }

  // Then an overlapping area exists all the same; disjoint ranges never meet this situation.
  lemma DisjointSeen(s: Tree, S: set<Area>, start: u32, end: u32)
    requires Holds(s, S) && Settled(s) && ValidRange(start, end)
    ensures Unseen(s, start, end) ==> exists a <- S :: Overlap(start, end, a)
    ensures (forall a <- S :: !Overlap(start, end, a)) ==> !Unseen(s, start, end)
  {
    if Unseen(s, start, end) {
      var x: nat :| x < s.used && s.m[x].isLeaf && s.g[x].lo <= start < s.g[x].hi < end && !ClashIn(s.m[x], start, end);
      LeafSeesOverlap(s, S, x, start, end);
    }
  }

  // ---- a concrete overlap the check does not see ----

  // Eleven one-page ranges, one page apart: one more than a leaf holds.
  function Sample(): (s: seq<Area>)
    ensures |s| == 11 && Ordered(s)
    ensures forall k | 0 <= k < 11 :: s[k].start == k * 0x2000 && s[k].end == k * 0x2000 + 0x1000
  {
    seq(11, k requires 0 <= k < 11 => Area(k * 0x2000, k * 0x2000 + 0x1000, 0, 0))
  }

  // They cannot all be in one leaf.
  lemma SampleIsSplit(s: Tree, x: nat)
    requires Holds(s, Elems(Sample())) && Settled(s) && x < s.used && s.m[x].isLeaf && s.g[x].lo == 0
    ensures s.g[x].hi != TOP
  {
    var sample := Sample();
    if s.g[x].hi == TOP {
      forall a | a in Elems(sample) ensures a in Elems(s.m[x].slots) {
        StoredValid(s, Elems(sample), a);
        FindExact(s, Elems(sample), x, a.start, a);
      }
      OrderedCount(sample);
      assert LocalOk(s, x);
      OrderedCount(s.m[x].slots);
      Subset(Elems(sample), Elems(s.m[x].slots));
    }
  }

  // In every tree that holds the sample, the two pages around the first leaf's right bound
  // overlap a stored range, and the check in that leaf does not see it.
  lemma SampleHidesOverlap(s: Tree, x: nat)
    requires Holds(s, Elems(Sample())) && Settled(s) && x < s.used && s.m[x].isLeaf && s.g[x].lo == 0
    ensures 0x1000 <= s.g[x].hi < TOP - 0x1000
    ensures var start: u32, end: u32 := s.g[x].hi - 0x1000, s.g[x].hi + 0x1000;
            && ValidRange(start, end) && Unseen(s, start, end)
            && exists a <- Elems(Sample()) :: Overlap(start, end, a)
  {
    var sample := Sample();
    SampleIsSplit(s, x);
    assert BoundOk(s, x, Elems(sample)) && LocalOk(s, x);
    var b :| b in Elems(sample) && b.start == s.g[x].hi;
    var k :| 0 <= k < 11 && sample[k] == b;
    var start: u32, end: u32 := s.g[x].hi - 0x1000, s.g[x].hi + 0x1000;
    forall a | a in s.m[x].slots ensures !Overlap(start, end, a) {
      assert Stores(s, a);
      var j :| 0 <= j < 11 && sample[j] == a;
      SampleApart(a, b, j, k);
    }
    assert Overlap(start, end, b);
  }

  // A range of the sample that ends before another one does so by a page.
  lemma SampleApart(a: Area, b: Area, j: nat, k: nat)
    requires j < 11 && k < 11 && a == Sample()[j] && b == Sample()[k]
    ensures a.end <= b.start ==> a.end <= b.start - 0x1000
  {
  }
}
