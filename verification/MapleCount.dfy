// Counting nodes and entries level by level: the pool of 64 nodes is never exhausted.
module MapleCount {
  import opened VmaSpec
  import opened MapleNodes
  import opened MapleSplit

  function Sum(a: seq<nat>): nat {
    if a == [] then 0 else Sum(a[..|a| - 1]) + a[|a| - 1]
  }

  lemma {:induction false} SumPoint(a: seq<nat>, b: seq<nat>, i: nat)
    requires |a| == |b| && i < |a| && forall k | 0 <= k < |a| && k != i :: a[k] == b[k]
    ensures Sum(b) + a[i] == Sum(a) + b[i]
    decreases |a|
  {
    var n := |a| - 1;
    if i < n {
      SumPoint(a[..n], b[..n], i);
    } else {
      assert a[..n] == b[..n];
    }
  }

  lemma SumAppend(a: seq<nat>, v: nat)
    ensures Sum(a + [v]) == Sum(a) + v
  {
    assert (a + [v])[..|a|] == a;
  }

  lemma {:induction false} SumFive(a: seq<nat>, b: seq<nat>)
    requires |a| == |b| && forall k | 0 <= k < |a| :: 5 * a[k] <= b[k]
    ensures 5 * Sum(a) <= Sum(b)
    decreases |a|
  {
    if a != [] {
      SumFive(a[..|a| - 1], b[..|b| - 1]);
    }
  }

  // One full node gives five entries to spare.
  lemma SumFiveMore(a: seq<nat>, b: seq<nat>, i: nat)
    requires |a| == |b| && i < |a| && (forall k | 0 <= k < |a| :: 5 * a[k] <= b[k]) && 5 * a[i] + 5 <= b[i]
    ensures 5 * Sum(a) + 5 <= Sum(b)
  {
    var less := b[i] - 5;
    var b' := b[i := less];
    SumPoint(b, b', i);
    SumFive(a, b');
  }

  lemma {:induction false} SumOnes(a: seq<nat>, b: seq<nat>, c: seq<nat>, d: seq<nat>)
    requires |a| == |b| == |c| == |d| && forall k | 0 <= k < |a| :: a[k] + b[k] + c[k] + d[k] == 1
    ensures Sum(a) + Sum(b) + Sum(c) + Sum(d) == |a|
    decreases |a|
  {
    if a != [] {
      var n := |a| - 1;
      SumOnes(a[..n], b[..n], c[..n], d[..n]);
    }
  }

  lemma {:induction false} SumAtLeast(a: seq<nat>, i: nat)
    requires i < |a|
    ensures a[i] <= Sum(a)
    decreases |a|
  {
    if i < |a| - 1 {
      SumAtLeast(a[..|a| - 1], i);
    }
  }

  // ---- per level ----

  // Entries of the nodes at a level; children hung at a level; all nodes at a level.
  function EntriesOn(s: Tree, l: nat): (a: seq<nat>)
    requires Sized(s)
    ensures |a| == s.used && forall x | 0 <= x < s.used :: a[x] == if s.g[x].level == l then Entries(s.m[x]) else 0
  {
    seq(s.used, x requires 0 <= x < s.used => if s.g[x].level == l then Entries(s.m[x]) else 0)
  }

  function HungOn(s: Tree, l: nat): (a: seq<nat>)
    requires Sized(s)
    ensures |a| == s.used && forall x | 0 <= x < s.used :: a[x] == if s.g[x].level == l && !s.g[x].orphan then 1 else 0
  {
    seq(s.used, x requires 0 <= x < s.used => if s.g[x].level == l && !s.g[x].orphan then 1 else 0)
  }

  function NodesOn(s: Tree, l: nat): (a: seq<nat>)
    requires Sized(s)
    ensures |a| == s.used && forall x | 0 <= x < s.used :: a[x] == if s.g[x].level == l then 1 else 0
  {
    seq(s.used, x requires 0 <= x < s.used => if s.g[x].level == l then 1 else 0)
  }

  ghost predicate LevelTally(s: Tree, l: nat)
    requires Sized(s)
  {
    Sum(EntriesOn(s, l + 1)) == Sum(HungOn(s, l))
  }

  // Leaves hold n areas, the entries one level up are the nodes hung below, and the root is
  // alone at the top.
  ghost predicate Tally(s: Tree, n: nat)
    requires Sized(s)
  {
    && Sum(EntriesOn(s, 0)) == n
    && (forall l: nat | l < s.g[s.root].level :: LevelTally(s, l))
    && Sum(HungOn(s, s.g[s.root].level)) == 1
  }

  lemma InsertTally(s: Tree, x: nat, pos: nat, a: Area, n: nat)
    requires Shape(s) && Tally(s, n) && x < s.used && s.m[x].isLeaf && pos <= |s.m[x].pivots| == |s.m[x].slots|
    ensures Tally(Inserted(s, x, pos, a), n + 1)
  {
    var s' := Inserted(s, x, pos, a);
    assert LocalOk(s, x);
    SumPoint(EntriesOn(s, 0), EntriesOn(s', 0), x);
    assert HungOn(s', s.g[s.root].level) == HungOn(s, s.g[s.root].level);
    forall l: nat | l < s.g[s.root].level ensures LevelTally(s', l) {
      assert LevelTally(s, l);
      assert EntriesOn(s', l + 1) == EntriesOn(s, l + 1) && HungOn(s', l) == HungOn(s, l);
    }
  }

  // What a split, an attachment and a new root change of the counted facts.

  ghost predicate SameLevels(s: Tree, s': Tree)
    requires Sized(s) && Sized(s')
  {
    s.used <= s'.used && forall w: nat | w < s.used :: s'.g[w].level == s.g[w].level
  }

  ghost predicate SplitBy(s: Tree, s': Tree, x: nat)
    requires Sized(s) && Sized(s')
  {
    && SameLevels(s, s') && x < s.used && s'.used == s.used + 1
    && (forall w: nat | w < s.used :: s'.g[w].orphan == s.g[w].orphan && (w != x ==> Entries(s'.m[w]) == Entries(s.m[w])))
    && Entries(s.m[x]) == Entries(s'.m[x]) + Entries(s'.m[s.used])
    && s'.g[s.used].level == s.g[x].level && s'.g[s.used].orphan
  }

  ghost predicate AttachedBy(s: Tree, s': Tree, p: nat, y: nat)
    requires Sized(s) && Sized(s')
  {
    && SameLevels(s, s') && p < s.used && y < s.used && s'.used == s.used
    && (forall w: nat | w < s.used && w != p :: Entries(s'.m[w]) == Entries(s.m[w]))
    && (forall w: nat | w < s.used && w != y :: s'.g[w].orphan == s.g[w].orphan)
    && Entries(s'.m[p]) == Entries(s.m[p]) + 1 && s.g[y].orphan && !s'.g[y].orphan
    && s.g[p].level == s.g[y].level + 1
  }

  ghost predicate RootedBy(s: Tree, s': Tree, y: nat)
    requires Sized(s) && Sized(s')
  {
    && SameLevels(s, s') && y < s.used && s'.used == s.used + 1 && s'.root == s.used
    && (forall w: nat | w < s.used :: Entries(s'.m[w]) == Entries(s.m[w]) && (w != y ==> s'.g[w].orphan == s.g[w].orphan))
    && s.g[y].orphan && !s'.g[y].orphan && s.g[y].level == s.g[s.root].level
    && s'.g[s.used].level == s.g[s.root].level + 1 && !s'.g[s.used].orphan && Entries(s'.m[s.used]) == 2
  }

  lemma SplitIsBy(s: Tree, x: nat)
    requires Sized(s) && x < s.used < MAX_NODES && FullNode(s.m[x])
    ensures SplitBy(s, Split(s, x), x)
  {
    var s' := Split(s, x);
    SplitEntries(s, x, s.used);
    forall w: nat | w < s.used ensures Entries(s'.m[w]) == if w == x then SPLIT_MID else Entries(s.m[w]) {
      SplitEntries(s, x, w);
    }
  }

  lemma SplitEntries(s: Tree, x: nat, w: nat)
    requires Sized(s) && x < s.used < MAX_NODES && FullNode(s.m[x]) && w <= s.used
    ensures Entries(Split(s, x).m[w]) == if w == x || w == s.used then SPLIT_MID else Entries(s.m[w])
  {
    if w == x {
      assert Entries(LeftHalf(s.m[x])) == SPLIT_MID;
    } else if w == s.used {
      assert Entries(RightHalf(s.m[x])) == SPLIT_MID;
    }
  }

  lemma AttachIsBy(s: Tree, p: nat, pos: nat, x: nat, y: nat)
    requires CanAttach(s, p, pos, x, y) && p != y && |s.m[p].children| == |s.m[p].pivots| + 1
    ensures AttachedBy(s, Attached(s, p, pos, x, y), p, y)
  {
    AttachFacts(s, p, pos, x, y);
  }

  lemma NewRootIsBy(s: Tree, y: nat)
    requires Shape(s) && Pending(s, s.root, y) && s.used < MAX_NODES
    ensures RootedBy(s, NewRoot(s, y), y)
  {
  }

  // A sequence that changes at one place and grows at the end.
  lemma SumGrown(a: seq<nat>, b: seq<nat>, x: nat)
    requires |b| == |a| + 1 && x < |a| && forall k | 0 <= k < |a| && k != x :: a[k] == b[k]
    ensures Sum(b) + a[x] == Sum(a) + b[x] + b[|a|]
  {
    var front, v := b[..|a|], b[|a|];
    assert b == front + [v];
    SumAppend(front, v);
    SumPoint(a, front, x);
  }

  lemma SplitSums(s: Tree, s': Tree, x: nat, l: nat)
    requires Sized(s) && Sized(s') && SplitBy(s, s', x)
    ensures Sum(EntriesOn(s', l)) == Sum(EntriesOn(s, l)) && Sum(HungOn(s', l)) == Sum(HungOn(s, l))
  {
    SumGrown(EntriesOn(s, l), EntriesOn(s', l), x);
    SumGrown(HungOn(s, l), HungOn(s', l), x);
  }

  lemma SplitTally(s: Tree, s': Tree, x: nat, n: nat)
    requires Sized(s) && Sized(s') && SplitBy(s, s', x) && s'.root == s.root && Tally(s, n)
    ensures Tally(s', n)
  {
    SplitSums(s, s', x, 0);
    SplitSums(s, s', x, s.g[s.root].level);
    forall l: nat | l < s.g[s.root].level ensures LevelTally(s', l) {
      SplitLevel(s, s', x, l);
    }
  }

  lemma SplitLevel(s: Tree, s': Tree, x: nat, l: nat)
    requires Sized(s) && Sized(s') && SplitBy(s, s', x) && LevelTally(s, l)
    ensures LevelTally(s', l)
  {
    SplitSums(s, s', x, l);
    SplitSums(s, s', x, l + 1);
  }

  lemma AttachSums(s: Tree, s': Tree, p: nat, y: nat, l: nat)
    requires Sized(s) && Sized(s') && AttachedBy(s, s', p, y)
    ensures Sum(EntriesOn(s', l)) == Sum(EntriesOn(s, l)) + if l == s.g[p].level then 1 else 0
    ensures Sum(HungOn(s', l)) == Sum(HungOn(s, l)) + if l == s.g[y].level then 1 else 0
  {
    SumPoint(EntriesOn(s, l), EntriesOn(s', l), p);
    SumPoint(HungOn(s, l), HungOn(s', l), y);
  }

  lemma AttachTally(s: Tree, s': Tree, p: nat, y: nat, n: nat)
    requires Sized(s) && Sized(s') && AttachedBy(s, s', p, y) && s'.root == s.root && Tally(s, n)
    requires s.g[y].level < s.g[s.root].level
    ensures Tally(s', n)
  {
    AttachSums(s, s', p, y, 0);
    AttachSums(s, s', p, y, s.g[s.root].level);
    forall l: nat | l < s.g[s.root].level ensures LevelTally(s', l) {
      AttachLevel(s, s', p, y, l);
    }
  }

  lemma AttachLevel(s: Tree, s': Tree, p: nat, y: nat, l: nat)
    requires Sized(s) && Sized(s') && AttachedBy(s, s', p, y) && LevelTally(s, l)
    ensures LevelTally(s', l)
  {
    AttachSums(s, s', p, y, l);
    AttachSums(s, s', p, y, l + 1);
  }

  lemma RootSums(s: Tree, s': Tree, y: nat, l: nat)
    requires Sized(s) && Sized(s') && RootedBy(s, s', y) && l <= s.g[s.root].level
    ensures Sum(EntriesOn(s', l)) == Sum(EntriesOn(s, l))
    ensures Sum(HungOn(s', l)) == Sum(HungOn(s, l)) + if l == s.g[y].level then 1 else 0
  {
    SumGrown(EntriesOn(s, l), EntriesOn(s', l), y);
    SumGrown(HungOn(s, l), HungOn(s', l), y);
  }

  lemma RootTally(s: Tree, s': Tree, y: nat, n: nat)
    requires Sized(s) && Sized(s') && RootedBy(s, s', y) && RootOk(s) && Tally(s, n)
    ensures Tally(s', n)
  {
    RootSums(s, s', y, 0);
    RootTop(s, s', y);
    forall l: nat | l <= s.g[s.root].level ensures LevelTally(s', l) {
      if l < s.g[s.root].level {
        RootLevel(s, s', y, l);
      }
    }
  }

  lemma RootTop(s: Tree, s': Tree, y: nat)
    requires Sized(s) && Sized(s') && RootedBy(s, s', y) && RootOk(s) && Sum(HungOn(s, s.g[s.root].level)) == 1
    ensures LevelTally(s', s.g[s.root].level) && Sum(HungOn(s', s'.g[s'.root].level)) == 1
  {
    RootSums(s, s', y, s.g[s.root].level);
    TopAlone(s', s.used);
  }

  lemma RootLevel(s: Tree, s': Tree, y: nat, l: nat)
    requires Sized(s) && Sized(s') && RootedBy(s, s', y) && l < s.g[s.root].level && LevelTally(s, l)
    ensures LevelTally(s', l)
  {
    RootSums(s, s', y, l);
    RootSums(s, s', y, l + 1);
  }

  // A level of which the last node is the only one.
  lemma TopAlone(s: Tree, z: nat)
    requires Sized(s) && z + 1 == s.used && z == s.root && !s.g[z].orphan
    requires forall x: nat | x < z :: s.g[x].level < s.g[z].level
    ensures Sum(EntriesOn(s, s.g[z].level)) == Entries(s.m[z]) && Sum(HungOn(s, s.g[z].level)) == 1
  {
    LastOnly(EntriesOn(s, s.g[z].level));
    LastOnly(HungOn(s, s.g[z].level));
  }

  lemma LastOnly(a: seq<nat>)
    requires a != [] && forall k | 0 <= k < |a| - 1 :: a[k] == 0
    ensures Sum(a) == a[|a| - 1]
  {
    AllZero(a[..|a| - 1]);
  }

  lemma {:induction false} AllZero(a: seq<nat>)
    requires forall k | 0 <= k < |a| :: a[k] == 0
    ensures Sum(a) == 0
    decreases |a|
  {
    if a != [] {
      AllZero(a[..|a| - 1]);
    }
  }

  // ---- the pool is big enough ----

  // Orphans at a level.
  function Orphans(s: Tree, y: nat, l: nat): nat
    requires Sized(s)
  {
    if y < s.used && s.g[y].orphan && s.g[y].level == l then 1 else 0
  }

  ghost predicate OnlyOrphan(s: Tree, y: nat)
    requires Sized(s)
  {
    forall w: nat | w < s.used && w != y :: !s.g[w].orphan
  }

  // Nodes at a level: those hung there and the orphan.
  lemma NodesAre(s: Tree, y: nat, l: nat)
    requires Sized(s) && OnlyOrphan(s, y)
    ensures Sum(NodesOn(s, l)) == Sum(HungOn(s, l)) + Orphans(s, y, l)
  {
    if y < s.used {
      SumPoint(HungOn(s, l), NodesOn(s, l), y);
    } else {
      assert NodesOn(s, l) == HungOn(s, l);
    }
  }

  // Below the root every node has at least five entries.
  lemma LevelFilled(s: Tree, l: nat)
    requires Shape(s) && (l < s.g[s.root].level || s.g[s.root].hi != s.g[s.root].slotHi)
    ensures 5 * Sum(NodesOn(s, l)) <= Sum(EntriesOn(s, l))
  {
    forall x: nat | x < s.used ensures 5 * NodesOn(s, l)[x] <= EntriesOn(s, l)[x] {
      assert LocalOk(s, x);
    }
    SumFive(NodesOn(s, l), EntriesOn(s, l));
  }

  lemma LevelWithFull(s: Tree, l: nat, f: nat)
    requires Shape(s) && l < s.g[s.root].level && f < s.used && s.g[f].level == l && Entries(s.m[f]) == SLOTS
    ensures 5 * Sum(NodesOn(s, l)) + 5 <= Sum(EntriesOn(s, l))
  {
    forall x: nat | x < s.used ensures 5 * NodesOn(s, l)[x] <= EntriesOn(s, l)[x] {
      assert LocalOk(s, x);
    }
    SumFiveMore(NodesOn(s, l), EntriesOn(s, l), f);
  }

  // The counts at all levels of a tree of height |N| - 1 with n areas: nodes, entries, and
  // how many of the nodes are orphans.
  ghost predicate Profile(N: seq<nat>, E: seq<nat>, o: seq<nat>, n: nat) {
    && |N| == |E| == |o| > 0 && E[0] == n
    && (forall i, j | 0 <= i < |N| && j == i + 1 < |N| :: E[j] + o[i] == N[i] && 5 * N[i] <= E[i])
    && N[|N| - 1] == 1 + o[|N| - 1] && (|N| > 1 ==> E[|N| - 1] >= 2)
  }

  lemma Rung(N: seq<nat>, E: seq<nat>, o: seq<nat>, n: nat, i: nat)
    requires Profile(N, E, o, n)
    ensures i + 1 < |N| ==> E[i + 1] + o[i] == N[i] && 5 * N[i] <= E[i]
  {
  }

  lemma {:induction false} WidestBelow(N: seq<nat>, E: seq<nat>, o: seq<nat>, n: nat, l: nat)
    requires Profile(N, E, o, n) && l + 1 < |N|
    ensures N[l] <= N[0]
    decreases l
  {
    if l > 0 {
      WidestBelow(N, E, o, n, l - 1);
      Rung(N, E, o, n, l - 1);
      Rung(N, E, o, n, l);
    }
  }

  // With at most 256 areas there are at most four levels.
  lemma AtMostFourLevels(N: seq<nat>, E: seq<nat>, o: seq<nat>, n: nat)
    requires Profile(N, E, o, n) && n <= CAPACITY
    ensures |N| <= 4
  {
    if |N| > 4 {
      var h := |N| - 1;
      WidestBelow(N, E, o, n, h - 4);
      Rung(N, E, o, n, h - 1);
      Rung(N, E, o, n, h - 2);
      Rung(N, E, o, n, h - 3);
      Rung(N, E, o, n, h - 4);
      Rung(N, E, o, n, 0);
    }
  }

  function At(a: seq<nat>, l: nat): nat {
    if l < |a| then a[l] else 0
  }

  // A full leaf is about to be split.
  lemma LeafRoom(N: seq<nat>, E: seq<nat>, o: seq<nat>, n: nat)
    requires Profile(N, E, o, n) && n < CAPACITY && |N| <= 4 && (forall i | 0 <= i < |o| :: o[i] == 0)
    requires |N| > 1 ==> 5 * N[0] + 5 <= E[0]
    ensures At(N, 0) + At(N, 1) + At(N, 2) + At(N, 3) < MAX_NODES
  {
    Rung(N, E, o, n, 0);
    Rung(N, E, o, n, 1);
    Rung(N, E, o, n, 2);
  }

  // A split has reached the root.
  lemma RootRoom(N: seq<nat>, E: seq<nat>, o: seq<nat>, n: nat)
    requires Profile(N, E, o, n) && n <= CAPACITY && |N| <= 4
    requires forall i | 0 <= i < |o| :: o[i] == if i == |o| - 1 then 1 else 0
    requires 5 * N[|N| - 1] <= E[|N| - 1]
    ensures At(N, 0) + At(N, 1) + At(N, 2) + At(N, 3) < MAX_NODES
  {
    Rung(N, E, o, n, 0);
    Rung(N, E, o, n, 1);
    Rung(N, E, o, n, 2);
  }

  // A split at level l has reached a full parent.
  lemma ParentRoom(N: seq<nat>, E: seq<nat>, o: seq<nat>, n: nat, l: nat)
    requires Profile(N, E, o, n) && n <= CAPACITY && |N| <= 4 && l + 1 < |N|
    requires forall i | 0 <= i < |o| :: o[i] == if i == l then 1 else 0
    requires l + 2 < |N| ==> 5 * N[l + 1] + 5 <= E[l + 1]
    ensures At(N, 0) + At(N, 1) + At(N, 2) + At(N, 3) < MAX_NODES
  {
    Rung(N, E, o, n, 0);
    Rung(N, E, o, n, 1);
    Rung(N, E, o, n, 2);
  }

  // ---- the profile of a tree ----

  function NodeCounts(s: Tree): (N: seq<nat>)
    requires Sized(s)
    ensures |N| == s.g[s.root].level + 1 && forall l | 0 <= l < |N| :: N[l] == Sum(NodesOn(s, l))
  {
    seq(s.g[s.root].level + 1, l requires 0 <= l => Sum(NodesOn(s, l)))
  }

  function EntryCounts(s: Tree): (E: seq<nat>)
    requires Sized(s)
    ensures |E| == s.g[s.root].level + 1 && forall l | 0 <= l < |E| :: E[l] == Sum(EntriesOn(s, l))
  {
    seq(s.g[s.root].level + 1, l requires 0 <= l => Sum(EntriesOn(s, l)))
  }

  function OrphanCounts(s: Tree, y: nat): (o: seq<nat>)
    requires Sized(s)
    ensures |o| == s.g[s.root].level + 1 && forall l | 0 <= l < |o| :: o[l] == Orphans(s, y, l)
  {
    seq(s.g[s.root].level + 1, l requires 0 <= l => Orphans(s, y, l))
  }

  lemma ProfileLevel(s: Tree, n: nat, y: nat, l: nat)
    requires Shape(s) && Tally(s, n) && OnlyOrphan(s, y) && l < s.g[s.root].level
    ensures Sum(EntriesOn(s, l + 1)) + Orphans(s, y, l) == Sum(NodesOn(s, l))
    ensures 5 * Sum(NodesOn(s, l)) <= Sum(EntriesOn(s, l))
  {
    NodesAre(s, y, l);
    assert LevelTally(s, l);
    LevelFilled(s, l);
  }

  lemma ProfileTop(s: Tree, n: nat, y: nat)
    requires Shape(s) && Tally(s, n) && OnlyOrphan(s, y)
    ensures Sum(NodesOn(s, s.g[s.root].level)) == 1 + Orphans(s, y, s.g[s.root].level)
    ensures s.g[s.root].level > 0 ==> Sum(EntriesOn(s, s.g[s.root].level)) >= 2
  {
    NodesAre(s, y, s.g[s.root].level);
    assert LocalOk(s, s.root);
    SumAtLeast(EntriesOn(s, s.g[s.root].level), s.root);
  }

  lemma ProfileOf(s: Tree, n: nat, y: nat)
    requires Shape(s) && Tally(s, n) && OnlyOrphan(s, y)
    ensures Profile(NodeCounts(s), EntryCounts(s), OrphanCounts(s, y), n)
  {
    ProfileTop(s, n, y);
    forall i: nat | i < s.g[s.root].level ensures LevelOk(s, y, i) {
      ProfileLevel(s, n, y, i);
    }
    assert EntryCounts(s)[0] == Sum(EntriesOn(s, 0));
    ProfileFrom(s, n, y);
  }

  ghost predicate LevelOk(s: Tree, y: nat, l: nat)
    requires Sized(s)
  {
    && Sum(EntriesOn(s, l + 1)) + Orphans(s, y, l) == Sum(NodesOn(s, l))
    && 5 * Sum(NodesOn(s, l)) <= Sum(EntriesOn(s, l))
  }

  lemma ProfileFrom(s: Tree, n: nat, y: nat)
    requires Sized(s) && Sum(EntriesOn(s, 0)) == n && forall i: nat | i < s.g[s.root].level :: LevelOk(s, y, i)
    requires Sum(NodesOn(s, s.g[s.root].level)) == 1 + Orphans(s, y, s.g[s.root].level)
    requires s.g[s.root].level > 0 ==> Sum(EntriesOn(s, s.g[s.root].level)) >= 2
    ensures Profile(NodeCounts(s), EntryCounts(s), OrphanCounts(s, y), n)
  {
    var N, E, o := NodeCounts(s), EntryCounts(s), OrphanCounts(s, y);
    forall i, j | 0 <= i < |N| && j == i + 1 < |N| ensures E[j] + o[i] == N[i] && 5 * N[i] <= E[i] {
      assert LevelOk(s, y, i);
    }
  }

  lemma LevelCount(s: Tree, l: nat)
    requires Shape(s)
    ensures Sum(NodesOn(s, l)) == At(NodeCounts(s), l)
  {
    if l > s.g[s.root].level {
      AllZero(NodesOn(s, l));
    }
  }

  lemma AllLevels(s: Tree)
    requires Shape(s) && s.g[s.root].level <= 3
    ensures var N := NodeCounts(s); At(N, 0) + At(N, 1) + At(N, 2) + At(N, 3) == s.used
  {
    SumOnes(NodesOn(s, 0), NodesOn(s, 1), NodesOn(s, 2), NodesOn(s, 3));
    LevelCount(s, 0);
    LevelCount(s, 1);
    LevelCount(s, 2);
    LevelCount(s, 3);
  }

  // The three occasions on which a node is taken from the pool: there is always one left.

  lemma RoomForLeaf(s: Tree, n: nat, x: nat)
    requires Shape(s) && Tally(s, n) && Settled(s) && n < CAPACITY
    requires x < s.used && s.m[x].isLeaf && Entries(s.m[x]) == SLOTS
    ensures s.used < MAX_NODES
  {
    ProfileOf(s, n, s.used);
    AtMostFourLevels(NodeCounts(s), EntryCounts(s), OrphanCounts(s, s.used), n);
    AllLevels(s);
    LeafSpare(s, x);
    LeafRoom(NodeCounts(s), EntryCounts(s), OrphanCounts(s, s.used), n);
  }

  lemma LeafSpare(s: Tree, x: nat)
    requires Shape(s) && Settled(s) && x < s.used && s.m[x].isLeaf && Entries(s.m[x]) == SLOTS
    ensures var N, E, o := NodeCounts(s), EntryCounts(s), OrphanCounts(s, s.used);
            && (|N| > 1 ==> 5 * N[0] + 5 <= E[0])
            && forall i | 0 <= i < |o| :: o[i] == 0
  {
    assert LocalOk(s, x);
    if s.g[s.root].level > 0 {
      LevelWithFull(s, 0, x);
    }
  }

  lemma RoomForRoot(s: Tree, n: nat, y: nat)
    requires Shape(s) && Tally(s, n) && OnlyPending(s, s.root, y) && n <= CAPACITY
    ensures s.used < MAX_NODES
  {
    ProfileOf(s, n, y);
    AtMostFourLevels(NodeCounts(s), EntryCounts(s), OrphanCounts(s, y), n);
    AllLevels(s);
    LevelFilled(s, s.g[s.root].level);
    RootRoom(NodeCounts(s), EntryCounts(s), OrphanCounts(s, y), n);
  }

  lemma RoomForParent(s: Tree, n: nat, x: nat, y: nat, p: nat)
    requires Shape(s) && Tally(s, n) && OnlyPending(s, x, y) && n <= CAPACITY
    requires x != s.root && p == s.m[x].parent && p < s.used && Entries(s.m[p]) == SLOTS
    requires s.g[p].level == s.g[x].level + 1
    ensures s.used < MAX_NODES
  {
    ProfileOf(s, n, y);
    AtMostFourLevels(NodeCounts(s), EntryCounts(s), OrphanCounts(s, y), n);
    AllLevels(s);
    ParentSpare(s, x, y, p);
    ParentRoom(NodeCounts(s), EntryCounts(s), OrphanCounts(s, y), n, s.g[x].level);
  }

  lemma ParentSpare(s: Tree, x: nat, y: nat, p: nat)
    requires Shape(s) && OnlyPending(s, x, y)
    requires p < s.used && Entries(s.m[p]) == SLOTS && s.g[p].level == s.g[x].level + 1
    ensures var l, N, E, o := s.g[x].level, NodeCounts(s), EntryCounts(s), OrphanCounts(s, y);
            && l + 1 < |N| && (l + 2 < |N| ==> 5 * N[l + 1] + 5 <= E[l + 1])
            && forall i | 0 <= i < |o| :: o[i] == if i == l then 1 else 0
  {
    assert s.g[p].level <= s.g[s.root].level;
    if s.g[p].level < s.g[s.root].level {
      LevelWithFull(s, s.g[p].level, p);
    }
  }
}
