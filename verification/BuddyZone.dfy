// The buddy allocator's zone: page records, one ring of free blocks per order, counters.
module BuddyZone {
  import opened Prelude
  import opened BuddyBlocks
  import opened RingLists

  datatype PageInfo = PageInfo(order: nat, isFree: bool)

  // Pages held by the free lists of order below `n`.
  ghost function Weighted(lists: seq<seq<nat>>, n: nat): nat
    requires n <= |lists|
  {
    if n == 0 then 0 else Weighted(lists, n - 1) + |lists[n - 1]| * Pow2(n - 1)
  }

  lemma {:induction false} WeightedChange(a: seq<seq<nat>>, b: seq<seq<nat>>, k: nat, n: nat)
    requires n <= |a| == |b| && k < |a|
    requires forall j | 0 <= j < n && j != k :: b[j] == a[j]
    requires |b[k]| == |a[k]| + 1
    ensures Weighted(b, n) == Weighted(a, n) + if k < n then Pow2(k) else 0
  {
    if n > 0 {
      WeightedChange(a, b, k, n - 1);
      if k == n - 1 {
        assert |b[k]| * Pow2(k) == |a[k]| * Pow2(k) + Pow2(k);
      }
    }
  }

  // One ring per order, over disjoint sets of pages.
  ghost predicate Rings(m: seq<Link>, total: nat, lists: seq<seq<nat>>) {
    && |m| == total + |lists|
    && forall k | 0 <= k < |lists| :: Ring(m, total + k, lists[k]) && NoDup(total + k, lists[k])
  }

  // A page is flagged free with order k exactly when it heads a block of that order.
  ghost predicate Flags(info: seq<PageInfo>, lists: seq<seq<nat>>) {
    ListedFlagged(info, lists) && FlaggedListed(info, lists)
  }

  ghost predicate ListedFlagged(info: seq<PageInfo>, lists: seq<seq<nat>>) {
    forall k: nat, i: nat | k < |lists| :: ListedAt(info, lists, k, i)
  }

  ghost predicate ListedAt(info: seq<PageInfo>, lists: seq<seq<nat>>, k: nat, i: nat)
    requires k < |lists|
  {
    i in lists[k] ==> i < |info| && info[i] == PageInfo(k, true)
  }

  ghost predicate FlaggedListed(info: seq<PageInfo>, lists: seq<seq<nat>>) {
    forall i | 0 <= i < |info| && info[i].isFree :: info[i].order < |lists| && i in lists[info[i].order]
  }

  lemma Listed(info: seq<PageInfo>, lists: seq<seq<nat>>, k: nat, i: nat)
    requires Flags(info, lists) && k < |lists| && i in lists[k]
    ensures i < |info| && info[i] == PageInfo(k, true)
  {
    assert ListedAt(info, lists, k, i);
  }

  lemma RingsKeep(m: seq<Link>, m': seq<Link>, info: seq<PageInfo>, lists: seq<seq<nat>>, order: nat, idx: nat, s: seq<nat>)
    requires Rings(m, |info|, lists) && Flags(info, lists) && order < |lists| && idx < |info|
    requires idx !in lists[order] ==> !info[idx].isFree
    requires Ring(m', |info| + order, s) && NoDup(|info| + order, s) && |m'| == |m|
    requires forall i | 0 <= i < |m| && i != idx && i != |info| + order && i !in lists[order] :: m'[i] == m[i]
    ensures Rings(m', |info|, lists[order := s])
  {
    forall k | 0 <= k < |lists| && k != order ensures Ring(m', |info| + k, lists[k]) && NoDup(|info| + k, lists[k]) {
      assert Ring(m, |info| + k, lists[k]) && NoDup(|info| + k, lists[k]);
      forall x: nat | x in lists[k] ensures x < |info| && x !in lists[order] && x != idx {
        Listed(info, lists, k, x);
        if x in lists[order] {
          Listed(info, lists, order, x);
        }
      }
      forall x: nat | x in lists[order] ensures x < |info| {
        Listed(info, lists, order, x);
      }
      RingFrame(m, m', |info| + k, lists[k]);
    }
  }

  lemma FlagsAdd(info: seq<PageInfo>, lists: seq<seq<nat>>, order: nat, idx: nat)
    requires Flags(info, lists) && order < |lists| && idx < |info| && !info[idx].isFree
    ensures Flags(info[idx := PageInfo(order, true)], lists[order := lists[order] + [idx]])
    ensures idx !in lists[order]
  {
    if idx in lists[order] {
      Listed(info, lists, order, idx);
    }
    var info', lists' := info[idx := PageInfo(order, true)], lists[order := lists[order] + [idx]];
    ListedAdd(info, lists, info', lists', order, idx);
    FlaggedAdd(info, lists, info', lists', order, idx);
  }

  lemma ListedAdd(info: seq<PageInfo>, lists: seq<seq<nat>>, info': seq<PageInfo>, lists': seq<seq<nat>>, order: nat, idx: nat)
    requires Flags(info, lists) && order < |lists| && idx < |info| && !info[idx].isFree
    requires info' == info[idx := PageInfo(order, true)] && lists' == lists[order := lists[order] + [idx]]
    ensures ListedFlagged(info', lists')
  {
    forall k: nat, i: nat | k < |lists'| ensures ListedAt(info', lists', k, i) {
      if i in lists[k] {
        Listed(info, lists, k, i);
      }
    }
  }

  lemma FlaggedAdd(info: seq<PageInfo>, lists: seq<seq<nat>>, info': seq<PageInfo>, lists': seq<seq<nat>>, order: nat, idx: nat)
    requires FlaggedListed(info, lists) && order < |lists| && idx < |info|
    requires info' == info[idx := PageInfo(order, true)] && lists' == lists[order := lists[order] + [idx]]
    ensures FlaggedListed(info', lists')
  {
    assert lists'[order][|lists[order]|] == idx;
    forall i | 0 <= i < |info'| && info'[i].isFree ensures info'[i].order < |lists'| && i in lists'[info'[i].order] {
      assert i == idx || info'[i] == info[i];
      assert i != idx ==> i in lists[info[i].order];
    }
  }

  lemma FlagsRemove(info: seq<PageInfo>, lists: seq<seq<nat>>, order: nat, j: nat)
    requires Flags(info, lists) && order < |lists| && j < |lists[order]|
    requires forall a, b | 0 <= a < b < |lists[order]| :: lists[order][a] != lists[order][b]
    ensures var idx := lists[order][j];
            idx < |info| && info[idx] == PageInfo(order, true)
            && Flags(info[idx := PageInfo(order, false)], lists[order := Without(lists[order], j)])
  {
    var idx := lists[order][j];
    assert idx in lists[order];
    Listed(info, lists, order, idx);
    var info', lists' := info[idx := PageInfo(order, false)], lists[order := Without(lists[order], j)];
    ListedRemove(info, lists, info', lists', order, j, idx);
    FlaggedRemove(info, lists, info', lists', order, j, idx);
  }

  lemma ListedRemove(info: seq<PageInfo>, lists: seq<seq<nat>>, info': seq<PageInfo>, lists': seq<seq<nat>>,
                     order: nat, j: nat, idx: nat)
    requires Flags(info, lists) && order < |lists| && j < |lists[order]| && lists[order][j] == idx < |info|
    requires forall a, b | 0 <= a < b < |lists[order]| :: lists[order][a] != lists[order][b]
    requires info' == info[idx := PageInfo(order, false)] && lists' == lists[order := Without(lists[order], j)]
    ensures ListedFlagged(info', lists')
  {
    assert idx in lists[order];
    forall k: nat, i: nat | k < |lists'| ensures ListedAt(info', lists', k, i) {
      WithoutOne(lists[order], j, i);
      if i in lists'[k] {
        Listed(info, lists, k, i);
        Listed(info, lists, order, idx);
      }
    }
  }

  lemma FlaggedRemove(info: seq<PageInfo>, lists: seq<seq<nat>>, info': seq<PageInfo>, lists': seq<seq<nat>>,
                      order: nat, j: nat, idx: nat)
    requires FlaggedListed(info, lists) && order < |lists| && j < |lists[order]| && lists[order][j] == idx < |info|
    requires forall a, b | 0 <= a < b < |lists[order]| :: lists[order][a] != lists[order][b]
    requires info' == info[idx := PageInfo(order, false)] && lists' == lists[order := Without(lists[order], j)]
    ensures FlaggedListed(info', lists')
  {
    forall i | 0 <= i < |info'| && info'[i].isFree ensures info'[i].order < |lists'| && i in lists'[info'[i].order] {
      assert i != idx && info'[i] == info[i] && i in lists[info[i].order];
      WithoutOne(lists[order], j, i);
    }
  }

  // ---- lists against free sets ----

  ghost predicate ListsMatch(lists: seq<seq<nat>>, F: set<nat>) {
    && |lists| == MAX_ORDER + 1
    && forall k: nat, i: nat | k <= MAX_ORDER :: i in lists[k] <==> FreeBlock(F, i, k)
  }

  // While block (idx, top) is being split: it has left its list, and its upper halves of
  // orders cur..top-1 have been listed.
  ghost predicate Splitting(lists: seq<seq<nat>>, F: set<nat>, idx: nat, top: nat, cur: nat) {
    && |lists| == MAX_ORDER + 1
    && forall k: nat, i: nat | k <= MAX_ORDER ::
         i in lists[k] <==> (FreeBlock(F, i, k) && !(i == idx && k == top)) || (cur <= k < top && i == idx + Pow2(k))
  }

  lemma SplitStart(lists: seq<seq<nat>>, F: set<nat>, top: nat)
    requires ListsMatch(lists, F) && top <= MAX_ORDER && lists[top] != []
    requires forall a, b | 0 <= a < b < |lists[top]| :: lists[top][a] != lists[top][b]
    ensures var idx := lists[top][0];
            FreeBlock(F, idx, top) && Splitting(lists[top := Without(lists[top], 0)], F, idx, top, top)
  {
    var idx, lists' := lists[top][0], lists[top := Without(lists[top], 0)];
    assert idx in lists[top];
    forall k: nat, i: nat | k <= MAX_ORDER ensures i in lists'[k] <==> FreeBlock(F, i, k) && !(i == idx && k == top) {
      WithoutOne(lists[top], 0, i);
      assert i in lists[k] <==> FreeBlock(F, i, k);
    }
  }

  lemma {:induction false} Pow2Grows(j: nat, k: nat)
    requires j < k
    ensures Pow2(j) < Pow2(k)
    decreases k
  {
    PowPositive(j);
    if j + 1 < k {
      Pow2Grows(j, k - 1);
    }
  }

  // The upper half of the front block of order cur + 1: its place, and that no free block
  // starts there.
  lemma UpperHalf(F: set<nat>, idx: nat, top: nat, cur: nat)
    requires FreeBlock(F, idx, top) && cur < top
    ensures var i := idx + Pow2(cur);
            i in F && i != idx && Aligned(i, cur) && Up(i, cur) == Up(idx, cur) + 1
            && forall k: nat | k <= MAX_ORDER :: !FreeBlock(F, i, k)
  {
    var i := idx + Pow2(cur);
    UpperPlace(idx, top, cur);
    PowPositive(cur);
    assert Up(i, top) == Up(idx, top);
    forall k: nat | k <= MAX_ORDER ensures !FreeBlock(F, i, k) {
      if FreeBlock(F, i, k) {
        MaximalUnique(F, i, k, top);
      }
    }
  }

  lemma UpperPlace(idx: nat, top: nat, cur: nat)
    requires Aligned(idx, top) && cur < top
    ensures var i := idx + Pow2(cur);
            Aligned(i, cur) && Up(i, cur) == Up(idx, cur) + 1 == Buddy(Up(idx, cur)) && Up(i, top) == Up(idx, top)
  {
    var i := idx + Pow2(cur);
    AlignedBelow(idx, top, cur);
    HeadStep(Up(idx, cur), cur);
    UpOfHead(Up(idx, cur) + 1, cur);
    assert Up(i, cur + 1) == Up(idx, cur + 1);
    UpNested(i, idx, cur + 1, top);
  }

  lemma SplitStep(lists: seq<seq<nat>>, F: set<nat>, idx: nat, top: nat, cur: nat, i: nat)
    requires Splitting(lists, F, idx, top, cur + 1) && FreeBlock(F, idx, top) && cur < top && i == idx + Pow2(cur)
    ensures i in F && i != idx && (forall k: nat | k <= MAX_ORDER :: i !in lists[k])
    ensures Splitting(lists[cur := lists[cur] + [i]], F, idx, top, cur) && Pow2(cur + 1) == Pow2(cur) + Pow2(cur)
  {
    UpperHalf(F, idx, top, cur);
    forall k: nat | cur + 1 <= k < top ensures Pow2(cur) < Pow2(k) {
      Pow2Grows(cur, k);
    }
  }

  lemma SplitDone(lists: seq<seq<nat>>, F: set<nat>, idx: nat, top: nat, order: nat)
    requires Splitting(lists, F, idx, top, order) && FreeBlock(F, idx, top) && order <= top
    ensures ListsMatch(lists, F - Block(Up(idx, order), order))
  {
    var F' := F - Block(Up(idx, order), order);
    TakenOut(F, idx, order, top);
    forall k: nat, i: nat | k <= MAX_ORDER ensures i in lists[k] <==> FreeBlock(F', i, k) {
      SplitBlocks(F, F', idx, top, order, i, k);
    }
  }

  // The free blocks after a block of order `order` has been cut from the front of another.
  lemma SplitBlocks(F: set<nat>, F': set<nat>, idx: nat, top: nat, order: nat, i: nat, k: nat)
    requires FreeBlock(F, idx, top) && order <= top && Joins(F', idx, order, F)
    ensures FreeBlock(F', i, k) <==>
            (FreeBlock(F, i, k) && !(i == idx && k == top)) || (order <= k < top && i == idx + Pow2(k))
  {
    TakeBlock(F', idx, order, F, top, Up(i, k), k);
    if k < top {
      UpperPlace(idx, top, k);
    }
  }

  lemma TakenOut(F: set<nat>, idx: nat, order: nat, top: nat)
    requires FreeBlock(F, idx, top) && order <= top
    ensures Joins(F - Block(Up(idx, order), order), idx, order, F) && Block(Up(idx, order), order) <= F
  {
    var B := Block(Up(idx, order), order);
    FullShrinks(F, idx, order, top);
    forall x: nat ensures x in B <==> Up(x, order) == Up(idx, order) {
      InBlock(Up(idx, order), order, x);
    }
  }

  // While a block around page p is being freed and has grown to order k: the free blocks
  // inside it have left their lists.
  ghost predicate Merging(lists: seq<seq<nat>>, F: set<nat>, p: nat, k: nat) {
    && |lists| == MAX_ORDER + 1
    && forall j: nat, i: nat | j <= MAX_ORDER :: i in lists[j] <==> FreeBlock(F, i, j) && !(j < k && Up(i, k) == Up(p, k))
  }

  // The block has the pages in G once it is free; those of its buddy were free before.
  lemma MergeStep(lists: seq<seq<nat>>, F: set<nat>, G: set<nat>, p: nat, k: nat, b: nat, x: nat)
    requires Merging(lists, F, p, k) && F <= G && p !in F && k < MAX_ORDER && Full(G, Up(p, k), k)
    requires Up(b, k) == Buddy(Up(p, k)) && x < |lists[k]| && lists[k][x] == b
    requires forall a, c | 0 <= a < c < |lists[k]| :: lists[k][a] != lists[k][c]
    ensures Merging(lists[k := Without(lists[k], x)], F, p, k + 1)
    ensures Full(G, Up(p, k + 1), k + 1)
  {
    var lists' := lists[k := Without(lists[k], x)];
    assert b in lists[k];
    forall j: nat, i: nat | j <= MAX_ORDER
      ensures i in lists'[j] <==> FreeBlock(F, i, j) && !(j < k + 1 && Up(i, k + 1) == Up(p, k + 1))
    {
      WithoutOne(lists[k], x, i);
      assert i in lists'[j] <==> i in lists[j] && !(i == b && j == k);
      assert i in lists[j] <==> FreeBlock(F, i, j) && !(j < k && Up(i, k) == Up(p, k));
      AbsorbedHere(F, p, k, b, i, j);
    }
    forall y: nat | Up(y, k + 1) == Up(p, k + 1) ensures y in G {
      assert Up(y, k) == Up(p, k) || Up(y, k) == Buddy(Up(p, k));
    }
  }

  lemma WithoutOne(s: seq<nat>, x: nat, i: nat)
    requires x < |s| && forall a, c | 0 <= a < c < |s| :: s[a] != s[c]
    ensures i in Without(s, x) <==> i in s && i != s[x]
  {
    if i in s && i != s[x] {
      var a :| 0 <= a < |s| && s[a] == i;
      assert Without(s, x)[if a < x then a else a - 1] == i;
    }
    if i in Without(s, x) {
      var a :| 0 <= a < |s| - 1 && Without(s, x)[a] == i;
      assert s[if a < x then a else a + 1] == i;
    }
  }

  // One level up, the free blocks inside are those inside before and the buddy.
  lemma AbsorbedHere(F: set<nat>, p: nat, k: nat, b: nat, i: nat, j: nat)
    requires FreeBlock(F, b, k) && Up(b, k) == Buddy(Up(p, k)) && p !in F && k < MAX_ORDER
    ensures FreeBlock(F, i, j) ==>
      ((j < k + 1 && Up(i, k + 1) == Up(p, k + 1)) <==> (j < k && Up(i, k) == Up(p, k)) || (i == b && j == k))
  {
    if FreeBlock(F, i, j) && j <= k && Up(i, k) == Buddy(Up(p, k)) {
      MaximalUnique(F, i, j, k);
    }
  }

  // The merge loop stops exactly at the block that is maximal once the block is free.
  lemma MergeStops(F: set<nat>, G: set<nat>, p: nat, o: nat, k: nat, b: nat)
    requires Joins(F, p, o, G) && o <= k <= MAX_ORDER && Full(G, Up(p, k), k)
    requires k < MAX_ORDER ==> Aligned(b, k) && Up(b, k) == Buddy(Up(p, k)) && !FreeBlock(F, b, k)
    ensures Maximal(G, Up(p, k), k)
  {
    if k < MAX_ORDER && Full(G, Up(p, k) / 2, k + 1) {
      forall y: nat | Up(y, k) == Up(b, k) ensures y in F {
        BuddyPage(F, G, p, o, k, y);
      }
    }
  }

  // A page of the buddy that is in G was in F.
  lemma BuddyPage(F: set<nat>, G: set<nat>, p: nat, o: nat, k: nat, y: nat)
    requires Joins(F, p, o, G) && o <= k && Full(G, Up(p, k) / 2, k + 1) && Up(y, k) == Buddy(Up(p, k))
    ensures y in F
  {
    assert Up(y, k + 1) == Up(p, k) / 2;
    assert y in G;
    if Up(y, o) == Up(p, o) {
      UpNested(y, p, o, k);
    }
  }

  lemma MergeDone(lists: seq<seq<nat>>, F: set<nat>, G: set<nat>, p: nat, o: nat, k: nat, idx: nat)
    requires Merging(lists, F, p, k) && Joins(F, p, o, G) && o <= k && Maximal(G, Up(p, k), k) && idx == Head(Up(p, k), k)
    ensures ListsMatch(lists[k := lists[k] + [idx]], G)
    ensures forall j: nat | j <= MAX_ORDER :: idx !in lists[j]
  {
    UpOfHead(Up(p, k), k);
    forall j: nat, i: nat | j <= MAX_ORDER
      ensures FreeBlock(G, i, j) <==> (i == idx && j == k) || (FreeBlock(F, i, j) && !(j < k && Up(i, k) == Up(p, k)))
    {
      AddBlock(F, p, o, G, k, Up(i, j), j);
      if j < k {
        InsidePage(i, j, Up(p, k), k);
      }
    }
    forall j: nat | j <= MAX_ORDER ensures idx !in lists[j] {
      if FreeBlock(F, idx, j) && k <= j {
        UpNested(idx, p, k, j);
      }
    }
  }

  // ---- carving at initialisation ----

  ghost predicate Fits(n: nat, idx: nat, order: nat) {
    Aligned(idx, order) && idx + Pow2(order) <= n
  }

  // The blocks with heads below idx are listed, and none of them reaches past idx.
  ghost predicate Carved(lists: seq<seq<nat>>, U: set<nat>, idx: nat) {
    && |lists| == MAX_ORDER + 1
    && (forall k: nat, i: nat | k <= MAX_ORDER :: i in lists[k] <==> FreeBlock(U, i, k) && i < idx)
    && (forall k: nat, i: nat | k <= MAX_ORDER && FreeBlock(U, i, k) && i < idx :: i + Pow2(k) <= idx)
  }

  // In a full range of pages, a block is free exactly when it fits.
  lemma FitsIsFull(n: nat, i: nat, k: nat)
    requires Aligned(i, k)
    ensures Full(Pages(n), Up(i, k), k) <==> i + Pow2(k) <= n
  {
    PowPositive(k);
    if Full(Pages(n), Up(i, k), k) {
      UpOfRange(Up(i, k), k, i + Pow2(k) - 1);
      assert i + Pow2(k) - 1 in Pages(n);
    }
    if i + Pow2(k) <= n {
      forall p: nat | Up(p, k) == Up(i, k) ensures p in Pages(n) {
        BlockIsRange(p, k);
      }
    }
  }

  // The block that starts at the boundary is the largest that fits there.
  lemma CarveStep(lists: seq<seq<nat>>, n: nat, idx: nat, order: nat)
    requires Carved(lists, Pages(n), idx) && idx < n && order <= MAX_ORDER && Fits(n, idx, order)
    requires forall k: nat | order < k <= MAX_ORDER :: !Fits(n, idx, k)
    ensures Carved(lists[order := lists[order] + [idx]], Pages(n), idx + Pow2(order))
  {
    var U := Pages(n);
    LargestIsMaximal(lists, n, idx, order);
    PowPositive(order);
    forall j: nat, i: nat | j <= MAX_ORDER && FreeBlock(U, i, j)
      ensures i < idx + Pow2(order) <==> i < idx || (i == idx && j == order)
    {
      if idx <= i < idx + Pow2(order) {
        OnlyHead(U, idx, order, i, j);
      }
    }
    var lists' := lists[order := lists[order] + [idx]];
    forall k: nat, i: nat | k <= MAX_ORDER ensures i in lists'[k] <==> FreeBlock(U, i, k) && i < idx + Pow2(order) {
      assert i in lists'[k] <==> i in lists[k] || (k == order && i == idx);
      assert i in lists[k] <==> FreeBlock(U, i, k) && i < idx;
    }
  }

  // No other free block starts inside a free block.
  lemma OnlyHead(F: set<nat>, idx: nat, order: nat, i: nat, j: nat)
    requires FreeBlock(F, idx, order) && FreeBlock(F, i, j) && idx <= i < idx + Pow2(order)
    ensures i == idx && j == order
  {
    UpOfRange(Up(idx, order), order, i);
    MaximalUnique(F, i, j, order);
  }

  lemma LargestIsMaximal(lists: seq<seq<nat>>, n: nat, idx: nat, order: nat)
    requires Carved(lists, Pages(n), idx) && idx < n && order <= MAX_ORDER && Fits(n, idx, order)
    requires forall k: nat | order < k <= MAX_ORDER :: !Fits(n, idx, k)
    ensures FreeBlock(Pages(n), idx, order)
  {
    var U := Pages(n);
    var k := PageInBlock(U, idx);
    BlockIsRange(idx, k);
    FitsIsFull(n, idx, order);
    MaximalIsLargest(U, idx, k, order);
    assert Head(Up(idx, k), k) == idx;
    FitsIsFull(n, idx, k);
    assert Fits(n, idx, k);
    assert order == k;
  }

  lemma {:induction false} EmptyWeighted(lists: seq<seq<nat>>, n: nat)
    requires n <= |lists| && forall k | 0 <= k < n :: lists[k] == []
    ensures Weighted(lists, n) == 0
  {
    if n > 0 {
      EmptyWeighted(lists, n - 1);
      assert |lists[n - 1]| * Pow2(n - 1) == 0;
    }
  }

  // A free block that is smallest among those of order `order` or more starts at idx.
  ghost predicate SmallestAt(F: set<nat>, idx: nat, order: nat) {
    exists top: nat :: FreeBlock(F, idx, top) && order <= top && NoneBetween(F, order, top)
  }

  ghost predicate NoneBetween(F: set<nat>, order: nat, top: nat) {
    forall k: nat, i: nat | order <= k < top :: !FreeBlock(F, i, k)
  }

  lemma NoSmaller(lists: seq<seq<nat>>, F: set<nat>, order: nat, top: nat)
    requires ListsMatch(lists, F) && top <= MAX_ORDER + 1 && forall k: nat | order <= k < top :: lists[k] == []
    ensures NoneBetween(F, order, top)
  {
    forall k: nat, i: nat | order <= k < top ensures !FreeBlock(F, i, k) {
      assert i in lists[k] <==> FreeBlock(F, i, k);
    }
  }

  class Zone {
    const total: nat
    const links: array<Link>      // page links first, then one list head per order
    const info: array<PageInfo>
    const freeCount: array<nat>
    var totalFree: nat
    ghost var lists: seq<seq<nat>>  // head pages of the free blocks of each order
    ghost var free: set<nat>        // free pages

    // Lists, flags and counters describe the same blocks.
    ghost predicate Shape()
      reads this, links, info, freeCount
    {
      && info.Length == total
      && freeCount.Length == |lists| == MAX_ORDER + 1
      && Rings(links[..], total, lists) && Flags(info[..], lists)
      && (forall k | 0 <= k <= MAX_ORDER :: freeCount[k] == |lists[k]|)
      && totalFree == Weighted(lists, MAX_ORDER + 1)
    }

    // The free blocks are exactly the maximal blocks of the free set.
    ghost predicate Valid()
      reads this, links, info, freeCount
    {
      && Shape()
      && ListsMatch(lists, free)
      && (forall p <- free :: p < total)
      && totalFree == |free|
    }

    // All pages free, cut into the largest aligned blocks from the lowest page up.
    constructor (managedPages: nat)
      ensures Valid() && total == managedPages && free == Pages(managedPages)
      ensures fresh(links) && fresh(info) && fresh(freeCount)
    {
      total := managedPages;
      links := new Link[managedPages + MAX_ORDER + 1](_ => Link(0, 0));
      info := new PageInfo[managedPages](_ => PageInfo(0, false));
      freeCount := new nat[MAX_ORDER + 1](_ => 0);
      totalFree := 0;
      lists := seq(MAX_ORDER + 1, _ => []);
      free := {};
      new;
      InitLists();
      CarveAll();
    }

    method InitLists()
      requires links.Length == total + MAX_ORDER + 1 && info.Length == total && freeCount.Length == MAX_ORDER + 1
      requires |lists| == MAX_ORDER + 1 && (forall k | 0 <= k <= MAX_ORDER :: lists[k] == [] && freeCount[k] == 0)
      requires (forall i | 0 <= i < total :: !info[i].isFree) && totalFree == 0
      modifies links
      ensures Shape()
    {
      var i := 0;
      while i <= MAX_ORDER
        invariant i <= MAX_ORDER + 1
        invariant forall k | 0 <= k < i :: Ring(links[..], total + k, lists[k]) && NoDup(total + k, lists[k])
      {
        ghost var m := links[..];
        ListInit(links, total + i);
        assert lists[i] == [];
        forall k | 0 <= k < i ensures Ring(links[..], total + k, lists[k]) {
          RingFrame(m, links[..], total + k, lists[k]);
        }
        i := i + 1;
      }
      EmptyWeighted(lists, MAX_ORDER + 1);
    }

    method LargestOrder(idx: nat) returns (order: nat)
      requires idx < total
      ensures order <= MAX_ORDER && Fits(total, idx, order)
      ensures forall k: nat | order < k <= MAX_ORDER :: !Fits(total, idx, k)
    {
      order := 0;
      var o := MAX_ORDER;
      while o > 0
        invariant o <= MAX_ORDER && order == 0
        invariant forall k: nat | o < k <= MAX_ORDER :: !Fits(total, idx, k)
      {
        AlignedIsMultiple(idx, o);
        var block := Pow2(o);
        if idx % block == 0 && idx + block <= total {
          order := o;
          return;
        }
        o := o - 1;
      }
    }

    method CarveAll()
      requires Shape() && totalFree == 0 && forall k | 0 <= k <= MAX_ORDER :: lists[k] == []
      requires forall i | 0 <= i < total :: info[i] == PageInfo(0, false)
      modifies this, links, info, freeCount
      ensures Valid() && free == Pages(total)
    {
      var idx: nat := 0;
      ghost var U := Pages(total);
      while idx < total
        invariant idx <= total && Shape() && Carved(lists, U, idx) && totalFree == idx
        invariant forall i | idx <= i < total :: info[i] == PageInfo(0, false)
        modifies this`totalFree, this`lists, links, info, freeCount
      {
        var order := LargestOrder(idx);
        CarveStep(lists, total, idx, order);
        AddFree(idx, order);
        PowPositive(order);
        idx := idx + Pow2(order);
      }
      free := U;
    }

    method AddFree(idx: nat, order: nat)
      requires Shape() && idx < total && order <= MAX_ORDER && !info[idx].isFree
      modifies this`totalFree, this`lists, links, info, freeCount
      ensures Shape() && lists == old(lists)[order := old(lists)[order] + [idx]]
      ensures totalFree == old(totalFree) + Pow2(order)
      ensures info[idx] == PageInfo(order, true)
      ensures forall i | 0 <= i < total && i != idx :: info[i] == old(info[i])
    {
      ghost var m, f, ls := links[..], info[..], lists;
      FlagsAdd(f, ls, order, idx);
      info[idx] := PageInfo(order, true);
      ListAddTail(links, idx, total + order, ls[order]);
      freeCount[order] := freeCount[order] + 1;
      totalFree := totalFree + Pow2(order);
      lists := ls[order := ls[order] + [idx]];
      assert info[..] == f[idx := PageInfo(order, true)];
      RingsKeep(m, links[..], f, ls, order, idx, lists[order]);
      WeightedChange(ls, lists, order, MAX_ORDER + 1);
    }

    method RemoveFree(idx: nat, order: nat, ghost j: nat)
      requires Shape() && order <= MAX_ORDER && j < |lists[order]| && lists[order][j] == idx
      modifies this`totalFree, this`lists, links, info, freeCount
      ensures Shape() && lists == old(lists)[order := Without(old(lists)[order], j)]
      ensures old(totalFree) == totalFree + Pow2(order)
      ensures idx < total && info[idx] == PageInfo(order, false)
      ensures forall i | 0 <= i < total && i != idx :: info[i] == old(info[i])
    {
      ghost var m, f, ls := links[..], info[..], lists;
      FlagsRemove(f, ls, order, j);
      ListDel(links, idx, total + order, ls[order], j);
      info[idx] := info[idx].(isFree := false);
      lists := ls[order := Without(ls[order], j)];
      WeightedChange(lists, ls, order, MAX_ORDER + 1);
      freeCount[order] := freeCount[order] - 1;
      totalFree := totalFree - Pow2(order);
      assert info[..] == f[idx := PageInfo(order, false)];
      RingsKeep(m, links[..], f, ls, order, idx, lists[order]);
    }

    // ---- allocation ----

    method FirstNonEmpty(order: nat) returns (cur: nat)
      requires Shape() && order <= MAX_ORDER
      ensures order <= cur <= MAX_ORDER + 1 && forall k: nat | order <= k < cur :: lists[k] == []
      ensures cur <= MAX_ORDER ==> lists[cur] != []
    {
      cur := order;
      while cur <= MAX_ORDER
        invariant order <= cur <= MAX_ORDER + 1 && forall k: nat | order <= k < cur :: lists[k] == []
        decreases MAX_ORDER + 1 - cur
      {
        var empty := ListEmpty(links, total + cur, lists[cur]);
        if !empty {
          return;
        }
        cur := cur + 1;
      }
    }

    // Pops the first block of a list.
    method TakeFirst(order: nat) returns (idx: nat)
      requires Shape() && order <= MAX_ORDER && lists[order] != []
      modifies this`totalFree, this`lists, links, info, freeCount
      ensures Shape() && idx == old(lists)[order][0] && lists == old(lists)[order := Without(old(lists)[order], 0)]
      ensures old(totalFree) == totalFree + Pow2(order)
      ensures idx < total && info[idx] == PageInfo(order, false)
      ensures forall i | 0 <= i < total && i != idx :: info[i] == old(info[i])
    {
      ghost var s := lists[order];
      RingInRange(links[..], total + order, s);
      assert Joined(links[..], Nth(total + order, s, 0), Nth(total + order, s, 1));
      idx := links[total + order].next;
      RemoveFree(idx, order, 0);
    }

    // A block of 2^order pages: none exactly when no aligned block of that size is wholly
    // free. It is the front of a free block that is smallest among those large enough.
    method Alloc(order: nat) returns (r: Option<nat>)
      requires Valid() && order <= MAX_ORDER
      modifies this, links, info, freeCount
      ensures Valid()
      ensures r.None? <==> forall q: nat :: !Full(old(free), q, order)
      ensures r.None? ==> free == old(free) && SameHeld(old(info[..]), info[..], free)
      ensures r.Some? ==>
        && r.value < total && Aligned(r.value, order) && SmallestAt(old(free), r.value, order)
        && Block(Up(r.value, order), order) <= old(free) && free == old(free) - Block(Up(r.value, order), order)
        && info[r.value].order == order && SameHeld(old(info[..]), info[..], old(free))
    {
      var cur := FirstNonEmpty(order);
      NoSmaller(lists, free, order, cur);
      RoomExact(free, order);
      if cur > MAX_ORDER {
        return None;
      }
      var idx := Carve(cur, order);
      r := Some(idx);
    }

    // Takes the first block of order `top` and splits it down to one of order `order`.
    method Carve(top: nat, order: nat) returns (idx: nat)
      requires Valid() && order <= top <= MAX_ORDER && lists[top] != []
      modifies this, links, info, freeCount
      ensures Valid() && idx < total && FreeBlock(old(free), idx, top) && Aligned(idx, order)
      ensures Block(Up(idx, order), order) <= old(free) && free == old(free) - Block(Up(idx, order), order)
      ensures info[idx].order == order && SameHeld(old(info[..]), info[..], old(free))
    {
      ghost var F, f := free, info[..];
      SplitStart(lists, F, top);
      idx := TakeFirst(top);
      TakenOut(F, idx, order, top);
      AlignedBelow(idx, top, order);
      SplitDown(idx, top, order, F, f, totalFree + Pow2(top));
      MarkHeld(idx, order);
      SetFree(F - Block(Up(idx, order), order));
    }

    // The free set that the lists, flags and counters describe by now.
    ghost method SetFree(F: set<nat>)
      requires Shape() && ListsMatch(lists, F) && (forall p <- F :: p < total) && totalFree == |F|
      modifies this`free
      ensures Valid() && free == F
    {
      free := F;
    }

    method MarkHeld(idx: nat, order: nat)
      requires Shape() && idx < total && !info[idx].isFree
      modifies info
      ensures Shape() && info[idx] == PageInfo(order, false)
      ensures forall i | 0 <= i < total && i != idx :: info[i] == old(info[i])
    {
      ghost var f := info[..];
      info[idx] := info[idx].(order := order);
      assert info[..] == f[idx := f[idx].(order := order)];
      FlagsReorder(f, info[..], lists, idx, order);
    }

    // The split of block (idx, top) has come down to order cur; `sum` pages are accounted
    // for by the lists and the block, and the records of other held pages are those of f.
    ghost predicate SplitTo(idx: nat, top: nat, cur: nat, F: set<nat>, f: seq<PageInfo>, sum: nat)
      reads this, links, info, freeCount
    {
      && Shape() && Splitting(lists, F, idx, top, cur) && totalFree + Pow2(cur) == sum
      && idx < total && !info[idx].isFree && SameHeld(f, info[..], F)
    }

    // Lists the upper half of the block, then of its lower half, and so on.
    method SplitDown(idx: nat, top: nat, order: nat, ghost F: set<nat>, ghost f: seq<PageInfo>, ghost sum: nat)
      requires SplitTo(idx, top, top, F, f, sum) && FreeBlock(F, idx, top) && order <= top <= MAX_ORDER
      requires forall p <- F :: p < total
      modifies this`totalFree, this`lists, links, info, freeCount
      ensures SplitTo(idx, top, order, F, f, sum) && ListsMatch(lists, F - Block(Up(idx, order), order))
    {
      var cur: nat := top;
      while cur > order
        invariant order <= cur <= top && SplitTo(idx, top, cur, F, f, sum)
        modifies this`totalFree, this`lists, links, info, freeCount
      {
        cur := ListUpperHalf(idx, top, cur, F, f, sum);
      }
      SplitDone(lists, F, idx, top, order);
    }

    method ListUpperHalf(idx: nat, ghost top: nat, cur: nat, ghost F: set<nat>, ghost f: seq<PageInfo>, ghost sum: nat) returns (half: nat)
      requires SplitTo(idx, top, cur, F, f, sum) && FreeBlock(F, idx, top) && 0 < cur <= top <= MAX_ORDER
      requires forall p <- F :: p < total
      modifies this`totalFree, this`lists, links, info, freeCount
      ensures half == cur - 1 && SplitTo(idx, top, half, F, f, sum)
    {
      half := cur - 1;
      var i := idx + Pow2(half);
      SplitStep(lists, F, idx, top, half, i);
      AddUnlisted(i, half, F, f);
    }

    // Lists a block whose head, a page of F, heads no listed block.
    method AddUnlisted(i: nat, order: nat, ghost F: set<nat>, ghost f: seq<PageInfo>)
      requires Shape() && i in F && order <= MAX_ORDER && SameHeld(f, info[..], F)
      requires (forall p <- F :: p < total) && forall k: nat | k <= MAX_ORDER :: i !in lists[k]
      modifies this`totalFree, this`lists, links, info, freeCount
      ensures Shape() && lists == old(lists)[order := old(lists)[order] + [i]]
      ensures totalFree == old(totalFree) + Pow2(order) && SameHeld(f, info[..], F)
      ensures forall p | 0 <= p < total && p != i :: info[p] == old(info[p])
    {
      Unlisted(info[..], lists, i);
      AddFree(i, order);
    }

    // ---- release ----

    // A block of 2^order pages, none of them free, becomes free.
    method Free(page: nat, order: nat)
      requires Valid() && order <= MAX_ORDER && Aligned(page, order)
      requires forall p <- Block(Up(page, order), order) :: p < total && p !in free
      modifies this, links, info, freeCount
      ensures Valid() && free == old(free) + Block(Up(page, order), order)
      ensures SameHeld(old(info[..]), info[..], free)
    {
      ghost var F, f := free, info[..];
      ghost var G := F + Block(Up(page, order), order);
      BlockJoins(F, page, order);
      StartMerging(lists, F, G, page, order);
      var idx, k := MergeUp(page, order, G);
      Completed(lists, F, G, page, order, k, idx);
      AddUnlisted(idx, k, G, f);
      SetFree(G);
    }

    // Absorbs free buddies into the block of `page`, level by level.
    method MergeUp(page: nat, order0: nat, ghost G: set<nat>) returns (idx: nat, order: nat)
      requires Shape() && Merging(lists, free, page, order0) && order0 <= MAX_ORDER && Aligned(page, order0)
      requires Joins(free, page, order0, G) && Full(G, Up(page, order0), order0) && forall p <- free :: p < total
      modifies this`totalFree, this`lists, links, info, freeCount
      ensures Shape() && Merging(lists, free, page, order) && idx == Head(Up(page, order), order)
      ensures order0 <= order && Maximal(G, Up(page, order), order)
      ensures totalFree + Pow2(order) == old(totalFree) + Pow2(order0)
      ensures forall i | 0 <= i < total && i !in free :: info[i] == old(info[i])
    {
      idx, order := page, order0;
      while order < MAX_ORDER
        invariant order0 <= order <= MAX_ORDER && Shape() && Merging(lists, free, page, order)
        invariant idx == Head(Up(page, order), order) && Full(G, Up(page, order), order)
        invariant totalFree + Pow2(order) == old(totalFree) + Pow2(order0)
        invariant forall i | 0 <= i < total && i !in free :: info[i] == old(info[i])
        modifies this`totalFree, this`lists, links, info, freeCount
        decreases MAX_ORDER - order
      {
        var absorbed, parent := AbsorbBuddy(idx, order, page, order0, G);
        if !absorbed {
          return;
        }
        idx, order := parent, order + 1;
      }
      MergeStops(free, G, page, order0, order, 0);
    }

    // Takes the buddy off its list if it is a free block of the same order.
    method AbsorbBuddy(idx: nat, order: nat, ghost page: nat, ghost order0: nat, ghost G: set<nat>) returns (absorbed: bool, parent: nat)
      requires Shape() && Merging(lists, free, page, order) && Joins(free, page, order0, G) && order0 <= order < MAX_ORDER
      requires idx == Head(Up(page, order), order) && Full(G, Up(page, order), order)
      requires forall p <- free :: p < total
      modifies this`totalFree, this`lists, links, info, freeCount
      ensures Shape()
      ensures absorbed ==>
        && Merging(lists, free, page, order + 1) && totalFree + Pow2(order) == old(totalFree)
        && Full(G, Up(page, order + 1), order + 1) && parent == Head(Up(page, order + 1), order + 1)
      ensures !absorbed ==>
        && lists == old(lists) && totalFree == old(totalFree) && Maximal(G, Up(page, order), order)
      ensures forall i | 0 <= i < total && i !in free :: info[i] == old(info[i])
    {
      UpOfHead(Up(page, order), order);
      BuddyAndParent(idx, order);
      var b := BitXor(idx, Pow2(order));
      BuddyListed(info[..], lists, free, G, page, order0, order, b);
      if b >= total {
        return false, idx;
      }
      if !info[b].isFree || info[b].order != order {
        return false, idx;
      }
      ghost var x :| 0 <= x < |lists[order]| && lists[order][x] == b;
      assert b in free;
      MergeStep(lists, free, G, page, order, b, x);
      RemoveFree(b, order, x);
      absorbed, parent := true, BitAndNot(idx, Pow2(order));
    }

    // ---- the page interface ----

    // What page_is_used answers: -1 out of range, 0 for the head of a free block, else 1.
    method PageIsUsed(i: nat) returns (r: int)
      requires Valid()
      ensures r == -1 <==> i >= total
      ensures r == 0 <==> exists k: nat :: k <= MAX_ORDER && FreeBlock(free, i, k)
      ensures r == -1 || r == 0 || r == 1
    {
      if i >= total {
        OutsideNotFree(free, total, i);
        return -1;
      }
      if info[i].isFree {
        assert FreeBlock(free, i, info[i].order);
        return 0;
      }
      forall k: nat | k <= MAX_ORDER ensures !FreeBlock(free, i, k) {
        if i in lists[k] {
          Listed(info[..], lists, k, i);
        }
      }
      r := 1;
    }
  }

  lemma OutsideNotFree(F: set<nat>, n: nat, i: nat)
    requires i >= n && forall p <- F :: p < n
    ensures forall k: nat :: !FreeBlock(F, i, k)
  {
  }

  // The two tests of the loop decide whether the buddy is a free block of this order.
  lemma BuddyListed(f: seq<PageInfo>, lists: seq<seq<nat>>, F: set<nat>, G: set<nat>, page: nat, order0: nat, order: nat, b: nat)
    requires Flags(f, lists) && Merging(lists, F, page, order) && Joins(F, page, order0, G) && order0 <= order < MAX_ORDER
    requires Full(G, Up(page, order), order) && Aligned(b, order) && Up(b, order) == Buddy(Up(page, order))
    requires forall p <- F :: p < |f|
    ensures b < |f| && f[b].isFree && f[b].order == order ==> b in lists[order]
    ensures !(b < |f| && f[b].isFree && f[b].order == order) ==> Maximal(G, Up(page, order), order)
  {
    if b < |f| && f[b].isFree && f[b].order == order {
      assert b in lists[order];
    } else {
      if FreeBlock(F, b, order) {
        Listed(f, lists, order, b);
      }
      MergeStops(F, G, page, order0, order, b);
    }
  }

  lemma Unlisted(f: seq<PageInfo>, lists: seq<seq<nat>>, i: nat)
    requires Flags(f, lists) && i < |f| && forall k: nat | k < |lists| :: i !in lists[k]
    ensures !f[i].isFree
  {
  }

  lemma FlagsReorder(f: seq<PageInfo>, f': seq<PageInfo>, lists: seq<seq<nat>>, idx: nat, order: nat)
    requires Flags(f, lists) && idx < |f| && !f[idx].isFree && f' == f[idx := f[idx].(order := order)]
    ensures Flags(f', lists)
  {
    forall k: nat, i: nat | k < |lists| ensures ListedAt(f', lists, k, i) {
      if i in lists[k] {
        Listed(f, lists, k, i);
      }
    }
    forall i | 0 <= i < |f'| && f'[i].isFree ensures f'[i].order < |lists| && i in lists[f'[i].order] {
      assert f'[i] == f[i];
    }
  }

  // The records of the pages outside F are as before.
  ghost predicate SameHeld(f: seq<PageInfo>, f': seq<PageInfo>, F: set<nat>) {
    |f| == |f'| && forall i | 0 <= i < |f| && i !in F :: f'[i] == f[i]
  }

  lemma BlockJoins(F: set<nat>, p: nat, o: nat)
    requires forall x <- Block(Up(p, o), o) :: x !in F
    ensures Joins(F, p, o, F + Block(Up(p, o), o)) && Full(F + Block(Up(p, o), o), Up(p, o), o) && p in Block(Up(p, o), o)
    ensures |F + Block(Up(p, o), o)| == |F| + Pow2(o)
  {
    var B := Block(Up(p, o), o);
    forall x: nat ensures x in B <==> Up(x, o) == Up(p, o) {
      InBlock(Up(p, o), o, x);
    }
    assert F !! B;
  }

  lemma StartMerging(lists: seq<seq<nat>>, F: set<nat>, G: set<nat>, p: nat, o: nat)
    requires ListsMatch(lists, F) && Joins(F, p, o, G)
    ensures Merging(lists, F, p, o)
  {
    forall j: nat, i: nat | j <= MAX_ORDER && FreeBlock(F, i, j) ensures !(j < o && Up(i, o) == Up(p, o)) {
      assert i in F;
    }
  }

  lemma Completed(lists: seq<seq<nat>>, F: set<nat>, G: set<nat>, p: nat, o: nat, k: nat, idx: nat)
    requires Merging(lists, F, p, k) && Joins(F, p, o, G) && o <= k && Maximal(G, Up(p, k), k) && idx == Head(Up(p, k), k)
    ensures ListsMatch(lists[k := lists[k] + [idx]], G) && idx in G
    ensures forall j: nat | j <= MAX_ORDER :: idx !in lists[j]
  {
    UpOfHead(Up(p, k), k);
    MergeDone(lists, F, G, p, o, k, idx);
  }
}
