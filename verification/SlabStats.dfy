// The slab heap's statistics count the live objects and the free slots.
module SlabStats {
  import opened Prelude
  import opened SlabPage
  import opened SlabLists
  import opened SlabHeap
  import opened SlabSlots

  datatype Stats = Stats(usedBytes: nat, freeBytes: nat, allocCount: nat, freeCount: nat)

  function Plus(a: Stats, b: Stats): Stats {
    Stats(a.usedBytes + b.usedBytes, a.freeBytes + b.freeBytes, a.allocCount + b.allocCount, a.freeCount + b.freeCount)
  }

  // What one slab adds to the sums.
  function OfSlab(s: Slab): Stats
    requires s.freeCount <= s.capacity
  {
    var used := s.capacity - s.freeCount;
    Stats(used * s.objSize, s.freeCount * s.objSize, used, s.freeCount)
  }

  // ---- objects on a sequence of slabs ----

  function Slots(n: nat): (s: set<nat>)
    ensures |s| == n && forall i: nat :: i in s <==> i < n
  {
    if n == 0 then {} else Slots(n - 1) + {n - 1}
  }

  lemma SlotCount(s: Slab)
    requires s.Valid()
    ensures s.freeCount <= s.capacity && |LiveSlots(s)| == s.capacity - s.freeCount
  {
    var all := Slots(s.capacity);
    assert s.FreeSlots() <= all && LiveSlots(s) == all - s.FreeSlots();
    assert all == LiveSlots(s) + s.FreeSlots();
  }

  ghost function ObjectsOf(p: nat, slots: set<nat>): set<Object> {
    set i <- slots :: Object(p, i)
  }

  lemma {:induction false} ObjectCount(p: nat, slots: set<nat>)
    ensures |ObjectsOf(p, slots)| == |slots|
    decreases |slots|
  {
    if i: nat :| i in slots {
      ObjectCount(p, slots - {i});
      assert ObjectsOf(p, slots) == ObjectsOf(p, slots - {i}) + {Object(p, i)};
    } else {
      assert slots == {};
    }
  }

  ghost predicate AllValid(pages: Pages, ps: seq<nat>) {
    (forall p <- ps :: p in pages && pages[p].Valid()) && forall i, j | 0 <= i < j < |ps| :: ps[i] != ps[j]
  }

  ghost function Live(pages: Pages, ps: seq<nat>): set<Object>
    requires forall p <- ps :: p in pages
  {
    if ps == [] then {} else
      var n := |ps| - 1;
      Live(pages, ps[..n]) + ObjectsOf(ps[n], LiveSlots(pages[ps[n]]))
  }

  ghost function Free(pages: Pages, ps: seq<nat>): set<Object>
    requires forall p <- ps :: p in pages
  {
    if ps == [] then {} else
      var n := |ps| - 1;
      Free(pages, ps[..n]) + ObjectsOf(ps[n], pages[ps[n]].FreeSlots())
  }

  ghost function Total(pages: Pages, ps: seq<nat>): Stats
    requires AllValid(pages, ps)
  {
    if ps == [] then Stats(0, 0, 0, 0) else
      var n := |ps| - 1;
      SlotCount(pages[ps[n]]);
      Plus(Total(pages, ps[..n]), OfSlab(pages[ps[n]]))
  }

  lemma {:induction false} LiveOnly(pages: Pages, ps: seq<nat>)
    requires AllValid(pages, ps)
    ensures forall o: Object :: o in Live(pages, ps) <==> o.page in ps && IsLive(pages, o)
    ensures forall o: Object :: o in Free(pages, ps) <==> o.page in ps && IsFree(pages, o)
    decreases |ps|
  {
    if ps != [] {
      var n := |ps| - 1;
      LiveOnly(pages, ps[..n]);
      assert ps == ps[..n] + [ps[n]];
    }
  }

  // The counts over distinct slabs are the numbers of live objects and of free slots on them.
  lemma {:induction false} CountsLive(pages: Pages, ps: seq<nat>)
    requires AllValid(pages, ps)
    ensures Total(pages, ps).allocCount == |Live(pages, ps)| && Total(pages, ps).freeCount == |Free(pages, ps)|
    decreases |ps|
  {
    if ps != [] {
      var n := |ps| - 1;
      CountsLive(pages, ps[..n]);
      LiveOnly(pages, ps[..n]);
      SlotCount(pages[ps[n]]);
      ObjectCount(ps[n], LiveSlots(pages[ps[n]]));
      ObjectCount(ps[n], pages[ps[n]].FreeSlots());
      assert Live(pages, ps[..n]) !! ObjectsOf(ps[n], LiveSlots(pages[ps[n]]));
      assert Free(pages, ps[..n]) !! ObjectsOf(ps[n], pages[ps[n]].FreeSlots());
    }
  }

  // ---- the sums by class ----

  // Every slot counted has the size z.
  ghost predicate AllOfSize(t: Stats, z: nat) {
    t.usedBytes == z * t.allocCount && t.freeBytes == z * t.freeCount
  }

  lemma SlabOfSize(s: Slab)
    requires s.freeCount <= s.capacity
    ensures AllOfSize(OfSlab(s), s.objSize)
  {
  }

  lemma PlusOfSize(a: Stats, b: Stats, z: nat)
    requires AllOfSize(a, z) && AllOfSize(b, z)
    ensures AllOfSize(Plus(a, b), z)
  {
    Distribute(z, a.allocCount, b.allocCount);
    Distribute(z, a.freeCount, b.freeCount);
  }

  lemma Distribute(z: nat, a: nat, b: nat)
    ensures z * (a + b) == z * a + z * b
  {
  }

  // On slabs of one object size every slot counts that size.
  lemma {:induction false} ClassBytes(pages: Pages, ps: seq<nat>, z: nat)
    requires AllValid(pages, ps) && forall p <- ps :: pages[p].objSize == z
    ensures AllOfSize(Total(pages, ps), z)
    decreases |ps|
  {
    if ps != [] {
      var n := |ps| - 1;
      ClassBytes(pages, ps[..n], z);
      SlotCount(pages[ps[n]]);
      SlabOfSize(pages[ps[n]]);
      PlusOfSize(Total(pages, ps[..n]), OfSlab(pages[ps[n]]), z);
    }
  }

  // The numbers of live objects, and of free slots, of the classes in order.
  ghost function LiveCounts(pages: Pages): (n: seq<nat>)
    ensures |n| == 7 && forall c | 0 <= c < 7 :: n[c] == |LiveIn(pages, c)|
  {
    seq(7, c requires c >= 0 => |LiveIn(pages, c)|)
  }

  ghost function FreeCounts(pages: Pages): (n: seq<nat>)
    ensures |n| == 7 && forall c | 0 <= c < 7 :: n[c] == |FreeIn(pages, c)|
  {
    seq(7, c requires c >= 0 => |FreeIn(pages, c)|)
  }

  // So many objects of a class, in bytes.
  ghost function Times(c: nat, n: nat): nat
    requires c < NUM_CACHES
  {
    if c == 0 then 32 * n
    else if c == 1 then 64 * n
    else if c == 2 then 128 * n
    else if c == 3 then 256 * n
    else if c == 4 then 512 * n
    else if c == 5 then 1024 * n
    else 2048 * n
  }

  lemma TimesSize(c: nat, n: nat)
    requires c < NUM_CACHES
    ensures Times(c, n) == SIZES[c] * n
  {
  }

  // The first k classes together.
  ghost function Weight(n: seq<nat>, k: nat): nat
    requires |n| == NUM_CACHES && k <= NUM_CACHES
  {
    if k == 0 then 0 else Weight(n, k - 1) + Times(k - 1, n[k - 1])
  }

  ghost function InBytes(n: seq<nat>): nat
    requires |n| == 7
  {
    32 * n[0] + 64 * n[1] + 128 * n[2] + 256 * n[3] + 512 * n[4] + 1024 * n[5] + 2048 * n[6]
  }

  lemma AllClassesWeighed(n: seq<nat>)
    requires |n| == 7
    ensures Weight(n, 7) == InBytes(n)
  {
    assert Weight(n, 1) == 32 * n[0];
    assert Weight(n, 2) == Weight(n, 1) + 64 * n[1];
    assert Weight(n, 3) == Weight(n, 2) + 128 * n[2];
    assert Weight(n, 4) == Weight(n, 3) + 256 * n[3];
    assert Weight(n, 5) == Weight(n, 4) + 512 * n[4];
    assert Weight(n, 6) == Weight(n, 5) + 1024 * n[5];
  }

  // ---- the lists of one heap ----

  lemma ListValid(h: Heap, q: nat)
    requires h.Valid() && q < NUM_LISTS
    ensures AllValid(h.pages, h.lists[q]) && h.heads[q] == First(h.lists[q])
    ensures forall p: nat :: p in h.lists[q] <==> p in h.pages && Place(h.pages[p]) == q
  {
    assert Chain(h.pages, h.heads[..][q], h.lists[q]);
    forall p: nat ensures p in h.lists[q] <==> p in h.pages && Place(h.pages[p]) == q {
      Member(h.lists, q, p);
    }
    forall p | p in h.lists[q] ensures p in h.pages && h.pages[p].Valid() {
      SlabLists.Below(h.pages, p, h.start, h.brk);
    }
  }

  lemma TotalNext(pages: Pages, s: seq<nat>, k: nat)
    requires AllValid(pages, s) && k < |s|
    ensures AllValid(pages, s[..k]) && AllValid(pages, s[..k + 1]) && pages[s[k]].freeCount <= pages[s[k]].capacity
    ensures Total(pages, s[..k + 1]) == Plus(Total(pages, s[..k]), OfSlab(pages[s[k]]))
  {
    SlotCount(pages[s[k]]);
    assert s[..k + 1][..k] == s[..k];
  }

  lemma {:induction false} TotalAppend(pages: Pages, a: seq<nat>, b: seq<nat>)
    requires AllValid(pages, a + b)
    ensures AllValid(pages, a) && AllValid(pages, b) && Total(pages, a + b) == Plus(Total(pages, a), Total(pages, b))
    decreases |b|
  {
    AllValidParts(pages, a, b);
    if b == [] {
      assert a + b == a;
    } else {
      var n := |b| - 1;
      assert a + b == (a + b[..n]) + [b[n]] && b == b[..n] + [b[n]];
      AllValidParts(pages, a + b[..n], [b[n]]);
      TotalAppend(pages, a, b[..n]);
      TotalOneMore(pages, a + b[..n], b[n]);
      TotalOneMore(pages, b[..n], b[n]);
      PlusAssociates(Total(pages, a), Total(pages, b[..n]), OfSlab(pages[b[n]]));
    }
  }

  lemma TotalOneMore(pages: Pages, a: seq<nat>, p: nat)
    requires AllValid(pages, a + [p])
    ensures AllValid(pages, a) && p in pages && pages[p].freeCount <= pages[p].capacity
    ensures Total(pages, a + [p]) == Plus(Total(pages, a), OfSlab(pages[p]))
  {
    AllValidParts(pages, a, [p]);
    TotalNext(pages, a + [p], |a|);
    assert (a + [p])[..|a|] == a && (a + [p])[..|a| + 1] == a + [p] && (a + [p])[|a|] == p;
  }

  lemma PlusAssociates(a: Stats, b: Stats, c: Stats)
    ensures Plus(Plus(a, b), c) == Plus(a, Plus(b, c))
  {
  }

  lemma AllValidParts(pages: Pages, a: seq<nat>, b: seq<nat>)
    requires AllValid(pages, a + b)
    ensures AllValid(pages, a) && AllValid(pages, b)
  {
    assert forall i | 0 <= i < |a| :: a[i] == (a + b)[i];
    assert forall i | 0 <= i < |b| :: b[i] == (a + b)[|a| + i];
  }

  // Adds up a partial list.
  method WalkPartial(h: Heap, q: nat) returns (out: Stats)
    requires h.Valid() && q < NUM_CACHES
    ensures AllValid(h.pages, h.lists[q]) && out == Total(h.pages, h.lists[q])
  {
    ListValid(h, q);
    ghost var s, k: nat := h.lists[q], 0;
    out := Stats(0, 0, 0, 0);
    var cur := h.heads[q];
    while cur != NULL
      invariant k <= |s| && cur == (if k < |s| then s[k] else NULL) && AllValid(h.pages, s[..k])
      invariant out == Total(h.pages, s[..k])
      decreases |s| - k
    {
      WalkStep(h, q, k);
      var slab := h.pages[cur];
      out := Plus(out, OfSlab(slab));
      cur, k := slab.next, k + 1;
    }
    EndReached(h, q, k);
    assert s[..k] == s;
  }

  // Adds up a full list, where every slot is in use.
  method WalkFull(h: Heap, q: nat) returns (out: Stats)
    requires h.Valid() && NUM_CACHES <= q < NUM_LISTS
    ensures AllValid(h.pages, h.lists[q]) && out == Total(h.pages, h.lists[q])
  {
    ListValid(h, q);
    ghost var s, k: nat := h.lists[q], 0;
    out := Stats(0, 0, 0, 0);
    var cur := h.heads[q];
    while cur != NULL
      invariant k <= |s| && cur == (if k < |s| then s[k] else NULL) && AllValid(h.pages, s[..k])
      invariant out == Total(h.pages, s[..k])
      decreases |s| - k
    {
      WalkStep(h, q, k);
      FullSlab(h, q, s[k], out);
      var slab := h.pages[cur];
      out := Stats(out.usedBytes + slab.capacity * slab.objSize, out.freeBytes,
                   out.allocCount + slab.capacity, out.freeCount);
      cur, k := slab.next, k + 1;
    }
    EndReached(h, q, k);
    assert s[..k] == s;
  }

  // What one step of a walk sees.
  lemma WalkStep(h: Heap, q: nat, k: nat)
    requires h.Valid() && q < NUM_LISTS && k < |h.lists[q]|
    ensures var s := h.lists[q];
            && s[k] in h.pages && h.pages[s[k]].next == After(s, k) && h.pages[s[k]].freeCount <= h.pages[s[k]].capacity
            && AllValid(h.pages, s[..k]) && AllValid(h.pages, s[..k + 1])
            && Total(h.pages, s[..k + 1]) == Plus(Total(h.pages, s[..k]), OfSlab(h.pages[s[k]]))
  {
    ListValid(h, q);
    assert Chain(h.pages, h.heads[..][q], h.lists[q]);
    assert ChainAt(h.pages, h.lists[q], k);
    TotalNext(h.pages, h.lists[q], k);
  }

  lemma FullSlab(h: Heap, q: nat, p: nat, out: Stats)
    requires h.Valid() && NUM_CACHES <= q < NUM_LISTS && p in h.lists[q]
    ensures p in h.pages && h.pages[p].freeCount == 0 <= h.pages[p].capacity
    ensures var s := h.pages[p];
            Plus(out, OfSlab(s)) ==
            Stats(out.usedBytes + s.capacity * s.objSize, out.freeBytes, out.allocCount + s.capacity, out.freeCount)
  {
    ListValid(h, q);
    NothingFree(h.pages[p].objSize);
  }

  lemma NothingFree(size: nat)
    ensures 0 * size == 0
  {
  }

  lemma NotNull(h: Heap, q: nat, k: nat)
    requires h.Valid() && q < NUM_LISTS
    ensures k < |h.lists[q]| ==> h.lists[q][k] in h.pages && h.lists[q][k] != NULL
  {
    ListValid(h, q);
  }

  lemma EndReached(h: Heap, q: nat, k: nat)
    requires h.Valid() && q < NUM_LISTS && k <= |h.lists[q]| && (if k < |h.lists[q]| then h.lists[q][k] else NULL) == NULL
    ensures k == |h.lists[q]|
  {
    NotNull(h, q, k);
  }

  // The two lists of a class hold its live objects and its free slots.
  lemma ListsOfClass(h: Heap, c: nat)
    requires h.Valid() && c < NUM_CACHES
    ensures AllValid(h.pages, h.lists[c]) && AllValid(h.pages, h.lists[FullList(c)])
    ensures var t := Plus(Total(h.pages, h.lists[c]), Total(h.pages, h.lists[FullList(c)]));
            && t.usedBytes == Times(c, LiveCounts(h.pages)[c]) && t.freeBytes == Times(c, FreeCounts(h.pages)[c])
  {
    ListValid(h, c);
    ListValid(h, FullList(c));
    AllClasses(h);
    var s := h.lists[c] + h.lists[FullList(c)];
    JoinValid(h.pages, h.lists[c], h.lists[FullList(c)]);
    TotalAppend(h.pages, h.lists[c], h.lists[FullList(c)]);
    assert forall p: nat :: p in s <==> p in h.pages && h.pages[p].cacheIdx == c;
    ClassBytes(h.pages, s, SIZES[c]);
    CountsLive(h.pages, s);
    SlotsOfClass(h.pages, s, c);
    TimesSize(c, |LiveIn(h.pages, c)|);
    TimesSize(c, |FreeIn(h.pages, c)|);
  }

  lemma SlotsOfClass(pages: Pages, s: seq<nat>, c: nat)
    requires AllValid(pages, s) && forall p: nat :: p in s <==> p in pages && pages[p].cacheIdx == c
    ensures Live(pages, s) == LiveIn(pages, c) && Free(pages, s) == FreeIn(pages, c)
  {
    LiveOnly(pages, s);
    forall o: Object
      ensures o in Live(pages, s) <==> o in LiveIn(pages, c)
      ensures o in Free(pages, s) <==> o in FreeIn(pages, c)
    {
      InClass(pages, c, o);
    }
  }

  // The two lists of a class, after those of the smaller classes.
  lemma ClassAdded(h: Heap, all: seq<nat>, c: nat)
    requires h.Valid() && c < NUM_CACHES && AllValid(h.pages, all)
    requires forall p: nat :: p in all <==> p in h.pages && h.pages[p].cacheIdx < c
    ensures var all' := all + h.lists[c] + h.lists[FullList(c)];
            && AllValid(h.pages, all') && AllValid(h.pages, all + h.lists[c])
            && forall p: nat :: p in all' <==> p in h.pages && h.pages[p].cacheIdx < c + 1
  {
    ListValid(h, c);
    ListValid(h, FullList(c));
    AllClasses(h);
    JoinValid(h.pages, all, h.lists[c]);
    JoinValid(h.pages, all + h.lists[c], h.lists[FullList(c)]);
  }

  lemma JoinValid(pages: Pages, a: seq<nat>, b: seq<nat>)
    requires AllValid(pages, a) && AllValid(pages, b) && forall p :: !(p in a && p in b)
    ensures AllValid(pages, a + b)
  {
    forall i, j | 0 <= i < j < |a + b| ensures (a + b)[i] != (a + b)[j] {
      if i < |a| <= j {
        assert a[i] in a && b[j - |a|] in b;
      }
    }
  }

  // Each slab once.
  ghost predicate AllSlabs(pages: Pages, all: seq<nat>) {
    AllValid(pages, all) && forall p: nat :: p in all <==> p in pages
  }

  // Every live object of the heap, and every free slot.
  ghost function AllLive(pages: Pages): set<Object> {
    set p <- pages, i <- LiveSlots(pages[p]) :: Object(p, i)
  }

  ghost function AllFree(pages: Pages): set<Object> {
    set p <- pages, i <- pages[p].FreeSlots() :: Object(p, i)
  }

  lemma LiveEverywhere(pages: Pages, all: seq<nat>)
    requires AllSlabs(pages, all)
    ensures Live(pages, all) == AllLive(pages) && Free(pages, all) == AllFree(pages)
    ensures forall o: Object :: o in AllLive(pages) <==> IsLive(pages, o)
  {
    LiveOnly(pages, all);
    forall o: Object ensures o in AllLive(pages) <==> IsLive(pages, o) {
      assert o.page in pages ==> (o.slot in LiveSlots(pages[o.page]) <==> IsLive(pages, o));
    }
  }

  // ---- the sums against the heap size ----

  lemma SlabBytes(s: Slab)
    requires s.Valid()
    ensures s.freeCount <= s.capacity && OfSlab(s).usedBytes + OfSlab(s).freeBytes + HEADER_SIZE <= PAGE_SIZE
  {
    SlotCount(s);
    CapacityFits(s.cacheIdx);
    assert (s.capacity - s.freeCount) * s.objSize + s.freeCount * s.objSize == s.capacity * s.objSize;
  }

  lemma {:induction false} BytesFit(pages: Pages, ps: seq<nat>)
    requires AllValid(pages, ps)
    ensures Total(pages, ps).usedBytes + Total(pages, ps).freeBytes + HEADER_SIZE * |ps| <= PAGE_SIZE * |ps|
    decreases |ps|
  {
    if ps != [] {
      var n := |ps| - 1;
      BytesFit(pages, ps[..n]);
      SlabBytes(pages[ps[n]]);
    }
  }

  // There are no more pages in a range than it has room for.
  lemma {:induction false} PagesFit(S: set<nat>, start: nat, brk: nat)
    requires start % PAGE_SIZE == 0 && brk % PAGE_SIZE == 0 && start <= brk
    requires forall p <- S :: p % PAGE_SIZE == 0 && start <= p < brk
    ensures PAGE_SIZE * |S| <= brk - start
    decreases brk
  {
    if p: nat :| p in S {
      LastPage(start, brk, p);
      var S' := S - {brk - PAGE_SIZE};
      forall q | q in S' ensures q < brk - PAGE_SIZE {
        LastPage(start, brk, q);
      }
      PagesFit(S', start, brk - PAGE_SIZE);
      Subset(S, S' + {brk - PAGE_SIZE});
    }
  }

  lemma LastPage(start: nat, brk: nat, p: nat)
    requires start % PAGE_SIZE == 0 && brk % PAGE_SIZE == 0 && p % PAGE_SIZE == 0 && start <= p < brk
    ensures start <= brk - PAGE_SIZE && p <= brk - PAGE_SIZE && (brk - PAGE_SIZE) % PAGE_SIZE == 0
  {
  }

  lemma {:induction false} CountDistinct(ps: seq<nat>)
    requires forall i, j | 0 <= i < j < |ps| :: ps[i] != ps[j]
    ensures |Elems(ps)| == |ps|
    decreases |ps|
  {
    if ps == [] {
      assert Elems(ps) == {};
    } else {
      var n := |ps| - 1;
      CountDistinct(ps[..n]);
      assert ps == ps[..n] + [ps[n]];
      assert Elems(ps) == Elems(ps[..n]) + {ps[n]};
    }
  }

  // Used bytes, free bytes and slab headers fit into the pages used so far.
  lemma SumsFit(pages: Pages, all: seq<nat>, start: nat, brk: nat)
    requires PagesOk(pages, start, brk) && AllSlabs(pages, all)
    ensures Total(pages, all).usedBytes + Total(pages, all).freeBytes + HEADER_SIZE * |pages| <= brk - start
  {
    BytesFit(pages, all);
    CountDistinct(all);
    assert Elems(all) == pages.Keys;
    InHeap(pages, all, start, brk);
    PagesFit(Elems(all), start, brk);
  }

  lemma InHeap(pages: Pages, all: seq<nat>, start: nat, brk: nat)
    requires PagesOk(pages, start, brk) && AllSlabs(pages, all)
    ensures forall p <- Elems(all) :: p % PAGE_SIZE == 0 && start <= p < brk
  {
    forall p | p in all ensures p % PAGE_SIZE == 0 && start <= p < brk {
      SlabLists.Below(pages, p, start, brk);
    }
  }

  // The heap size is reported from the start of the heap's window.
  method HeapSize(h: Heap) returns (size: nat)
    ensures h.start == KHEAP_START && h.start <= h.brk ==> h.start + size == h.brk
    ensures h.brk <= KHEAP_START ==> size == 0
  {
    size := if h.brk > KHEAP_START then h.brk - KHEAP_START else 0;
  }

  // The slabs of the classes below c have been added up, each once.
  ghost predicate SummedTo(pages: Pages, all: seq<nat>, out: Stats, c: nat) {
    && c <= NUM_CACHES && AllValid(pages, all) && out == Total(pages, all)
    && out.usedBytes == Weight(LiveCounts(pages), c) && out.freeBytes == Weight(FreeCounts(pages), c)
    && forall p: nat :: p in all <==> p in pages && pages[p].cacheIdx < c
  }

  lemma NoneSummed(pages: Pages)
    ensures SummedTo(pages, [], Stats(0, 0, 0, 0), 0)
  {
  }

  // The two lists of class c are added up.
  method AddClass(h: Heap, c: nat, out: Stats, ghost all: seq<nat>) returns (sum: Stats, ghost more: seq<nat>)
    requires h.Valid() && c < NUM_CACHES && SummedTo(h.pages, all, out, c)
    ensures SummedTo(h.pages, more, sum, c + 1)
  {
    ClassAdded(h, all, c);
    var part := WalkPartial(h, c);
    var full := WalkFull(h, FullList(c));
    TotalAppend(h.pages, all, h.lists[c]);
    TotalAppend(h.pages, all + h.lists[c], h.lists[FullList(c)]);
    ListsOfClass(h, c);
    PlusAssociates(out, part, full);
    sum := Plus(Plus(out, part), full);
    more := all + h.lists[c] + h.lists[FullList(c)];
  }

  // The counts are those of the live objects and of the free slots; each counts the size of its
  // class in bytes, and with a 40-byte header a slab they fit into the heap's size.
  method Statistics(h: Heap) returns (out: Stats, heapSize: nat)
    requires h.Valid()
    ensures h.start == KHEAP_START ==>
      h.start + heapSize == h.brk && out.usedBytes + out.freeBytes + 40 * |h.pages| <= heapSize
    ensures out.allocCount == |AllLive(h.pages)| && out.freeCount == |AllFree(h.pages)|
    ensures out.usedBytes == InBytes(LiveCounts(h.pages)) && out.freeBytes == InBytes(FreeCounts(h.pages))
  {
    heapSize := HeapSize(h);
    out := Stats(0, 0, 0, 0);
    ghost var all: seq<nat> := [];
    var c: nat := 0;
    NoneSummed(h.pages);
    while c < NUM_CACHES
      invariant c <= NUM_CACHES && SummedTo(h.pages, all, out, c)
    {
      out, all := AddClass(h, c, out, all);
      c := c + 1;
    }
    AllSummed(h, all, out);
  }

  lemma AllSummed(h: Heap, all: seq<nat>, out: Stats)
    requires h.Valid() && SummedTo(h.pages, all, out, NUM_CACHES)
    ensures out.usedBytes == InBytes(LiveCounts(h.pages)) && out.freeBytes == InBytes(FreeCounts(h.pages))
    ensures out.allocCount == |AllLive(h.pages)| && out.freeCount == |AllFree(h.pages)|
    ensures out.usedBytes + out.freeBytes + HEADER_SIZE * |h.pages| <= h.brk - h.start
  {
    AllClasses(h);
    CountsLive(h.pages, all);
    LiveEverywhere(h.pages, all);
    SumsFit(h.pages, all, h.start, h.brk);
    AllClassesWeighed(LiveCounts(h.pages));
    AllClassesWeighed(FreeCounts(h.pages));
  }

  lemma AllClasses(h: Heap)
    requires h.Valid()
    ensures forall p <- h.pages :: h.pages[p].cacheIdx < NUM_CACHES
  {
    forall p | p in h.pages ensures h.pages[p].cacheIdx < NUM_CACHES {
      SlabLists.Below(h.pages, p, h.start, h.brk);
    }
  }
}
