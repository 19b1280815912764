// The slots of a class over all its slabs: which are free, and how many requests a page serves.
module SlabSlots {
  import opened Prelude
  import opened SlabPage
  import opened SlabLists
  import opened SlabHeap

  ghost predicate IsFree(pages: Pages, o: Object) {
    o.page in pages && o.slot in pages[o.page].FreeSlots()
  }

  ghost function LiveSlots(s: Slab): set<nat> {
    set i: nat | i < s.capacity && i !in s.FreeSlots()
  }

  // The slots of class c in use, and the free ones.
  ghost function LiveIn(pages: Pages, c: nat): set<Object> {
    set p <- pages, i <- LiveSlots(pages[p]) | pages[p].cacheIdx == c :: Object(p, i)
  }

  ghost function FreeIn(pages: Pages, c: nat): set<Object> {
    set p <- pages, i <- pages[p].FreeSlots() | pages[p].cacheIdx == c :: Object(p, i)
  }

  lemma InClass(pages: Pages, c: nat, o: Object)
    ensures o in LiveIn(pages, c) <==> IsLive(pages, o) && pages[o.page].cacheIdx == c
    ensures o in FreeIn(pages, c) <==> IsFree(pages, o) && pages[o.page].cacheIdx == c
  {
    assert o.page in pages ==> (o.slot in LiveSlots(pages[o.page]) <==> IsLive(pages, o));
  }

  // Every slot of a slab is either live or free.
  lemma LiveOrFree(pages: Pages, start: nat, brk: nat, o: Object)
    requires PagesOk(pages, start, brk) && o.page in pages
    ensures pages[o.page].cacheIdx < NUM_CACHES
    ensures IsFree(pages, o) <==> o.slot < Room(pages[o.page].cacheIdx) && !IsLive(pages, o)
  {
    Below(pages, o.page, start, brk);
  }

  // How many slots a slab of the class has.
  function Room(c: nat): (n: nat)
    requires c < NUM_CACHES
    ensures 0 < n <= 126
  {
    CapacityFits(c);
    Capacity(SIZES[c])
  }

  // The slots of one slab from `low` on and below `high`.
  ghost function Span(p: nat, low: nat, high: nat): (s: set<Object>)
    ensures forall o: Object :: o in s <==> o.page == p && low <= o.slot < high
  {
    set i: nat | low <= i < high :: Object(p, i)
  }

  // A class has a partial slab exactly while one of its slots is free.
  lemma HeadShowsFree(h: Heap, c: nat)
    requires h.Valid() && c < NUM_CACHES
    ensures h.heads[c] == NULL <==> FreeIn(h.pages, c) == {}
  {
    HeadOf(h.pages, h.heads[..], h.lists, c);
    if h.heads[c] != NULL {
      var p := h.heads[c];
      Below(h.pages, p, h.start, h.brk);
      var i :| i in h.pages[p].FreeSlots();
      InClass(h.pages, c, Object(p, i));
    } else if o :| o in FreeIn(h.pages, c) {
      InClass(h.pages, c, o);
      Below(h.pages, o.page, h.start, h.brk);
      var j := FindOnList(h.pages, h.heads[..], h.lists, o.page);
    }
  }

  // ---- what an allocation does to the free slots of its class ----

  // One slot out of the old slabs.
  lemma FreeTaken(pages: Pages, pages': Pages, start: nat, brk: nat, o: Object, c: nat)
    requires PagesOk(pages, start, brk) && PagesOk(pages', start, brk) && SameSlabs(pages, pages')
    requires o.page in pages' && pages'[o.page].cacheIdx == c && !IsLive(pages, o)
    requires forall x: Object :: IsLive(pages', x) <==> IsLive(pages, x) || x == o
    ensures o in FreeIn(pages, c) && FreeIn(pages', c) == FreeIn(pages, c) - {o}
  {
    forall x: Object ensures x in FreeIn(pages', c) <==> x != o && x in FreeIn(pages, c) {
      InClass(pages, c, x);
      InClass(pages', c, x);
      if x.page in pages {
        LiveOrFree(pages, start, brk, x);
        LiveOrFree(pages', start, brk, x);
      }
    }
    LiveOrFree(pages', start, brk, o);
    LiveOrFree(pages, start, brk, o);
    InClass(pages, c, o);
  }

  // A page added for the class brings as many slots as it has room for.
  lemma FreeAdded(pages: Pages, pages': Pages, start: nat, brk: nat, brk': nat, o: Object, c: nat)
    requires PagesOk(pages, start, brk) && PagesOk(pages', start, brk') && OneSlabMore(pages, pages', brk, c)
    requires o.page == brk && forall x: Object :: IsLive(pages', x) <==> IsLive(pages, x) || x == o
    ensures c < NUM_CACHES && FreeIn(pages', c) == FreeIn(pages, c) + Span(brk, 0, Room(c)) - {o}
  {
    LiveOrFree(pages', start, brk', o);
    forall x: Object
      ensures x in FreeIn(pages', c) <==> x != o && (x in FreeIn(pages, c) || x in Span(brk, 0, Room(c)))
    {
      InClass(pages, c, x);
      InClass(pages', c, x);
      if x.page in pages {
        LiveOrFree(pages, start, brk, x);
      }
      if x.page in pages' {
        LiveOrFree(pages', start, brk', x);
      }
    }
  }

  // Object o, of class c and the lowest free one of its slab, has become live.
  ghost predicate ServedBy(pages: Pages, pages': Pages, o: Object, c: nat) {
    && SameSlabs(pages, pages') && o.page in pages' && pages'[o.page].cacheIdx == c
    && !IsLive(pages, o) && LowestFree(pages', o)
    && forall x: Object :: IsLive(pages', x) <==> IsLive(pages, x) || x == o
  }

  // While a slot of the class is free, a request is served from one, without a page.
  method ServeFree(h: Heap, size: nat, c: nat) returns (obj: nat, ghost o: Object)
    requires h.Valid() && size > 0 && c < NUM_CACHES && ClassOf(size, c) && FreeIn(h.pages, c) != {}
    modifies h, h.heads
    ensures h.Valid() && h.brk == old(h.brk) && h.committed == old(h.committed) && obj == ObjectAt(o.page, SIZES[c], o.slot)
    ensures ServedBy(old(h.pages), h.pages, o, c)
    ensures o in FreeIn(old(h.pages), c) && FreeIn(h.pages, c) == FreeIn(old(h.pages), c) - {o}
  {
    HeadShowsFree(h, c);
    ghost var pages := h.pages;
    ghost var d;
    obj, d, o := h.Alloc(size, false);
    ClassUnique(size, c, d);
    FreeTaken(pages, h.pages, h.start, h.brk, o, c);
  }

  // ---- what a new page serves ----

  // A page has been added for class c and its first k slots handed out, no others.
  ghost predicate Filled(before: Pages, pages: Pages, page: nat, c: nat, k: nat) {
    && c < NUM_CACHES && OneSlabMore(before, pages, page, c)
    && FreeIn(pages, c) == Span(page, k, Room(c))
    && forall x: Object :: IsLive(pages, x) <==> IsLive(before, x) || (x.page == page && x.slot < k)
  }

  lemma FilledNext(before: Pages, pages: Pages, pages': Pages, page: nat, c: nat, k: nat, start: nat, brk: nat, o: Object)
    requires Filled(before, pages, page, c, k) && PagesOk(pages, start, brk) && PagesOk(pages', start, brk)
    requires k < Room(c) && ServedBy(pages, pages', o, c)
    ensures o == Object(page, k) && Filled(before, pages', page, c, k + 1)
  {
    FreeTaken(pages, pages', start, brk, o, c);
    var next := Object(page, k);
    assert next in FreeIn(pages, c);
    InClass(pages, c, next);
    LiveOrFree(pages, start, brk, next);
    assert o.page == page && k <= o.slot && !IsLive(pages, next);
    assert k < o.slot ==> IsLive(pages', next);
  }

  lemma FilledFirst(before: Pages, pages: Pages, page: nat, c: nat, start: nat, brk: nat, o: Object)
    requires PagesOk(before, start, page) && PagesOk(pages, start, brk) && OneSlabMore(before, pages, page, c)
    requires FreeIn(before, c) == {} && o.page == page && LowestFree(pages, o)
    requires forall x: Object :: IsLive(pages, x) <==> IsLive(before, x) || x == o
    ensures o == Object(page, 0) && Filled(before, pages, page, c, 1)
  {
    FreeAdded(before, pages, start, page, brk, o, c);
    var first := Object(page, 0);
    assert 0 < o.slot ==> IsLive(pages, first);
    assert Span(page, 0, Room(c)) - {first} == Span(page, 1, Room(c));
  }

  lemma PartlyFilled(before: Pages, pages: Pages, page: nat, c: nat, k: nat)
    requires Filled(before, pages, page, c, k)
    ensures k < Room(c) ==> FreeIn(pages, c) != {}
    ensures k == Room(c) ==> FreeIn(pages, c) == {}
  {
    assert k < Room(c) ==> Object(page, k) in FreeIn(pages, c);
  }

  // Objects one after the other from the front of a page.
  ghost predicate InRow(objs: seq<nat>, page: nat, size: nat) {
    forall k | 0 <= k < |objs| :: objs[k] == ObjectAt(page, size, k)
  }

  lemma RowMore(objs: seq<nat>, obj: nat, page: nat, size: nat)
    requires InRow(objs, page, size) && obj == ObjectAt(page, size, |objs|)
    ensures InRow(objs + [obj], page, size)
  {
  }

  // The first slot of a page just added.
  method FirstOf(h: Heap, size: nat, c: nat, supplied: bool) returns (objs: seq<nat>)
    requires h.Valid() && size > 0 && c < NUM_CACHES && ClassOf(size, c) && FreeIn(h.pages, c) == {}
    requires h.brk < KHEAP_END && (h.brk < h.committed || supplied)
    modifies h, h.heads
    ensures h.Valid() && h.brk == old(h.brk) + PAGE_SIZE && |objs| == 1
    ensures InRow(objs, old(h.brk), SIZES[c]) && Filled(old(h.pages), h.pages, old(h.brk), c, 1)
  {
    HeadShowsFree(h, c);
    ghost var before, brk := h.pages, h.brk;
    var obj;
    ghost var d, o;
    obj, d, o := h.Alloc(size, supplied);
    ClassUnique(size, c, d);
    FilledFirst(before, h.pages, brk, c, h.start, h.brk, o);
    objs := [obj];
  }

  // One more of its slots, with no page to be had.
  method NextOf(h: Heap, size: nat, c: nat, objs: seq<nat>, ghost before: Pages, ghost page: nat)
    returns (more: seq<nat>)
    requires h.Valid() && size > 0 && c < NUM_CACHES && ClassOf(size, c) && |objs| < Room(c)
    requires InRow(objs, page, SIZES[c]) && Filled(before, h.pages, page, c, |objs|)
    modifies h, h.heads
    ensures h.Valid() && h.brk == old(h.brk) && |more| == |objs| + 1
    ensures InRow(more, page, SIZES[c]) && Filled(before, h.pages, page, c, |more|)
  {
    PartlyFilled(before, h.pages, page, c, |objs|);
    ghost var pages := h.pages;
    var obj;
    ghost var o;
    obj, o := ServeFree(h, size, c);
    FilledNext(before, pages, h.pages, page, c, |objs|, h.start, h.brk, o);
    RowMore(objs, obj, page, SIZES[c]);
    more := objs + [obj];
  }

  method Fill(h: Heap, size: nat, c: nat, supplied: bool) returns (objs: seq<nat>)
    requires h.Valid() && size > 0 && c < NUM_CACHES && ClassOf(size, c) && FreeIn(h.pages, c) == {}
    requires h.brk < KHEAP_END && (h.brk < h.committed || supplied)
    modifies h, h.heads
    ensures h.Valid() && h.brk == old(h.brk) + PAGE_SIZE && |objs| == Room(c)
    ensures InRow(objs, old(h.brk), SIZES[c]) && Filled(old(h.pages), h.pages, old(h.brk), c, |objs|)
  {
    ghost var before, page := h.pages, h.brk;
    var n := Room(c);
    objs := FirstOf(h, size, c, supplied);
    while |objs| < n
      invariant |objs| <= n && h.Valid() && h.brk == page + PAGE_SIZE
      invariant InRow(objs, page, SIZES[c]) && Filled(before, h.pages, page, c, |objs|)
      decreases n - |objs|
    {
      objs := NextOf(h, size, c, objs, before, page);
    }
  }

  // With no slot of class c free, the page added for it serves 126, 63, 31, 15, 7, 3 or 1
  // requests of the class, one object after the other, before another page is wanted.
  method FillPage(h: Heap, size: nat, c: nat, supplied: bool) returns (objs: seq<nat>)
    requires h.Valid() && size > 0 && c < 7 && ClassOf(size, c) && FreeIn(h.pages, c) == {}
    requires h.brk < KHEAP_END && (h.brk < h.committed || supplied)
    modifies h, h.heads
    ensures h.Valid() && h.brk == old(h.brk) + 4096 && FreeIn(h.pages, c) == {} && h.heads[c] == NULL
    ensures |objs| == [126, 63, 31, 15, 7, 3, 1][c]
    ensures forall k | 0 <= k < |objs| :: objs[k] == old(h.brk) + 40 + k * SIZES[c]
    ensures forall x: Object :: IsLive(h.pages, x) <==> IsLive(old(h.pages), x) || (x.page == old(h.brk) && x.slot < |objs|)
  {
    CapacityFits(c);
    objs := Fill(h, size, c, supplied);
    PartlyFilled(old(h.pages), h.pages, old(h.brk), c, |objs|);
    HeadShowsFree(h, c);
  }

  lemma ClassUnique(size: nat, c: nat, d: nat)
    requires ClassOf(size, c) && ClassOf(size, d)
    ensures c == d
  {
  }
}
