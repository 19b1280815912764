// The slab heap: size classes, each with its partial and full slabs.
module SlabHeap {
  import opened Prelude
  import opened SlabPage
  import opened SlabLists

  // The smallest class for a request; none above the largest size.
  ghost predicate ClassOf(size: nat, c: nat) {
    && c <= NUM_CACHES
    && (forall i | 0 <= i < c :: SIZES[i] < size)
    && (c < NUM_CACHES ==> size <= SIZES[c])
  }

  method FindCache(size: nat) returns (c: nat)
    ensures ClassOf(size, c)
  {
    c := 0;
    while c < NUM_CACHES
      invariant c <= NUM_CACHES && forall i | 0 <= i < c :: SIZES[i] < size
    {
      if size <= SIZES[c] {
        return;
      }
      c := c + 1;
    }
  }

  function FullList(c: nat): nat {
    NUM_CACHES + c
  }

  // Whether a page has been added, and if so past the committed part or inside it.
  ghost predicate Grown(added: bool, brk: nat, committed: nat, brk': nat, committed': nat) {
    && brk' == (if added then brk + PAGE_SIZE else brk)
    && committed' == (if added && brk >= committed then committed + PAGE_SIZE else committed)
  }

  // The same slabs, with one object less live.
  ghost predicate Returned(pages: Pages, pages': Pages, p: nat, slot: nat) {
    SameSlabs(pages, pages') && forall x: Object :: IsLive(pages', x) <==> IsLive(pages, x) && x != Object(p, slot)
  }

  lemma FullPlace(s: Slab)
    requires s.freeCount == 0
    ensures Place(s) == FullList(s.cacheIdx)
  {
  }

  // A full slab with a slot given back, after its list has been relinked.
  lemma SlotBack(pages: Pages, pages1: Pages, p: nat, slot: nat, s': Slab, start: nat, brk: nat)
    requires PagesOk(pages, start, brk) && Relinked(pages, pages1) && p in pages && pages1[p] == pages[p]
    requires pages[p].freeCount == 0 && slot < pages[p].capacity && slot / 32 < |pages[p].bitmap|
    requires s' == Given(pages[p], slot).(next := s'.next)
    ensures PagesOk(pages1[p := s'], start, brk) && Returned(pages, pages1[p := s'], p, slot)
    ensures pages[p].cacheIdx < NUM_CACHES && Place(s') == pages[p].cacheIdx
  {
    RelinkedKeeps(pages, pages1, start, brk);
    Below(pages, p, start, brk);
    GiveSlot(pages[p], slot);
    SameSlots(Given(pages[p], slot), s');
    SlotGiven(pages1, p, s', slot, start, brk);
  }

  // The slots below are in use.
  ghost predicate LowestFree(pages: Pages, o: Object) {
    forall x: Object | x.page == o.page && x.slot < o.slot :: IsLive(pages, x)
  }

  class Heap {
    var pages: Pages              // the slab headers, by page address
    const heads: array<nat>       // of the partial lists, then of the full lists
    const start: nat
    var brk: nat                  // next page to use
    var committed: nat            // pages below are mapped already
    ghost var lists: seq<seq<nat>>

    ghost predicate Valid()
      reads this, heads
    {
      heads.Length == NUM_LISTS && ListsOk(pages, heads[..], lists) && PagesOk(pages, start, brk)
    }

    constructor (base: nat, size: nat)
      requires 0 < base && base % PAGE_SIZE == 0
      ensures Valid() && fresh(heads) && pages == map[] && start == brk == base && committed == base + size
    {
      heads := new nat[NUM_LISTS](_ => NULL);
      start, brk, committed := base, base, base + size;
      pages := map[];
      lists := seq(NUM_LISTS, _ => []);
    }

    method SetHead(q: nat, p: nat)
      requires q < heads.Length
      modifies heads
      ensures heads[..] == old(heads[..])[q := p]
    {
      heads[q] := p;
    }

    // A slab on no list goes to the front of list q.
    method PushFront(p: nat, q: nat, s: Slab)
      requires heads.Length == NUM_LISTS && ListsBut(pages, heads[..], lists, p) && p != NULL
      requires q < NUM_LISTS && q == Place(s) && s.next == heads[q]
      modifies this`pages, this`lists, heads
      ensures heads.Length == NUM_LISTS && ListsOk(pages, heads[..], lists)
      ensures pages == old(pages)[p := s] && heads[q] == p
    {
      Push(pages, heads[..], lists, p, s, q);
      pages := pages[p := s];
      lists := lists[q := [p] + lists[q]];
      SetHead(q, p);
    }

    // A page for a new slab. Past the committed part one must be mapped, and `supplied`
    // says whether that works out.
    method GetPage(supplied: bool) returns (page: nat)
      requires Valid()
      modifies this`brk, this`committed
      ensures page == NULL <==> old(brk) >= KHEAP_END || (old(brk) >= old(committed) && !supplied)
      ensures page == NULL ==> Valid() && brk == old(brk) && committed == old(committed)
      ensures page != NULL ==>
        && page == old(brk) && brk == page + PAGE_SIZE
        && committed == if page >= old(committed) then old(committed) + PAGE_SIZE else old(committed)
    {
      if brk >= KHEAP_END {
        return NULL;
      }
      if brk >= committed {
        if !supplied {
          return NULL;
        }
        committed := committed + PAGE_SIZE;
      }
      page := brk;
      brk := brk + PAGE_SIZE;
    }

    // A new slab at the front of an empty partial list.
    method AddSlab(c: nat, supplied: bool) returns (ok: bool)
      requires Valid() && c < NUM_CACHES && heads[c] == NULL
      modifies this, heads
      ensures Valid() && (forall o: Object :: IsLive(pages, o) <==> IsLive(old(pages), o))
      ensures ok <==> old(brk) < KHEAP_END && (old(brk) < old(committed) || supplied)
      ensures ok ==> OneSlabMore(old(pages), pages, old(brk), c)
      ensures if ok then heads[c] == old(brk) != NULL && brk == old(brk) + PAGE_SIZE else pages == old(pages) && brk == old(brk) && heads[c] == NULL
      ensures committed == if ok && old(brk) >= old(committed) then old(committed) + PAGE_SIZE else old(committed)
    {
      ghost var b := brk;
      var page := GetPage(supplied);
      ok := page != NULL;
      if ok {
        var s := NewSlab(c);
        PageAdded(pages, page, s, start, b);
        FreshPage(pages, heads[..], lists, page);
        PushFront(page, c, s);
      }
    }

    // The slab leaves list q, where it is at position j, for the front of list r.
    method MoveHead(p: nat, q: nat, r: nat, s: Slab)
      requires Valid() && q < NUM_LISTS && r < NUM_LISTS && q != r && heads[q] == p && p in pages
      requires s.Valid() && Place(s) == r && s.cacheIdx == pages[p].cacheIdx
      modifies this`pages, this`lists, heads
      ensures heads.Length == NUM_LISTS && ListsOk(pages, heads[..], lists)
      ensures pages == old(pages)[p := s.(next := old(heads[r]))]
    {
      HeadOf(pages, heads[..], lists, q);
      Unlink(pages, heads[..], lists, q, 0);
      ghost var hs, ls := heads[..][q := pages[p].next], lists[q := Without(lists[q], 0)];
      lists := ls;
      SetHead(q, pages[p].next);
      PushFront(p, r, s.(next := heads[r]));
    }

    // Takes the first free slot of the first partial slab; a slab that fills up changes lists.
    method TakeSlotOf(c: nat) returns (obj: nat, ghost o: Object)
      requires Valid() && c < NUM_CACHES && heads[c] != NULL
      modifies this`pages, this`lists, heads
      ensures Valid() && !IsLive(old(pages), o) && obj == ObjectAt(o.page, SIZES[c], o.slot) != NULL
      ensures SameSlabs(old(pages), pages)
      ensures o.page == old(heads[c]) && o.page in pages && pages[o.page].cacheIdx == c && o.page in old(pages)
      ensures LowestFree(old(pages), o)
      ensures forall x: Object :: IsLive(pages, x) <==> IsLive(old(pages), x) || x == o
    {
      HeadOf(pages, heads[..], lists, c);
      var page := heads[c];
      Below(pages, page, start, brk);
      var s := pages[page];
      var found, slot := FindFirstSet(s);
      TakeSlot(s, slot);
      o := Object(page, slot);
      obj := ObjectAt(page, s.objSize, slot);
      var s1 := Taken(s, slot);
      if s1.freeCount == 0 {
        SameSlots(s1, s1.(next := heads[FullList(c)]));
        SlotTaken(pages, page, s1.(next := heads[FullList(c)]), slot, start, brk);
        MoveHead(page, c, FullList(c), s1);
      } else {
        Update(pages, heads[..], lists, page, s1);
        SlotTaken(pages, page, s1, slot, start, brk);
        pages := pages[page := s1];
      }
    }

    // A partial slab for the class, a new one if there is none.
    method EnsurePartial(c: nat, supplied: bool) returns (ok: bool)
      requires Valid() && c < NUM_CACHES
      modifies this, heads
      ensures Valid() && (forall x: Object :: IsLive(pages, x) <==> IsLive(old(pages), x))
      ensures ok <==> heads[c] != NULL
      ensures !ok <==> old(heads[c]) == NULL && (old(brk) >= KHEAP_END || (old(brk) >= old(committed) && !supplied))
      ensures !ok || old(heads[c]) != NULL ==> pages == old(pages)
      ensures ok && old(heads[c]) == NULL ==> heads[c] == old(brk) && OneSlabMore(old(pages), pages, old(brk), c)
      ensures ok && old(heads[c]) != NULL ==> heads[c] == old(heads[c])
      ensures Grown(ok && old(heads[c]) == NULL, old(brk), old(committed), brk, committed)
    {
      ok := true;
      if heads[c] == NULL {
        ok := AddSlab(c, supplied);
      }
    }

    // Fails for a request of 0 or above the largest class, and when its class has no partial
    // slab and no page is to be had; otherwise one object not live before becomes live.
    method Alloc(size: nat, supplied: bool) returns (obj: nat, ghost c: nat, ghost o: Object)
      requires Valid()
      modifies this, heads
      ensures Valid() && ClassOf(size, c)
      ensures obj == NULL <==>
        size == 0 || c == NUM_CACHES || (old(heads[c]) == NULL && (old(brk) >= KHEAP_END || (old(brk) >= old(committed) && !supplied)))
      ensures obj == NULL ==> pages == old(pages)
      ensures obj != NULL ==>
        if old(heads[c]) == NULL then OneSlabMore(old(pages), pages, old(brk), c) else SameSlabs(old(pages), pages)
      ensures Grown(obj != NULL && old(heads[c]) == NULL, old(brk), old(committed), brk, committed)
      ensures obj != NULL ==>
        && (forall x: Object :: IsLive(pages, x) <==> IsLive(old(pages), x) || x == o)
        && !IsLive(old(pages), o) && o.page in pages && pages[o.page].cacheIdx == c
        && o.page == (if old(heads[c]) == NULL then old(brk) else old(heads[c])) && LowestFree(pages, o)
        && obj == ObjectAt(o.page, SIZES[c], o.slot)
    {
      obj, o := NULL, Object(0, 0);
      var ci := FindCache(size);
      c := ci;
      if size == 0 || ci == NUM_CACHES {
        return;
      }
      var ok := EnsurePartial(ci, supplied);
      if ok {
        obj, o := TakeSlotOf(ci);
      }
    }

    // Slab p has been taken off its list; only links differ from the heap before.
    ghost predicate Detached(before: Pages, p: nat)
      reads this, heads
    {
      && heads.Length == NUM_LISTS && ListsBut(pages, heads[..], lists, p)
      && PagesOk(before, start, brk) && Relinked(before, pages) && p in pages && pages[p] == before[p]
    }

    // Walks list q to slab p and takes it out.
    method RemoveFrom(q: nat, p: nat)
      requires Valid() && p in pages && q == Place(pages[p])
      modifies this`pages, this`lists, heads
      ensures Detached(old(pages), p)
    {
      ghost var j := FindOnList(pages, heads[..], lists, p);
      ghost var s := lists[q];
      HeadOf(pages, heads[..], lists, q);
      assert Chain(pages, heads[..][q], s);
      var prev, cur := NULL, heads[q];
      ghost var k: nat := 0;
      while cur != p
        invariant k <= j && cur == s[k] && cur in pages
        invariant prev == (if k > 0 then s[k - 1] else NULL)
        decreases j - k
      {
        assert ChainAt(pages, s, k);
        assert k < j && ChainAt(pages, s, k + 1);
        prev, cur, k := cur, pages[cur].next, k + 1;
      }
      Unlink(pages, heads[..], lists, q, j);
      UnlinkRelinks(pages, s, j);
      lists := lists[q := Without(s, j)];
      if prev == NULL {
        SetHead(q, pages[p].next);
      } else {
        pages := pages[prev := pages[prev].(next := pages[p].next)];
      }
    }

    // A slab that was full gains a free slot and moves to its partial list.
    method BackToPartial(p: nat, slot: nat)
      requires Valid() && p in pages && pages[p].freeCount == 0 && slot < pages[p].capacity
      modifies this`pages, this`lists, heads
      ensures Valid() && Returned(old(pages), pages, p, slot)
    {
      ghost var before := pages;
      FullPlace(pages[p]);
      RemoveFrom(FullList(pages[p].cacheIdx), p);
      GiveBack(p, slot, before);
    }

    // The slab, on no list now, gets its slot back and goes to the front of its partial list.
    method GiveBack(p: nat, slot: nat, ghost before: Pages)
      requires Detached(before, p) && pages[p].freeCount == 0 && slot < pages[p].capacity
      modifies this`pages, this`lists, heads
      ensures Valid() && Returned(before, pages, p, slot)
    {
      Below(before, p, start, brk);
      var s := pages[p];
      var s' := Given(s, slot).(next := heads[s.cacheIdx]);
      SlotBack(before, pages, p, slot, s', start, brk);
      PushFront(p, s.cacheIdx, s');
    }

    ghost predicate LiveAt(o: Object, ptr: nat)
      reads this
    {
      IsLive(pages, o) && pages[o.page].objSize > 0 && ptr == ObjectAt(o.page, pages[o.page].objSize, o.slot)
    }

    // From the pointer alone, the slab and the slot the object was allocated from.
    method Locate(ptr: nat, ghost o: Object) returns (page: nat, slot: nat)
      requires Valid() && LiveAt(o, ptr)
      ensures page == o.page && slot == o.slot && page in pages && pages[page].Valid()
      ensures slot < pages[page].capacity && slot !in pages[page].FreeSlots()
    {
      Below(pages, o.page, start, brk);
      ObjectPlace(o.page, pages[o.page].cacheIdx, o.slot);
      page := ptr - ptr % PAGE_SIZE;
      slot := (ptr - page - HEADER_SIZE) / pages[page].objSize;
    }

    // Frees a live object; NULL is ignored.
    method Free(ptr: nat, ghost o: Object)
      requires Valid() && (ptr != NULL ==> LiveAt(o, ptr))
      modifies this`pages, this`lists, heads
      ensures Valid() && SameSlabs(old(pages), pages)
      ensures ptr == NULL ==> pages == old(pages)
      ensures ptr != NULL ==> forall x: Object :: IsLive(pages, x) <==> IsLive(old(pages), x) && x != o
    {
      if ptr == NULL {
        return;
      }
      var page, slot := Locate(ptr, o);
      var s := pages[page];
      if s.freeCount == 0 {
        BackToPartial(page, slot);
      } else {
        GiveSlot(s, slot);
        Update(pages, heads[..], lists, page, Given(s, slot));
        SlotGiven(pages, page, Given(s, slot), slot, start, brk);
        pages := pages[page := Given(s, slot)];
      }
    }
  }

  // Live objects do not overlap, and lie inside their page past the header.
  lemma LiveObjectsApart(pages: Pages, start: nat, brk: nat, x: Object, y: Object)
    requires PagesOk(pages, start, brk) && IsLive(pages, x) && IsLive(pages, y) && x != y
    ensures var sx, sy := pages[x.page].objSize, pages[y.page].objSize;
            var ax, ay := ObjectAt(x.page, sx, x.slot), ObjectAt(y.page, sy, y.slot);
            && x.page + HEADER_SIZE <= ax && ax + sx <= x.page + PAGE_SIZE <= brk
            && (ax + sx <= ay || ay + sy <= ax)
  {
    Below(pages, x.page, start, brk);
    Below(pages, y.page, start, brk);
    ObjectPlace(x.page, pages[x.page].cacheIdx, x.slot);
    ObjectPlace(y.page, pages[y.page].cacheIdx, y.slot);
    if x.page == y.page {
      if x.slot < y.slot {
        ObjectsApart(x.page, pages[x.page].objSize, x.slot, y.slot);
      } else {
        ObjectsApart(x.page, pages[x.page].objSize, y.slot, x.slot);
      }
    } else {
      PagesApart(x.page, y.page);
    }
    PagesApart(x.page, brk);
  }

  lemma PagesApart(p: nat, q: nat)
    requires p % PAGE_SIZE == 0 && q % PAGE_SIZE == 0
    ensures p < q ==> p + PAGE_SIZE <= q
    ensures q < p ==> q + PAGE_SIZE <= p
  {
  }

  // A slab is on its partial list while it has a free slot and on its full list otherwise,
  // exactly once, and on no other list.
  lemma OnExactlyOneList(pages: Pages, heads: seq<nat>, lists: seq<seq<nat>>, p: nat, q: nat)
    requires ListsOk(pages, heads, lists) && p in pages && q < NUM_LISTS
    ensures (exists j: nat :: j < |lists[q]| && lists[q][j] == p) <==>
            q == (if pages[p].freeCount > 0 then pages[p].cacheIdx else FullList(pages[p].cacheIdx))
    ensures forall i, j | 0 <= i < j < |lists[q]| :: lists[q][i] != lists[q][j]
  {
    var j := FindOnList(pages, heads, lists, p);
    Member(lists, q, p);
    assert Chain(pages, heads[q], lists[q]);
  }
}
