// The slab heap on top of the page tables: a new slab's page comes from the page allocator
// and is mapped at the end of the heap's window.
module SlabSupply {
  import opened Prelude
  import opened SlabPage
  import opened SlabLists
  import opened SlabHeap
  import SlabSlots
  import opened Vmm
  import PageTables
  import opened VmmPages
  import VmmArea

  // The first `n` pages of the heap's window are mapped.
  ghost predicate Mapped(m: View, n: nat) {
    forall u | HEAP_FIRST <= u < n && u < |m| :: m[u].Some?
  }

  // The heap lies in its window, and the part it has committed is mapped.
  ghost predicate Backed(h: Heap, s: AddressSpace, b: nat)
    reads h, h.heads, s, s.pd
  {
    && h.heads != s.pd && h.Valid() && h.start == KHEAP_START && h.brk <= h.committed && h.committed % PAGE_SIZE == 0
    && VmmArea.Running(s, b, h.committed / PAGE_SIZE) && Mapped(s.View(), h.committed / PAGE_SIZE)
  }

  // No free slot is left in the class and no committed page either.
  ghost predicate NeedsPage(h: Heap, size: nat, c: nat)
    reads h, h.heads
    requires h.heads.Length == NUM_LISTS
  {
    size != 0 && c < NUM_CACHES && h.heads[c] == NULL && h.brk < KHEAP_END && h.brk >= h.committed
  }

  method Wanted(h: Heap, size: nat) returns (need: bool, ghost c: nat)
    requires h.Valid()
    ensures ClassOf(size, c) && (need <==> NeedsPage(h, size, c))
  {
    var ci := FindCache(size);
    c := ci;
    need := size != 0 && ci < NUM_CACHES && h.heads[ci] == NULL && h.brk < KHEAP_END && h.brk >= h.committed;
  }

  // With a page supplied when one is wanted: fails exactly for a request of 0, for one above
  // the largest class, and when the class has no free slot and either the window is used up
  // or frames are short for a page and a table it may need.
  method Alloc(h: Heap, s: AddressSpace, ghost b: nat, size: nat) returns (obj: nat, ghost c: nat, ghost o: Object)
    requires Backed(h, s, b)
    modifies h, h.heads, s`mem, s`free, s.pd
    ensures Backed(h, s, b) && ClassOf(size, c)
    ensures obj == NULL <==>
      || size == 0 || c == NUM_CACHES
      || (old(h.heads[c]) == NULL &&
            (old(h.brk) >= KHEAP_END ||
             (old(h.brk) >= old(h.committed) && |old(s.free)| < Cost(old(s.pd[..]), old(h.committed) / PAGE_SIZE))))
    ensures obj != NULL ==>
      && (forall x: Object :: IsLive(h.pages, x) <==> IsLive(old(h.pages), x) || x == o)
      && !IsLive(old(h.pages), o) && o.page in h.pages && obj == ObjectAt(o.page, SIZES[c], o.slot)
    ensures obj == NULL ==> h.pages == old(h.pages)
    ensures Grown(obj != NULL && old(h.heads[c]) == NULL, old(h.brk), old(h.committed), h.brk, h.committed)
  {
    PageStep(h.brk, h.committed);
    var supplied;
    ghost var d;
    supplied, d := Prepare(h, s, b, size);
    obj, c, o := h.Alloc(size, supplied);
    SlabSlots.ClassUnique(size, c, d);
  }

  // Supplies a page if one is wanted.
  method Prepare(h: Heap, s: AddressSpace, ghost b: nat, size: nat) returns (supplied: bool, ghost c: nat)
    requires Backed(h, s, b)
    modifies s`mem, s`free, s.pd
    ensures ClassOf(size, c) && h.Valid()
    ensures supplied <==> NeedsPage(h, size, c) && |old(s.free)| >= Cost(old(s.pd[..]), h.committed / PAGE_SIZE)
    ensures var n := if supplied then h.committed / PAGE_SIZE + 1 else h.committed / PAGE_SIZE;
            VmmArea.Running(s, b, n) && Mapped(s.View(), n)
  {
    PageStep(h.brk, h.committed);
    supplied, c := Wanted(h, size);
    if supplied {
      supplied := Supply(s, b, h.committed);
    }
  }

  // Maps the page at `top`, the end of the committed part.
  method Supply(s: AddressSpace, ghost b: nat, top: nat) returns (ok: bool)
    requires VmmArea.Running(s, b, top / PAGE_SIZE) && top % PAGE_SIZE == 0 && top < KHEAP_END
    requires Mapped(s.View(), top / PAGE_SIZE)
    modifies s`mem, s`free, s.pd
    ensures ok <==> |old(s.free)| >= Cost(old(s.pd[..]), top / PAGE_SIZE)
    ensures var n := if ok then top / PAGE_SIZE + 1 else top / PAGE_SIZE;
            VmmArea.Running(s, b, n) && Mapped(s.View(), n)
  {
    PageStep(top, top);
    ok := VmmArea.GrowPage(s, b, top / PAGE_SIZE);
  }

  lemma PageStep(brk: nat, committed: nat)
    requires brk % PAGE_SIZE == 0 && committed % PAGE_SIZE == 0
    ensures (committed + PAGE_SIZE) % PAGE_SIZE == 0 && (committed + PAGE_SIZE) / PAGE_SIZE == committed / PAGE_SIZE + 1
    ensures brk < committed ==> brk + PAGE_SIZE <= committed
    ensures committed < KHEAP_END <==> committed / PAGE_SIZE < HEAP_LAST
  {
  }

  // So every live object lies on a mapped page.
  lemma LiveMapped(h: Heap, s: AddressSpace, b: nat, o: Object)
    requires Backed(h, s, b) && IsLive(h.pages, o)
    ensures o.page % PAGE_SIZE == 0 && o.page / PAGE_SIZE < PageTables.PAGES && s.View()[o.page / PAGE_SIZE].Some?
  {
    Below(h.pages, o.page, h.start, h.brk);
  }
}
