// Building the bitmap allocator from the firmware's memory map, and what is free afterwards.
module BitmapInit {
  import opened Prelude
  import opened MemoryMap
  import opened BitmapRegion
  import opened BitmapLayout
  import opened BitmapPmm
  import opened BitmapBuild

  // A page of some region that does not hold that region's bitmap.
  ghost predicate Tail(rs: seq<Region>, a: nat) {
    exists k | 0 <= k < |rs| :: Holds(rs[k], a) && rs[k].bitmapPages <= Index(rs[k], a)
  }

  // ---- totals ----

  function SumFree(rs: seq<Region>): nat {
    if rs == [] then 0 else SumFree(rs[..|rs| - 1]) + rs[|rs| - 1].free
  }

  function SumPages(rs: seq<Region>): nat {
    if rs == [] then 0 else SumPages(rs[..|rs| - 1]) + rs[|rs| - 1].pages
  }

  lemma {:induction false} SamePages(rs: seq<Region>, rs': seq<Region>)
    requires SameExtents(rs, rs')
    ensures SumPages(rs) == SumPages(rs')
  {
    if rs != [] {
      SamePages(rs[..|rs| - 1], rs'[..|rs'| - 1]);
    }
  }

  ghost function FreeAddresses(r: Region): set<nat> {
    set i <- r.FreeSet() :: PageAt(r, i)
  }

  lemma {:induction false} AddressCount(r: Region, S: set<nat>)
    ensures |set i <- S :: PageAt(r, i)| == |S|
  {
    if i: nat :| i in S {
      AddressCount(r, S - {i});
      var rest := set j <- S - {i} :: PageAt(r, j);
      assert PageAt(r, i) !in rest;
      assert (set j <- S :: PageAt(r, j)) == rest + {PageAt(r, i)};
    } else {
      assert S == {};
    }
  }

  // The addresses held by the last region are separate from those of the others.
  lemma {:induction false} AddressSet(rs: seq<Region>) returns (F: set<nat>)
    requires RegionsOk(rs)
    ensures Addresses(rs, F) && |F| == SumFree(rs)
  {
    F := {};
    if rs != [] {
      var last, front := rs[|rs| - 1], rs[..|rs| - 1];
      var F0 := AddressSet(front);
      var G := FreeAddresses(last);
      AddressCount(last, last.FreeSet());
      F := F0 + G;
      forall a: nat ensures a in F <==> FreeAt(rs, a) {
        LastRegion(rs, a);
      }
      forall a | a in G ensures a !in F0 {
        LastRegion(rs, a);
        ApartFromLast(rs, a);
      }
    }
  }

  lemma LastRegion(rs: seq<Region>, a: nat)
    requires RegionsOk(rs) && rs != []
    ensures FreeAt(rs, a) <==> FreeAt(rs[..|rs| - 1], a) || a in FreeAddresses(rs[|rs| - 1])
  {
    AddressOf(rs[|rs| - 1], a);
    LastFree(rs, a);
  }

  lemma AddressOf(r: Region, a: nat)
    requires r.Sized()
    ensures a in FreeAddresses(r) <==> FreeIn(r, a)
  {
    if a in FreeAddresses(r) {
      var i :| i in r.FreeSet() && a == PageAt(r, i);
      PageAddress(r, i);
    }
    if FreeIn(r, a) {
      AddressOfIndex(r, a);
    }
  }

  lemma ApartFromLast(rs: seq<Region>, a: nat)
    requires RegionsOk(rs) && rs != [] && a in FreeAddresses(rs[|rs| - 1])
    ensures !FreeAt(rs[..|rs| - 1], a)
  {
    var last, front := rs[|rs| - 1], rs[..|rs| - 1];
    var i :| i in last.FreeSet() && a == PageAt(last, i);
    PageAddress(last, i);
    forall k | 0 <= k < |front| ensures !Holds(front[k], a) {
      assert front[k] == rs[k];
    }
  }

  // The totals are sums over the regions; the free total is the number of free pages.
  method RecomputeTotals(p: Pmm)
    requires |p.regions| <= MAX_REGIONS && RegionsOk(p.regions)
    modifies p`totalPages, p`totalFree, p`freePages
    ensures p.Valid() && p.totalPages == SumPages(p.regions)
  {
    p.totalPages, p.totalFree := 0, 0;
    var i: nat := 0;
    while i < |p.regions|
      invariant i <= |p.regions| && p.totalFree == SumFree(p.regions[..i])
      invariant p.totalPages == SumPages(p.regions[..i]) && (i > 0 ==> p.totalPages > 0)
      modifies p`totalPages, p`totalFree
    {
      assert p.regions[i] == p.regions[i];
      p.totalPages := p.totalPages + p.regions[i].pages;
      p.totalFree := p.totalFree + p.regions[i].free;
      i := i + 1;
      assert p.regions[..i][..i - 1] == p.regions[..i - 1];
    }
    assert p.regions[..|p.regions|] == p.regions;
    p.freePages := AddressSet(p.regions);
  }

  // ---- reservations ----

  method MarkUsedByAddr(p: Pmm, addr: nat)
    requires p.Valid()
    modifies p`totalFree, p`freePages, p`regions
    ensures p.Valid() && p.freePages == old(p.freePages) - {AlignDown(addr)}
    ensures SameExtents(old(p.regions), p.regions)
  {
    var a := AlignDown(addr);
    NotFree(p.regions, p.freePages, a);
    var ri := p.FindRegion(a);
    if ri < |p.regions| {
      MarkIn(p, ri, a);
    }
  }

  method MarkIn(p: Pmm, ri: nat, a: nat)
    requires p.Valid() && ri < |p.regions| && Holds(p.regions[ri], a)
    modifies p`totalFree, p`freePages, p`regions
    ensures p.Valid() && p.freePages == old(p.freePages) - {a}
    ensures SameExtents(old(p.regions), p.regions)
  {
    Locate(p.regions, p.freePages, p.totalFree, ri, a);
    if !p.regions[ri].Used(Index(p.regions[ri], a)) {
      var page := p.TakeFrom(ri, Index(p.regions[ri], a));
    }
  }

  lemma NotFree(rs: seq<Region>, F: set<nat>, a: nat)
    requires Addresses(rs, F)
    ensures a in F ==> ManagedAt(rs, a)
    ensures SameExtents(rs, rs)
  {
    if a in F {
      var k :| 0 <= k < |rs| && FreeIn(rs[k], a);
    }
  }

  lemma SameExtentsTrans(a: seq<Region>, b: seq<Region>, c: seq<Region>)
    requires SameExtents(a, b) && SameExtents(b, c)
    ensures SameExtents(a, c)
  {
  }

  // Reserves exactly the pages touching the range, unless its end rounds up past the last
  // page: then nothing is reserved, which leaves out pages exactly when a free one touches it.
  method MarkUsedRange(p: Pmm, start: nat, end: nat)
    requires p.Valid() && start < WORD && end < WORD
    modifies p`totalFree, p`freePages, p`regions
    ensures p.Valid() && SameExtents(old(p.regions), p.regions)
    ensures end <= 0xFFFF_F000 ==>
      forall a: nat :: a in p.freePages <==> a in old(p.freePages) && !Touches(a, start, end)
    ensures end > 0xFFFF_F000 ==> p.freePages == old(p.freePages)
    ensures (forall a <- p.freePages :: !Touches(a, start, end)) <==>
      end <= 0xFFFF_F000 || forall a <- old(p.freePages) :: !Touches(a, start, end)
  {
    ghost var rs, F := p.regions, p.freePages;
    AllAligned(rs, F);
    if end > start {
      var page := MarkPages(p, rs, F, AlignDown(start), AlignUp(end));
      Covered(F, start, end, page);
    }
  }

  // A region whose last page stays free although the range to reserve reaches into it.
  method TopRangeMissed() returns (p: Pmm, a: nat)
    ensures fresh(p) && p.Valid() && a in p.freePages && Touches(a, 0xFFFF_E000, 0xFFFF_F001)
  {
    p := new Pmm();
    var r := InitAndFreeTail(0xFFF0_0000, 0xFF, 1);
    p.regions := [r];
    RecomputeTotals(p);
    a := 0xFFFF_E000;
    LastPage(r, a);
    assert FreeAt(p.regions, a);
    MarkUsedRange(p, 0xFFFF_E000, 0xFFFF_F001);
  }

  lemma LastPage(r: Region, a: nat)
    requires FreedTo(r, 0xFFF0_0000, 0xFF, 1, 0xFF) && a == 0xFFFF_E000
    ensures RegionsOk([r]) && FreeAt([r], a)
  {
    assert Index(r, a) == 0xFE;
    assert FreeIn([r][0], a);
  }

  // Whole pages only.
  ghost predicate Whole(F: set<nat>) {
    forall a <- F :: a % PAGE_SIZE == 0
  }

  // The pages from s up to `page` have been taken out of F.
  ghost predicate MarkedTo(F: set<nat>, F': set<nat>, s: nat, page: nat) {
    forall a: nat :: a in F' <==> a in F && !(s <= a < page)
  }

  method MarkPages(p: Pmm, ghost rs: seq<Region>, ghost F: set<nat>, s: nat, e: nat) returns (page: nat)
    requires p.Valid() && p.regions == rs && p.freePages == F && s % PAGE_SIZE == 0
    requires SameExtents(rs, rs) && Whole(F)
    modifies p`totalFree, p`freePages, p`regions
    ensures p.Valid() && SameExtents(rs, p.regions)
    ensures page % PAGE_SIZE == 0 && page >= e && s <= page && (s < page ==> page < e + PAGE_SIZE)
    ensures MarkedTo(F, p.freePages, s, page)
  {
    page := s;
    while page < e
      invariant page % PAGE_SIZE == 0 && s <= page && (s < page ==> page < e + PAGE_SIZE)
      invariant p.Valid() && SameExtents(rs, p.regions)
      invariant MarkedTo(F, p.freePages, s, page)
      modifies p`totalFree, p`freePages, p`regions
    {
      page := MarkNext(p, rs, F, s, page);
    }
  }

  method MarkNext(p: Pmm, ghost rs: seq<Region>, ghost F: set<nat>, ghost s: nat, page: nat) returns (next: nat)
    requires p.Valid() && SameExtents(rs, p.regions) && s <= page && page % PAGE_SIZE == 0
    requires Whole(F) && MarkedTo(F, p.freePages, s, page)
    modifies p`totalFree, p`freePages, p`regions
    ensures p.Valid() && SameExtents(rs, p.regions)
    ensures next == page + PAGE_SIZE && next % PAGE_SIZE == 0
    ensures MarkedTo(F, p.freePages, s, next)
  {
    ghost var rs', F' := p.regions, p.freePages;
    OnePageOn(page);
    NextAligned(page, page);
    MarkUsedByAddr(p, page);
    SameExtentsTrans(rs, rs', p.regions);
    MarkedNext(F, F', s, page);
    next := page + PAGE_SIZE;
  }

  lemma MarkedNext(F: set<nat>, F': set<nat>, s: nat, page: nat)
    requires Whole(F) && MarkedTo(F, F', s, page) && s <= page && page % PAGE_SIZE == 0
    ensures MarkedTo(F, F' - {page}, s, page + PAGE_SIZE)
  {
    forall a | a in F ensures s <= a < page + PAGE_SIZE <==> s <= a < page || a == page {
      NextAligned(a, page);
    }
  }

  lemma OnePageOn(page: nat)
    requires page % PAGE_SIZE == 0
    ensures (page + PAGE_SIZE) % PAGE_SIZE == 0
  {
  }

  lemma NextAligned(a: nat, page: nat)
    requires a % PAGE_SIZE == 0 && page % PAGE_SIZE == 0
    ensures page <= a < page + PAGE_SIZE <==> a == page
    ensures AlignDown(page) == page
  {
  }

  lemma Covered(F: set<nat>, start: nat, end: nat, page: nat)
    requires start < end < WORD && page >= AlignUp(end) && page % PAGE_SIZE == 0 && Whole(F)
    requires AlignDown(start) <= page && (AlignDown(start) < page ==> page < AlignUp(end) + PAGE_SIZE)
    ensures end <= 0xFFFF_F000 ==>
      forall a <- F :: Touches(a, start, end) <==> AlignDown(start) <= a < page
    ensures end > 0xFFFF_F000 ==> page == AlignDown(start)
  {
    AlignUpExact(end);
  }

  lemma AllAligned(rs: seq<Region>, F: set<nat>)
    requires RegionsOk(rs) && Addresses(rs, F)
    ensures Whole(F) && SameExtents(rs, rs)
  {
    forall a | a in F ensures a % PAGE_SIZE == 0 {
      assert FreeAt(rs, a);
    }
  }

  // ---- the whole initialisation ----

  // Just after the regions are built the free pages are their tails.
  lemma FreshTail(rs: seq<Region>, es: seq<Entry>, kernel: Range, mb2: Range, a: nat)
    requires Built(rs, es, |es|, kernel, mb2)
    ensures FreeAt(rs, a) <==> Tail(rs, a)
    ensures Tail(rs, a) ==> !Touches(a, kernel.start, kernel.end)
  {
    forall k | 0 <= k < |rs| && Holds(rs[k], a)
      ensures (Index(rs[k], a) in rs[k].FreeSet() <==> rs[k].bitmapPages <= Index(rs[k], a))
      ensures !Touches(a, kernel.start, kernel.end)
    {
      var j := EntryOf(rs, es, |es|, kernel, mb2, k);
      RegionPlaced(rs[k], es[j], kernel, mb2);
      AddressOfIndex(rs[k], a);
    }
  }

  // In every valid state the pages holding a bitmap are not free, so never handed out.
  lemma FreeIsTail(rs: seq<Region>, F: set<nat>, totalFree: nat, a: nat)
    requires State(rs, F, totalFree) && a in F
    ensures Tail(rs, a)
    ensures forall j: nat | j < |rs| :: !(rs[j].base <= a < rs[j].base + rs[j].bitmapPages * PAGE_SIZE)
  {
    var k :| 0 <= k < |rs| && FreeIn(rs[k], a);
    AddressOfIndex(rs[k], a);
  }

  lemma SameTail(rs: seq<Region>, rs': seq<Region>, a: nat)
    requires SameExtents(rs, rs')
    ensures Tail(rs, a) <==> Tail(rs', a)
  {
    if k :| 0 <= k < |rs| && Holds(rs[k], a) && rs[k].bitmapPages <= Index(rs[k], a) {
      assert Holds(rs'[k], a) && rs'[k].bitmapPages <= Index(rs'[k], a);
    }
    if k :| 0 <= k < |rs'| && Holds(rs'[k], a) && rs'[k].bitmapPages <= Index(rs'[k], a) {
      assert Holds(rs[k], a) && rs[k].bitmapPages <= Index(rs[k], a);
    }
  }

  // The pages managed and free are those of the memory map; the free ones are the tails.
  ghost predicate FreshFrom(rs: seq<Region>, F: set<nat>, es: seq<Entry>, kernel: Range, mb2: Range) {
    && (forall a: nat :: a in F <==> Tail(rs, a) && !Touches(a, kernel.start, kernel.end))
    && (forall a: nat :: a in F <==> OfferedByAny(es, |es|, a, kernel, mb2))
    && (forall a: nat :: ManagedAt(rs, a) <==> ManagedByAny(es, |es|, a, kernel, mb2))
  }

  lemma FreshTails(rs: seq<Region>, F: set<nat>, es: seq<Entry>, kernel: Range, mb2: Range)
    requires Built(rs, es, |es|, kernel, mb2) && Addresses(rs, F)
    ensures FreshFrom(rs, F, es, kernel, mb2)
  {
    forall a: nat
      ensures FreeAt(rs, a) <==> Tail(rs, a) && !Touches(a, kernel.start, kernel.end)
      ensures FreeAt(rs, a) <==> OfferedByAny(es, |es|, a, kernel, mb2)
      ensures ManagedAt(rs, a) <==> ManagedByAny(es, |es|, a, kernel, mb2)
    {
      FreshTail(rs, es, kernel, mb2, a);
      ManagedExactly(rs, es, |es|, kernel, mb2, a);
    }
  }

  lemma SameTails(rs: seq<Region>, rs': seq<Region>)
    requires SameExtents(rs, rs')
    ensures forall a: nat :: Tail(rs, a) <==> Tail(rs', a)
    ensures forall a: nat :: ManagedAt(rs, a) <==> ManagedAt(rs', a)
  {
    forall a: nat ensures Tail(rs, a) <==> Tail(rs', a) {
      SameTail(rs, rs', a);
    }
    forall a: nat ensures ManagedAt(rs, a) <==> ManagedAt(rs', a) {
      SameManaged(rs, rs', a);
    }
  }

  lemma SameManaged(rs: seq<Region>, rs': seq<Region>, a: nat)
    requires SameExtents(rs, rs')
    ensures ManagedAt(rs, a) <==> ManagedAt(rs', a)
  {
    if k :| 0 <= k < |rs| && Holds(rs[k], a) {
      assert Holds(rs'[k], a);
    }
    if k :| 0 <= k < |rs'| && Holds(rs'[k], a) {
      assert Holds(rs[k], a);
    }
  }

  // After initialisation the managed pages are those from the first suiting page of each entry
  // with room for a region, 32 entries at most, to the entry's last whole page. The free pages
  // are those of them past the region's bitmap that touch neither the kernel image nor the
  // boot information, which are also all managed pages that hold no bitmap and do not.
  method Init(es: seq<Entry>, kernel: Range, mb2: Range) returns (p: Pmm)
    requires GoodMap(es) && kernel.end <= 0xFFFF_E000 && mb2.end <= 0xFFFF_E000
    requires kernel.start < WORD && mb2.start < WORD
    ensures fresh(p) && p.Valid()
    ensures p.totalPages == SumPages(p.regions) && p.rr == 0
    ensures forall a: nat :: ManagedAt(p.regions, a) <==> ManagedByAny(es, |es|, a, kernel, mb2)
    ensures forall a: nat :: a in p.freePages <==>
      OfferedByAny(es, |es|, a, kernel, mb2) && !Touches(a, kernel.start, kernel.end) && !Touches(a, mb2.start, mb2.end)
    ensures forall a: nat :: a in p.freePages <==>
      Tail(p.regions, a) && !Touches(a, kernel.start, kernel.end) && !Touches(a, mb2.start, mb2.end)
  {
    p := BeforeReserving(es, kernel, mb2);
    ghost var rs := p.regions;
    Reserve(p, kernel, mb2);
    SamePages(rs, p.regions);
    SameTails(rs, p.regions);
  }

  // With the regions built and nothing reserved yet.
  method BeforeReserving(es: seq<Entry>, kernel: Range, mb2: Range) returns (p: Pmm)
    requires GoodMap(es) && kernel.end <= 0xFFFF_E000 && mb2.end <= 0xFFFF_E000
    ensures fresh(p) && p.Valid() && p.totalPages == SumPages(p.regions) && p.rr == 0
    ensures FreshFrom(p.regions, p.freePages, es, kernel, mb2)
  {
    p := new Pmm();
    BuildRegions(p, es, kernel, mb2);
    RecomputeTotals(p);
    FreshTails(p.regions, p.freePages, es, kernel, mb2);
  }

  // The kernel image and the boot information are taken out of the free pages.
  method Reserve(p: Pmm, kernel: Range, mb2: Range)
    requires p.Valid() && kernel.end <= 0xFFFF_E000 && mb2.end <= 0xFFFF_E000
    requires kernel.start < WORD && mb2.start < WORD
    modifies p`totalFree, p`freePages, p`regions
    ensures p.Valid() && SameExtents(old(p.regions), p.regions)
    ensures forall a: nat :: a in p.freePages <==>
      a in old(p.freePages) && !Touches(a, kernel.start, kernel.end) && !Touches(a, mb2.start, mb2.end)
  {
    ghost var rs := p.regions;
    MarkUsedRange(p, kernel.start, kernel.end);
    ghost var rs1 := p.regions;
    MarkUsedRange(p, mb2.start, mb2.end);
    SameExtentsTrans(rs, rs1, p.regions);
  }
}
