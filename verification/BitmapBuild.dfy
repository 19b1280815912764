// The regions of the bitmap allocator, one from each entry of the memory map with room for one.
module BitmapBuild {
  import opened Prelude
  import opened MemoryMap
  import opened BitmapRegion
  import opened BitmapLayout
  import opened BitmapPmm

  // ---- what an entry offers ----

  predicate Accepted(e: Entry) {
    && e.kind == USABLE && e.len > 0 && e.addr + e.len < 0xFFFF_FFFF_FFFF_FFFF
    && e.addr < WORD && e.addr + e.len > ONE_MIB && Clip(e).start < Clip(e).end
  }

  // Clipped to 32 bits and to the memory above 1 MiB.
  function Clip(e: Entry): Range {
    Range(if e.addr < ONE_MIB then ONE_MIB else e.addr,
          if e.addr + e.len >= WORD then 0xFFFF_FFFF else e.addr + e.len)
  }

  // An entry is accepted, and clipped, to its usable bytes.
  lemma ClipExact(e: Entry, x: nat)
    ensures UsableByte(e, x, 0xFFFF_FFFF_FFFF_FFFF) <==> Accepted(e) && Clip(e).start <= x < Clip(e).end
    ensures Accepted(e) ==> 0x10_0000 <= Clip(e).start < Clip(e).end <= 0xFFFF_FFFF
  {
  }

  ghost function WholeEndOf(e: Entry): nat {
    AlignDown(Clip(e).end)
  }

  // A page at which a region from the entry can start.
  ghost predicate Suitable(e: Entry, f: nat, kernel: Range, mb2: Range) {
    Accepted(e) && Suits(f, Clip(e).start, Clip(e).end, kernel.start, kernel.end, mb2.start, mb2.end)
  }

  ghost predicate Takes(e: Entry, kernel: Range, mb2: Range) {
    exists f :: Suitable(e, f, kernel, mb2)
  }

  // The entries among the first n that there is room for a region in.
  ghost function Taking(es: seq<Entry>, n: nat, kernel: Range, mb2: Range): nat
    requires n <= |es|
  {
    if n == 0 then 0 else Taking(es, n - 1, kernel, mb2) + if Takes(es[n - 1], kernel, mb2) then 1 else 0
  }

  // Page a belongs to the region from entry i: the table has room for it, some suiting page
  // lies at or below a, and a lies below the end.
  ghost predicate ManagedBy(es: seq<Entry>, i: nat, a: nat, kernel: Range, mb2: Range) {
    && i < |es| && Taking(es, i, kernel, mb2) < 32 && a % 4096 == 0 && a < WholeEndOf(es[i])
    && exists f: nat :: Suitable(es[i], f, kernel, mb2) && f <= a
  }

  // And it lies past the bitmap.
  ghost predicate OfferedBy(es: seq<Entry>, i: nat, a: nat, kernel: Range, mb2: Range) {
    && i < |es| && Taking(es, i, kernel, mb2) < 32 && a % 4096 == 0 && a < WholeEndOf(es[i])
    && exists f: nat :: Suitable(es[i], f, kernel, mb2) && BitmapEnd(f, WholeEndOf(es[i])) <= a
  }

  // ---- the region from an entry ----

  // From the first suiting page to the end, with a bit for each page; all pages after the
  // bitmap are free.
  ghost predicate RegionOf(r: Region, e: Entry, kernel: Range, mb2: Range) {
    && FreedTo(r, r.base, r.pages, r.bitmapPages, r.pages)
    && Suitable(e, r.base, kernel, mb2) && (forall f | Suitable(e, f, kernel, mb2) :: r.base <= f)
    && r.base + r.pages * 4096 == WholeEndOf(e) && r.bitmapPages * 4096 == BitmapBytes(r.pages)
  }

  lemma RegionHolds(r: Region, e: Entry, kernel: Range, mb2: Range, a: nat)
    requires RegionOf(r, e, kernel, mb2)
    ensures Holds(r, a) <==> a % 4096 == 0 && a < WholeEndOf(e) && exists f: nat :: Suitable(e, f, kernel, mb2) && f <= a
  {
  }

  lemma RegionFree(r: Region, e: Entry, kernel: Range, mb2: Range, a: nat)
    requires RegionOf(r, e, kernel, mb2)
    ensures FreeIn(r, a) <==>
      a % 4096 == 0 && a < WholeEndOf(e) && exists f: nat :: Suitable(e, f, kernel, mb2) && BitmapEnd(f, WholeEndOf(e)) <= a
  {
    WholeEnd(Clip(e).end);
    PagesTo(r.base, r.pages, WholeEndOf(e));
    assert BitmapEnd(r.base, WholeEndOf(e)) == r.base + r.bitmapPages * 4096;
    forall f: nat | Suitable(e, f, kernel, mb2) ensures BitmapEnd(r.base, WholeEndOf(e)) <= BitmapEnd(f, WholeEndOf(e)) {
      BitmapEndGrows(r.base, f, WholeEndOf(e));
    }
    if Holds(r, a) {
      AddressOfIndex(r, a);
    }
    assert FreeIn(r, a) <==> Holds(r, a) && r.base + r.bitmapPages * 4096 <= a;
  }

  lemma PagesTo(s: nat, pages: nat, e: nat)
    requires s + pages * 4096 == e
    ensures (e - s) / 4096 == pages
  {
  }

  // Where the region lies: in the clipped entry, clear of the kernel.
  lemma RegionPlaced(r: Region, e: Entry, kernel: Range, mb2: Range)
    requires RegionOf(r, e, kernel, mb2)
    ensures Accepted(e) && Clip(e).start <= r.base && r.base + r.pages * PAGE_SIZE <= Clip(e).end
    ensures !Overlap(r.base, r.base + r.pages * PAGE_SIZE, kernel.start, kernel.end)
  {
    WholeEnd(Clip(e).end);
  }

  // ---- the regions from a map ----

  // Accepted entries are disjoint and start below the last two pages.
  ghost predicate GoodMap(es: seq<Entry>) {
    && (forall i | 0 <= i < |es| && Accepted(es[i]) :: Clip(es[i]).start <= 0xFFFF_E000)
    && (forall i, j | 0 <= i < j < |es| && Accepted(es[i]) && Accepted(es[j]) ::
          Clip(es[i]).end <= Clip(es[j]).start || Clip(es[j]).end <= Clip(es[i]).start)
  }

  // One region from each of the first n entries with room for one, in order, up to 32.
  ghost predicate Matches(rs: seq<Region>, es: seq<Entry>, n: nat, kernel: Range, mb2: Range)
    requires n <= |es|
  {
    if n == 0 then rs == []
    else if Takes(es[n - 1], kernel, mb2) && Taking(es, n - 1, kernel, mb2) < MAX_REGIONS then
      rs != [] && RegionOf(rs[|rs| - 1], es[n - 1], kernel, mb2) && Matches(rs[..|rs| - 1], es, n - 1, kernel, mb2)
    else Matches(rs, es, n - 1, kernel, mb2)
  }

  ghost predicate Built(rs: seq<Region>, es: seq<Entry>, n: nat, kernel: Range, mb2: Range) {
    n <= |es| && RegionsOk(rs) && Matches(rs, es, n, kernel, mb2)
  }

  lemma {:induction false} RegionCount(rs: seq<Region>, es: seq<Entry>, n: nat, kernel: Range, mb2: Range)
    requires n <= |es| && Matches(rs, es, n, kernel, mb2)
    ensures |rs| == if Taking(es, n, kernel, mb2) < 32 then Taking(es, n, kernel, mb2) else 32
  {
    if n > 0 {
      var front := if Takes(es[n - 1], kernel, mb2) && Taking(es, n - 1, kernel, mb2) < MAX_REGIONS
        then rs[..|rs| - 1] else rs;
      RegionCount(front, es, n - 1, kernel, mb2);
    }
  }

  // The entry a region comes from.
  lemma {:induction false} EntryOf(rs: seq<Region>, es: seq<Entry>, n: nat, kernel: Range, mb2: Range, k: nat) returns (j: nat)
    requires n <= |es| && Matches(rs, es, n, kernel, mb2) && k < |rs|
    ensures j < n && RegionOf(rs[k], es[j], kernel, mb2)
  {
    j := n - 1;
    if Takes(es[n - 1], kernel, mb2) && Taking(es, n - 1, kernel, mb2) < MAX_REGIONS {
      if k < |rs| - 1 {
        j := EntryOf(rs[..|rs| - 1], es, n - 1, kernel, mb2, k);
      }
    } else {
      j := EntryOf(rs, es, n - 1, kernel, mb2, k);
    }
  }

  lemma BuiltAdd(rs: seq<Region>, es: seq<Entry>, n: nat, kernel: Range, mb2: Range, r: Region)
    requires GoodMap(es) && n < |es| && Built(rs, es, n, kernel, mb2) && |rs| < MAX_REGIONS
    requires RegionOf(r, es[n], kernel, mb2)
    ensures Built(rs + [r], es, n + 1, kernel, mb2)
  {
    RegionCount(rs, es, n, kernel, mb2);
    RegionPlaced(r, es[n], kernel, mb2);
    forall k | 0 <= k < |rs|
      ensures rs[k].base + rs[k].pages * PAGE_SIZE <= r.base || r.base + r.pages * PAGE_SIZE <= rs[k].base
    {
      var j := EntryOf(rs, es, n, kernel, mb2, k);
      RegionPlaced(rs[k], es[j], kernel, mb2);
    }
    assert (rs + [r])[..|rs + [r]| - 1] == rs;
    assert Takes(es[n], kernel, mb2);
  }

  lemma BuiltSkip(rs: seq<Region>, es: seq<Entry>, n: nat, kernel: Range, mb2: Range)
    requires n < |es| && Built(rs, es, n, kernel, mb2) && (|rs| >= MAX_REGIONS || !Takes(es[n], kernel, mb2))
    ensures Built(rs, es, n + 1, kernel, mb2)
  {
    RegionCount(rs, es, n, kernel, mb2);
  }

  // The region from an accepted entry, if a layout for it exists.
  method MakeRegion(ghost e: Entry, usable: Range, kernel: Range, mb2: Range) returns (made: bool, r: Region)
    requires Accepted(e) && usable == Clip(e) && usable.start <= 0xFFFF_E000
    requires kernel.end <= 0xFFFF_E000 && mb2.end <= 0xFFFF_E000
    ensures made <==> Takes(e, kernel, mb2)
    ensures made ==> RegionOf(r, e, kernel, mb2)
  {
    var l;
    made, l := ComputeLayout(usable.start, usable.end, kernel.start, kernel.end, mb2.start, mb2.end);
    TakesSuits(e, kernel, mb2);
    if made {
      ChosenPlaced(l, usable.start, usable.end, kernel.start, kernel.end, mb2.start, mb2.end);
      r := InitAndFreeTail(l.start, l.pages, l.storagePages);
    } else {
      r := Region(0, 0, 0, [], 0);
    }
  }

  lemma TakesSuits(e: Entry, kernel: Range, mb2: Range)
    requires Accepted(e)
    ensures Takes(e, kernel, mb2) <==> AnySuits(Clip(e).start, Clip(e).end, kernel.start, kernel.end, mb2.start, mb2.end)
    ensures forall f :: Suitable(e, f, kernel, mb2) <==>
      Suits(f, Clip(e).start, Clip(e).end, kernel.start, kernel.end, mb2.start, mb2.end)
  {
    if f :| Suits(f, Clip(e).start, Clip(e).end, kernel.start, kernel.end, mb2.start, mb2.end) {
      assert Suitable(e, f, kernel, mb2);
    }
    if f :| Suitable(e, f, kernel, mb2) {
      assert Suits(f, Clip(e).start, Clip(e).end, kernel.start, kernel.end, mb2.start, mb2.end);
    }
  }

  // Adds one region exactly when some page of the entry suits.
  method AddRegion(p: Pmm, ghost es: seq<Entry>, ghost n: nat, usable: Range, kernel: Range, mb2: Range)
    requires |p.regions| < MAX_REGIONS && Built(p.regions, es, n, kernel, mb2)
    requires GoodMap(es) && n < |es| && Accepted(es[n]) && usable == Clip(es[n])
    requires kernel.end <= 0xFFFF_E000 && mb2.end <= 0xFFFF_E000
    modifies p`regions
    ensures Built(p.regions, es, n + 1, kernel, mb2)
    ensures if Takes(es[n], kernel, mb2)
      then |p.regions| == |old(p.regions)| + 1 && old(p.regions) <= p.regions
           && RegionOf(p.regions[|old(p.regions)|], es[n], kernel, mb2)
      else p.regions == old(p.regions)
  {
    var made, r := MakeRegion(es[n], usable, kernel, mb2);
    ghost var rs := p.regions;
    if made {
      BuiltAdd(rs, es, n, kernel, mb2, r);
      p.regions := p.regions + [r];
    } else {
      BuiltSkip(rs, es, n, kernel, mb2);
    }
  }

  // Regions from the memory map, in its order, until the table is full.
  method BuildRegions(p: Pmm, es: seq<Entry>, kernel: Range, mb2: Range)
    requires p.regions == []
    requires GoodMap(es) && kernel.end <= 0xFFFF_E000 && mb2.end <= 0xFFFF_E000
    modifies p`regions
    ensures |p.regions| <= MAX_REGIONS && Built(p.regions, es, |es|, kernel, mb2)
  {
    var n := 0;
    while n < |es|
      invariant n <= |es| && Built(p.regions, es, n, kernel, mb2)
      modifies p`regions
    {
      if |p.regions| < MAX_REGIONS && Accepted(es[n]) {
        AddRegion(p, es, n, Clip(es[n]), kernel, mb2);
      } else {
        BuiltSkip(p.regions, es, n, kernel, mb2);
      }
      n := n + 1;
    }
    RegionCount(p.regions, es, |es|, kernel, mb2);
  }

  // ---- which pages that makes managed, and free ----

  lemma LastHolds(rs: seq<Region>, a: nat)
    requires RegionsOk(rs) && rs != []
    ensures ManagedAt(rs, a) <==> ManagedAt(rs[..|rs| - 1], a) || Holds(rs[|rs| - 1], a)
    ensures !(ManagedAt(rs[..|rs| - 1], a) && Holds(rs[|rs| - 1], a))
  {
    var front := rs[..|rs| - 1];
    if ManagedAt(front, a) {
      var k :| 0 <= k < |front| && Holds(front[k], a);
      assert Holds(rs[k], a);
    }
    if ManagedAt(rs, a) {
      var k :| 0 <= k < |rs| && Holds(rs[k], a);
      if k < |front| {
        assert Holds(front[k], a);
      }
    }
  }

  lemma LastFree(rs: seq<Region>, a: nat)
    requires rs != []
    ensures FreeAt(rs, a) <==> FreeAt(rs[..|rs| - 1], a) || FreeIn(rs[|rs| - 1], a)
  {
    var front := rs[..|rs| - 1];
    if FreeAt(front, a) {
      var k :| 0 <= k < |front| && FreeIn(front[k], a);
      assert FreeIn(rs[k], a);
    }
    if FreeAt(rs, a) {
      var k :| 0 <= k < |rs| && FreeIn(rs[k], a);
      if k < |front| {
        assert FreeIn(front[k], a);
      }
    }
  }

  // Some entry among the first n makes the page managed, or free.
  ghost predicate ManagedByAny(es: seq<Entry>, n: nat, a: nat, kernel: Range, mb2: Range) {
    exists i: nat :: i < n && ManagedBy(es, i, a, kernel, mb2)
  }

  ghost predicate OfferedByAny(es: seq<Entry>, n: nat, a: nat, kernel: Range, mb2: Range) {
    exists i: nat :: i < n && OfferedBy(es, i, a, kernel, mb2)
  }

  lemma {:induction false} ManagedExactly(rs: seq<Region>, es: seq<Entry>, n: nat, kernel: Range, mb2: Range, a: nat)
    requires Built(rs, es, n, kernel, mb2)
    ensures ManagedAt(rs, a) <==> ManagedByAny(es, n, a, kernel, mb2)
    ensures FreeAt(rs, a) <==> OfferedByAny(es, n, a, kernel, mb2)
    decreases n
  {
    if n > 0 {
      var m := n - 1;
      if Takes(es[m], kernel, mb2) && Taking(es, m, kernel, mb2) < MAX_REGIONS {
        var last := rs[|rs| - 1];
        ManagedExactly(rs[..|rs| - 1], es, m, kernel, mb2, a);
        LastHolds(rs, a);
        LastFree(rs, a);
        RegionHolds(last, es[m], kernel, mb2, a);
        RegionFree(last, es[m], kernel, mb2, a);
        assert Holds(last, a) <==> ManagedBy(es, m, a, kernel, mb2);
        assert FreeIn(last, a) <==> OfferedBy(es, m, a, kernel, mb2);
      } else {
        ManagedExactly(rs, es, m, kernel, mb2, a);
        assert !ManagedBy(es, m, a, kernel, mb2) && !OfferedBy(es, m, a, kernel, mb2);
      }
      OneEntryMore(es, m, a, kernel, mb2);
    }
  }

  lemma OneEntryMore(es: seq<Entry>, m: nat, a: nat, kernel: Range, mb2: Range)
    ensures ManagedByAny(es, m + 1, a, kernel, mb2) <==> ManagedByAny(es, m, a, kernel, mb2) || ManagedBy(es, m, a, kernel, mb2)
    ensures OfferedByAny(es, m + 1, a, kernel, mb2) <==> OfferedByAny(es, m, a, kernel, mb2) || OfferedBy(es, m, a, kernel, mb2)
  {
  }
}
