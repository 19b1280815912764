// Placing the buddy allocator's zone in the firmware's memory map: the largest usable range,
// less the kernel image and the boot information at its start, less the page records.
module BuddyInit {
  import opened Prelude
  import opened BitmapLayout
  import opened MemoryMap
  import BuddyPmm

  const DOUBLE_WORD: nat := 0x1_0000_0000_0000_0000
  const INFO_SIZE: nat := 12             // bytes of a page record
  const MIN_RANGE: nat := 32             // pages
  const MIN_ZONE: nat := 16

  const NOTHING: Range := Range(0, 0)

  // The part of an entry that can be managed: usable memory above 1 MiB, in 32 bits. The end
  // of the entry is a 64-bit sum.
  function Manageable(e: Entry): (r: Range)
    ensures r == NOTHING || ONE_MIB <= r.start < r.end < WORD
  {
    var end := (e.addr + e.len) % DOUBLE_WORD;
    var r := Range(if e.addr < ONE_MIB then ONE_MIB else e.addr, if end >= WORD then 0xFFFF_FFFF else end);
    if e.kind != USABLE || e.addr >= WORD || r.end <= ONE_MIB || r.end <= r.start then NOTHING else r
  }

  function Size(r: Range): nat {
    if r.start <= r.end then r.end - r.start else 0
  }

  // A range of usable bytes of the entry.
  ghost predicate UsableRange(e: Entry, r: Range) {
    r.start < r.end && forall x: nat | r.start <= x < r.end :: UsableByte(e, x, 0x1_0000_0000_0000_0000)
  }

  // The first of the longest ranges of usable bytes of an entry, if there is any.
  ghost predicate Best(es: seq<Entry>, best: Range) {
    && (best == NOTHING || (0x10_0000 <= best.start < best.end <= 0xFFFF_FFFF && exists i: nat :: BestAt(es, i, best)))
    && forall i: nat, r: Range | i < |es| && UsableRange(es[i], r) :: r.end - r.start <= Size(best)
  }

  ghost predicate BestAt(es: seq<Entry>, i: nat, best: Range) {
    && i < |es| && UsableRange(es[i], best)
    && forall k: nat, r: Range | k < i && UsableRange(es[k], r) :: r.end - r.start < Size(best)
  }

  // The manageable part of an entry is all its usable bytes, so its longest range.
  lemma ManageableExact(e: Entry)
    ensures forall x: nat :: Manageable(e).start <= x < Manageable(e).end <==> UsableByte(e, x, 0x1_0000_0000_0000_0000)
    ensures Manageable(e) != NOTHING <==> UsableRange(e, Manageable(e))
    ensures forall r: Range | UsableRange(e, r) :: r.end - r.start <= Size(Manageable(e))
  {
    forall r: Range | UsableRange(e, r) ensures r.end - r.start <= Size(Manageable(e)) {
      assert UsableByte(e, r.start, 0x1_0000_0000_0000_0000) && UsableByte(e, r.end - 1, 0x1_0000_0000_0000_0000);
    }
  }

  lemma NextEntry(es: seq<Entry>, n: nat, best: Range)
    requires n < |es| && Best(es[..n], best)
    ensures Best(es[..n + 1], if Size(Manageable(es[n])) > Size(best) then Manageable(es[n]) else best)
  {
    ManageableExact(es[n]);
    var next := if Size(Manageable(es[n])) > Size(best) then Manageable(es[n]) else best;
    assert forall k: nat | k < n :: es[..n + 1][k] == es[..n][k];
    if next != best {
      assert BestAt(es[..n + 1], n, next);
    } else if i: nat :| BestAt(es[..n], i, best) {
      assert BestAt(es[..n + 1], i, best);
    }
  }

  method PickBest(es: seq<Entry>) returns (best: Range)
    ensures Best(es, best)
  {
    best := NOTHING;
    var n := 0;
    while n < |es|
      invariant n <= |es| && Best(es[..n], best)
    {
      NextEntry(es, n, best);
      var r := Manageable(es[n]);
      if Size(r) > Size(best) {
        best := r;
      }
      n := n + 1;
    }
    assert es[..n] == es;
  }

  // The start moves past a range that ends, rounded up to a page, inside the best one.
  function Skip(start: nat, rangeEnd: nat, bestEnd: nat): nat {
    if start < AlignUp(rangeEnd) <= bestEnd then AlignUp(rangeEnd) else start
  }

  function SafeStart(best: Range, kernel: Range, mb2: Range): nat {
    Skip(Skip(best.start, kernel.end, best.end), mb2.end, best.end)
  }

  // A page the records may begin at: inside the best range, past each reserved range that ends
  // before the best range's last whole page does.
  ghost predicate Allowed(f: nat, best: Range, kernel: Range, mb2: Range) {
    f % 4096 == 0 && best.start <= f && After(f, best, kernel) && After(f, best, mb2)
  }

  ghost predicate After(f: nat, best: Range, r: Range) {
    r.end <= AlignDown(best.end) ==> r.end <= f
  }

  // 32 pages, and 17 whole ones from an allowed page on.
  ghost predicate Enough(best: Range, kernel: Range, mb2: Range) {
    && best.start + 32 * 4096 <= best.end
    && exists f: nat :: Allowed(f, best, kernel, mb2) && f + 17 * 4096 <= AlignDown(best.end)
  }

  // The page records begin at `start`, the managed pages follow them.
  datatype Placement = Placement(start: nat, managed: nat, pages: nat)

  // The pages of the records and the zone do not meet the range.
  ghost predicate Clear(p: Placement, r: Range) {
    r.end <= p.start || p.managed + p.pages * PAGE_SIZE <= r.start
  }

  // The range is skipped, or lies after the last whole page.
  predicate Cleared(best: Range, r: Range) {
    (r.end <= 0xFFFF_F000 && AlignUp(r.end) <= best.end) || AlignDown(best.end) <= r.start
  }

  // Whole pages up to the end of the best range, records first.
  ghost predicate WellPlaced(p: Placement, best: Range) {
    && best.start <= p.start < p.managed && p.managed % PAGE_SIZE == 0 && p.pages >= MIN_ZONE
    && p.managed + p.pages * PAGE_SIZE == AlignDown(best.end)
    && var all := p.pages + (p.managed - p.start) / PAGE_SIZE;
       p.start + all * 12 <= p.managed < p.start + all * 12 + 4096
  }

  // The records begin at the first page allowed.
  ghost predicate Starts(p: Placement, best: Range, kernel: Range, mb2: Range) {
    Allowed(p.start, best, kernel, mb2) && forall f: nat | Allowed(f, best, kernel, mb2) :: p.start <= f
  }

  method Place(best: Range, kernel: Range, mb2: Range) returns (p: Option<Placement>)
    requires best == NOTHING || ONE_MIB <= best.start < best.end < WORD
    requires kernel.start < kernel.end < WORD && mb2.start < mb2.end < WORD
    ensures p.Some? <==> Enough(best, kernel, mb2)
    ensures p.Some? ==> WellPlaced(p.value, best) && Starts(p.value, best, kernel, mb2)
    ensures p.Some? ==> (Clear(p.value, kernel) <==> Cleared(best, kernel)) && (Clear(p.value, mb2) <==> Cleared(best, mb2))
  {
    if best.end <= best.start || best.end - best.start < MIN_RANGE * PAGE_SIZE {
      return None;
    }
    var start, end := AlignUp(SafeStart(best, kernel, mb2)), AlignDown(best.end);
    var pages := (end - start) % WORD / PAGE_SIZE;
    var infoPages := AlignUp(pages * INFO_SIZE % WORD) / PAGE_SIZE;
    PlaceMeans(best, kernel, mb2, start, pages, infoPages);
    if infoPages >= pages {
      return None;
    }
    var zone := pages - infoPages;
    if zone < MIN_ZONE {
      return None;
    }
    p := Some(Placement(start, start + infoPages * PAGE_SIZE, zone));
  }

  lemma PlaceMeans(best: Range, kernel: Range, mb2: Range, start: nat, pages: nat, infoPages: nat)
    requires ONE_MIB <= best.start && best.start + MIN_RANGE * PAGE_SIZE <= best.end < WORD
    requires kernel.start < kernel.end < WORD && mb2.start < mb2.end < WORD
    requires start == AlignUp(SafeStart(best, kernel, mb2)) && pages == (AlignDown(best.end) - start) % WORD / PAGE_SIZE
    requires infoPages == AlignUp(pages * INFO_SIZE % WORD) / PAGE_SIZE
    ensures infoPages + MIN_ZONE <= pages <==> Enough(best, kernel, mb2)
    ensures infoPages + MIN_ZONE <= pages ==>
      var p := Placement(start, start + infoPages * PAGE_SIZE, pages - infoPages);
      WellPlaced(p, best) && Starts(p, best, kernel, mb2) && (Clear(p, kernel) <==> Cleared(best, kernel)) && (Clear(p, mb2) <==> Cleared(best, mb2))
  {
    var safe := SafeStart(best, kernel, mb2);
    Skipped(best, kernel, mb2, safe);
    StartExact(best, kernel, mb2, safe);
    RoundedBelow(0, best.end);
    InfoFits(start, AlignDown(best.end), pages);
    if infoPages + MIN_ZONE <= pages {
      var p := Placement(start, start + infoPages * PAGE_SIZE, pages - infoPages);
      Placed(p, best, start, pages, infoPages);
      ClearExactly(p, best, kernel, safe);
      ClearExactly(p, best, mb2, safe);
    }
  }

  lemma Placed(p: Placement, best: Range, start: nat, pages: nat, infoPages: nat)
    requires best.start <= start && start % PAGE_SIZE == 0 && start + pages * PAGE_SIZE == AlignDown(best.end)
    requires 0 < infoPages && infoPages + MIN_ZONE <= pages
    requires pages * INFO_SIZE <= infoPages * PAGE_SIZE < pages * INFO_SIZE + PAGE_SIZE
    requires p == Placement(start, start + infoPages * PAGE_SIZE, pages - infoPages)
    ensures WellPlaced(p, best)
  {
    RecordsBetween(start, infoPages);
  }

  lemma RecordsBetween(start: nat, n: nat)
    requires start % PAGE_SIZE == 0
    ensures (start + n * PAGE_SIZE) % PAGE_SIZE == 0 && (start + n * PAGE_SIZE - start) / PAGE_SIZE == n
  {
  }

  // Where the records begin: a whole page at or after everything that was skipped.
  lemma Skipped(best: Range, kernel: Range, mb2: Range, safe: nat)
    requires ONE_MIB <= best.start && best.start + MIN_RANGE * PAGE_SIZE <= best.end < WORD && kernel.end < WORD && mb2.end < WORD
    requires safe == SafeStart(best, kernel, mb2)
    ensures best.start <= safe <= AlignUp(safe) <= AlignDown(best.end) && AlignUp(safe) % PAGE_SIZE == 0
    ensures AlignUp(kernel.end) <= best.end ==> AlignUp(kernel.end) <= safe
    ensures AlignUp(mb2.end) <= best.end ==> AlignUp(mb2.end) <= safe
  {
    var s1 := Skip(best.start, kernel.end, best.end);
    RoundedInside(best.start, best.end);
    SkipRounded(best.start, kernel.end, best.end);
    SkipRounded(s1, mb2.end, best.end);
  }

  // That page is the first one allowed.
  lemma StartExact(best: Range, kernel: Range, mb2: Range, safe: nat)
    requires ONE_MIB <= best.start && best.start + MIN_RANGE * PAGE_SIZE <= best.end < WORD && kernel.end < WORD && mb2.end < WORD
    requires safe == SafeStart(best, kernel, mb2) && best.start <= safe <= AlignUp(safe) <= AlignDown(best.end)
    requires AlignUp(safe) % PAGE_SIZE == 0
    requires AlignUp(kernel.end) <= best.end ==> AlignUp(kernel.end) <= safe
    requires AlignUp(mb2.end) <= best.end ==> AlignUp(mb2.end) <= safe
    ensures Allowed(AlignUp(safe), best, kernel, mb2)
    ensures forall f: nat | Allowed(f, best, kernel, mb2) :: AlignUp(safe) <= f
  {
    if kernel.end <= AlignDown(best.end) {
      SkippedEnd(best, kernel);
    }
    if mb2.end <= AlignDown(best.end) {
      SkippedEnd(best, mb2);
    }
    forall f: nat | Allowed(f, best, kernel, mb2) ensures AlignUp(safe) <= f {
      if 0 < AlignUp(kernel.end) <= best.end {
        EndBefore(f, best, kernel);
      }
      if 0 < AlignUp(mb2.end) <= best.end {
        EndBefore(f, best, mb2);
      }
      UpToPage(safe, f);
    }
  }

  // A range ends before the last whole page does when its end, rounded up, is in the best range.
  lemma SkippedEnd(best: Range, r: Range)
    requires r.end < WORD && best.end < WORD && r.end <= AlignDown(best.end)
    ensures r.end <= AlignUp(r.end) <= best.end
  {
    AlignUpExact(r.end);
    RoundedBelow(AlignUp(r.end), best.end);
  }

  lemma EndBefore(f: nat, best: Range, r: Range)
    requires r.end < WORD && best.end < WORD && f % PAGE_SIZE == 0 && After(f, best, r) && 0 < AlignUp(r.end) <= best.end
    ensures AlignUp(r.end) <= f
  {
    AlignUpExact(r.end);
    RoundedBelow(AlignUp(r.end), best.end);
  }

  lemma UpToPage(v: nat, f: nat)
    requires v <= f && f % PAGE_SIZE == 0 && v <= AlignUp(v)
    ensures AlignUp(v) <= f
  {
  }

  // The start, rounded up, stays at or below the last whole page's end.
  ghost predicate Rounds(start: nat, bestEnd: nat) {
    start <= AlignUp(start) <= AlignDown(bestEnd) && AlignUp(start) % PAGE_SIZE == 0
  }

  lemma RoundedInside(start: nat, bestEnd: nat)
    requires start + PAGE_SIZE <= bestEnd < WORD
    ensures Rounds(start, bestEnd)
  {
    AlignUpExact(start);
    RoundedBelow(AlignUp(start), bestEnd);
  }

  // A whole page address at or below `end` is at or below `end` rounded down.
  lemma RoundedBelow(a: nat, end: nat)
    requires a % PAGE_SIZE == 0
    ensures a <= end <==> a <= AlignDown(end)
    ensures a < WORD ==> AlignUp(a) == a
    ensures AlignDown(end) % PAGE_SIZE == 0 && AlignDown(end) <= end
  {
  }

  lemma SkipRounded(start: nat, rangeEnd: nat, bestEnd: nat)
    requires Rounds(start, bestEnd) && rangeEnd < WORD && bestEnd < WORD
    ensures var s := Skip(start, rangeEnd, bestEnd);
            start <= s && Rounds(s, bestEnd) && (AlignUp(rangeEnd) <= bestEnd ==> AlignUp(rangeEnd) <= s)
  {
    var e := AlignUp(rangeEnd);
    AlignUpWhole(rangeEnd);
    RoundedBelow(e, bestEnd);
  }

  lemma AlignUpWhole(v: nat)
    ensures AlignUp(v) % PAGE_SIZE == 0 && AlignUp(v) < WORD
  {
  }

  lemma InfoFits(start: nat, end: nat, pages: nat)
    requires start % PAGE_SIZE == 0 && end % PAGE_SIZE == 0 && start <= end < WORD && pages == (end - start) % WORD / PAGE_SIZE
    ensures var info := AlignUp(pages * INFO_SIZE % WORD) / PAGE_SIZE;
            && start + pages * PAGE_SIZE == end
            && pages * INFO_SIZE <= info * PAGE_SIZE < pages * INFO_SIZE + PAGE_SIZE
            && (pages > 0 ==> info > 0)
            && (pages >= info + MIN_ZONE <==> pages > MIN_ZONE)
  {
    WholeQuotient(end - start);
    AlignUpExact(pages * INFO_SIZE);
    WholeQuotient(AlignUp(pages * INFO_SIZE));
  }

  // The zone and its records keep clear of a range exactly when this ends inside the best
  // range, rounded up to a page, or starts after the last whole page.
  lemma ClearExactly(p: Placement, best: Range, r: Range, safe: nat)
    requires WellPlaced(p, best) && r.start < r.end < WORD && best.end < WORD
    requires p.start == AlignUp(safe) && safe <= AlignUp(safe) && (AlignUp(r.end) <= best.end ==> AlignUp(r.end) <= safe)
    ensures Clear(p, r) <==> Cleared(best, r)
  {
    AlignUpExact(r.end);
  }

  // The allocator over its zone, all pages of which are free; none if the map has no range
  // that is large enough.
  method Init(es: seq<Entry>, kernel: Range, mb2: Range) returns (pmm: BuddyPmm.Pmm?, ghost best: Range, ghost p: Placement)
    requires kernel.start < kernel.end < WORD && mb2.start < mb2.end < WORD
    ensures Best(es, best)
    ensures pmm != null <==> Enough(best, kernel, mb2)
    ensures pmm != null ==>
      && fresh(pmm) && pmm.Valid() && pmm.FreePages() == pmm.Managed()
      && WellPlaced(p, best) && Starts(p, best, kernel, mb2) && pmm.base == p.managed && pmm.zone.total == p.pages
      && (Clear(p, kernel) <==> Cleared(best, kernel)) && (Clear(p, mb2) <==> Cleared(best, mb2))
  {
    var b := PickBest(es);
    best, p := b, Placement(0, 0, 0);
    var q := Place(b, kernel, mb2);
    pmm := null;
    if q.Some? {
      p := q.value;
      pmm := new BuddyPmm.Pmm(q.value.managed, q.value.pages);
    }
  }

  lemma OnlyEntry(e: Entry, all: Range, best: Range)
    requires Best([e], best) && Manageable(e) == all != NOTHING
    ensures best == all
  {
    ManageableExact(e);
    assert UsableRange([e][0], all);
    var i: nat :| BestAt([e], i, best);
    assert UsableByte(e, best.start, 0x1_0000_0000_0000_0000) && UsableByte(e, best.end - 1, 0x1_0000_0000_0000_0000);
  }

  // Boot information in the last, partial page of the best range is not skipped, and the
  // whole page before it, where it begins, is handed out.
  method PartialPageManaged() returns (pmm: BuddyPmm.Pmm?, a: nat)
    ensures pmm != null && fresh(pmm) && pmm.Valid()
    ensures a in pmm.FreePages() && Touches(a, 0x1FF_F000, 0x200_0400)
  {
    var es := [Entry(0x10_0000, 0x1F0_0800, USABLE)];
    var kernel, mb2 := Range(0x10_0000, 0x20_0000), Range(0x1FF_F000, 0x200_0400);
    ghost var best, p;
    pmm, best, p := Init(es, kernel, mb2);
    OnlyEntry(es[0], Range(0x10_0000, 0x200_0800), best);
    assert Allowed(0x20_0000, best, kernel, mb2);
    a := 0x1FF_F000;
  }
}
