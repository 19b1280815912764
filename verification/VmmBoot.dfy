// Building the kernel's initial address space, and what is left of it once the identity
// half is dropped.
module VmmBoot {
  import opened Prelude
  import opened PageTables
  import opened Vmm
  import opened VmmPages

  const KERNEL_PAGE: nat := 0xC_0000       // first page of the kernel half

  // Pages below n map to themselves, and again in the kernel half up to h.
  ghost predicate DirectMap(m: View, n: nat, h: nat) {
    forall u | 0 <= u < |m| ::
      m[u] == if u < n then Some(Mapping(u * PAGE_SIZE, true, false))
              else if KERNEL_PAGE <= u < KERNEL_PAGE + h then Some(Mapping((u - KERNEL_PAGE) * PAGE_SIZE, true, false))
              else None
  }

  // The end of managed memory as the kernel computes it, in 32 bits: the lowest managed
  // address and the number of managed pages, as if these had no gaps.
  function PmmEnd(base: nat, totalPages: nat): nat {
    (base + totalPages * PAGE_SIZE) % WORD
  }

  // Bytes to map: up to the kernel's end and that end, at least 16 MiB, at most 1 GiB.
  function MapEnd(kernelEnd: nat, pmmEnd: nat): (e: nat)
    ensures 0x100_0000 <= e <= 0x4000_0000 && e % PAGE_SIZE == 0
    ensures e < 0x4000_0000 ==> kernelEnd <= e && pmmEnd <= e
    ensures e == 0x100_0000 || e < kernelEnd + PAGE_SIZE || e < pmmEnd + PAGE_SIZE
  {
    var a := if kernelEnd < 0x100_0000 then 0x100_0000 else kernelEnd;
    var b := if pmmEnd > a then pmmEnd else a;
    var c := if b > 0x4000_0000 then 0x4000_0000 else b;
    (c + PAGE_SIZE - 1) / PAGE_SIZE * PAGE_SIZE
  }

  // Tables under n pages.
  function TablesOf(n: nat): nat {
    (n + ENTRIES - 1) / ENTRIES
  }

  // The directory entries in use while the direct map is built, and the frames they cost.
  ghost predicate Built(d: seq<nat>, F: set<nat>, n: nat, h: nat, total: nat) {
    && |d| == ENTRIES
    && (forall i | 0 <= i < ENTRIES :: Present(d[i]) <==> i < TablesOf(n) || 768 <= i < 768 + TablesOf(h))
    && |F| + TablesOf(n) + TablesOf(h) == total
  }

  lemma BuiltLow(d: seq<nat>, F: set<nat>, d': seq<nat>, F': set<nat>, n: nat, total: nat)
    requires Built(d, F, n, n, total) && n < 0x4_0000 && |d'| == ENTRIES
    ensures TableAt(d, F, d', F', n / ENTRIES) ==> Built(d', F', n + 1, n, total)
    ensures !Present(d[n / ENTRIES]) && F == {} ==> total < 2 * TablesOf(n + 1)
  {
    assert n / ENTRIES < 256;
    assert TablesOf(n + 1) == n / ENTRIES + 1;
    assert TablesOf(n) <= n / ENTRIES + 1 && n / ENTRIES <= TablesOf(n);
  }

  lemma BuiltHigh(d: seq<nat>, F: set<nat>, d': seq<nat>, F': set<nat>, n: nat, total: nat)
    requires Built(d, F, n + 1, n, total) && n < 0x4_0000 && |d'| == ENTRIES
    ensures TableAt(d, F, d', F', 768 + n / ENTRIES) ==> Built(d', F', n + 1, n + 1, total)
    ensures !Present(d[768 + n / ENTRIES]) && F == {} ==> total < 2 * TablesOf(n + 1)
  {
    assert n / ENTRIES < 256;
    assert TablesOf(n + 1) == n / ENTRIES + 1;
    assert TablesOf(n) <= n / ENTRIES + 1 && n / ENTRIES <= TablesOf(n);
  }

  lemma BuiltMore(n: nat, n': nat)
    requires n <= n'
    ensures TablesOf(n) <= TablesOf(n')
  {
  }

  lemma LowAddress(n: nat)
    requires n < PAGES
    ensures n * PAGE_SIZE < WORD && n * PAGE_SIZE % PAGE_SIZE == 0
    ensures n * PAGE_SIZE / PAGE_SIZE == n && n * PAGE_SIZE / LARGE == n / ENTRIES
  {
  }

  lemma HighAddress(n: nat)
    requires n < 0x4_0000
    ensures (KERNEL_PAGE + n) * PAGE_SIZE < WORD && (KERNEL_PAGE + n) * PAGE_SIZE % PAGE_SIZE == 0
    ensures (KERNEL_PAGE + n) * PAGE_SIZE / PAGE_SIZE == KERNEL_PAGE + n
    ensures (KERNEL_PAGE + n) * PAGE_SIZE / LARGE == 768 + n / ENTRIES
  {
    LowAddress(KERNEL_PAGE + n);
    assert (768 * ENTRIES + n) / ENTRIES == 768 + n / ENTRIES;
  }

  method MapLow(s: AddressSpace, n: nat, ghost total: nat) returns (ok: bool)
    requires s.Valid() && n < 0x4_0000 && Built(s.pd[..], s.free, n, n, total)
    modifies s.pd, s`mem, s`free
    ensures s.Valid() && Grew(old(s.pd[..]), old(s.free), s.pd[..], s.free)
    ensures ok ==>
      && Built(s.pd[..], s.free, n + 1, n, total)
      && s.View() == old(s.View())[n := Some(Mapping(n * PAGE_SIZE, true, false))]
    ensures !ok ==> total < 2 * TablesOf(n + 1)
  {
    LowAddress(n);
    ghost var d, F := s.pd[..], s.free;
    var ret := s.MapPage(n * PAGE_SIZE, n * PAGE_SIZE, PRESENT_WRITABLE);
    BuiltLow(d, F, s.pd[..], s.free, n, total);
    ok := ret == 0;
  }

  method MapHigh(s: AddressSpace, n: nat, ghost total: nat) returns (ok: bool)
    requires s.Valid() && n < 0x4_0000 && Built(s.pd[..], s.free, n + 1, n, total)
    modifies s.pd, s`mem, s`free
    ensures s.Valid() && Grew(old(s.pd[..]), old(s.free), s.pd[..], s.free)
    ensures ok ==>
      && Built(s.pd[..], s.free, n + 1, n + 1, total)
      && s.View() == old(s.View())[KERNEL_PAGE + n := Some(Mapping(n * PAGE_SIZE, true, false))]
    ensures !ok ==> total < 2 * TablesOf(n + 1)
  {
    LowAddress(n);
    HighAddress(n);
    ghost var d, F := s.pd[..], s.free;
    var ret := s.MapPage((KERNEL_PAGE + n) * PAGE_SIZE, n * PAGE_SIZE, PRESENT_WRITABLE);
    assert Requested(n * PAGE_SIZE, PRESENT_WRITABLE) == Some(Mapping(n * PAGE_SIZE, true, false));
    BuiltHigh(d, F, s.pd[..], s.free, n, total);
    ok := ret == 0;
  }

  method MapBoth(s: AddressSpace, n: nat, ghost total: nat) returns (ok: bool)
    requires s.Valid() && n < 0x4_0000 && DirectMap(s.View(), n, n) && Built(s.pd[..], s.free, n, n, total)
    modifies s.pd, s`mem, s`free
    ensures s.Valid() && Grew(old(s.pd[..]), old(s.free), s.pd[..], s.free)
    ensures ok ==> DirectMap(s.View(), n + 1, n + 1) && Built(s.pd[..], s.free, n + 1, n + 1, total)
    ensures !ok ==> total < 2 * TablesOf(n + 1)
  {
    ghost var m := s.View();
    ok := MapLow(s, n, total);
    if ok {
      ok := MapHigh(s, n, total);
      DirectNext(m, s.View(), n);
    }
  }

  lemma DirectNext(m: View, m': View, n: nat)
    requires |m| == |m'| == PAGES && n < 0x4_0000 && DirectMap(m, n, n)
    ensures var e := Some(Mapping(n * PAGE_SIZE, true, false));
            m' == m[n := e][KERNEL_PAGE + n := e] ==> DirectMap(m', n + 1, n + 1)
  {
  }

  // Identity and kernel-half mapping, then the bump pointer above them. It stays 0, and
  // batches are refused, when the direct map reaches into the last 4 MiB.
  method Init(s: AddressSpace, kernelEnd: nat, base: nat, totalPages: nat) returns (mapEnd: nat)
    requires s.Valid() && s.View() == seq(PAGES, _ => None) && !s.ready && s.next == 0 && Tables(s.pd[..]) == {}
    modifies s`mem, s`free, s`next, s`ready, s.pd
    ensures s.Valid() && mapEnd == MapEnd(kernelEnd, PmmEnd(base, totalPages))
    ensures 0x100_0000 <= mapEnd <= 0x4000_0000 && mapEnd % PAGE_SIZE == 0
    ensures mapEnd < 0x4000_0000 ==> kernelEnd <= mapEnd && PmmEnd(base, totalPages) <= mapEnd
    ensures mapEnd == 0x100_0000 || mapEnd < kernelEnd + PAGE_SIZE || mapEnd < PmmEnd(base, totalPages) + PAGE_SIZE
    ensures s.ready <==> |old(s.free)| >= 2 * TablesOf(mapEnd / PAGE_SIZE)
    ensures s.ready ==>
      && DirectMap(s.View(), mapEnd / PAGE_SIZE, mapEnd / PAGE_SIZE)
      && Built(s.pd[..], s.free, mapEnd / PAGE_SIZE, mapEnd / PAGE_SIZE, |old(s.free)|)
      && s.next == BumpStart(mapEnd)
    ensures s.free + Tables(s.pd[..]) == old(s.free)
    ensures if s.ready then (s.next == 0 <==> mapEnd > 0x3FC0_0000) else s.next == 0
    ensures s.ready && s.next != 0 ==>
      && s.next % PAGE_SIZE == 0 && s.next < WORD
      && s.next % 0x40_0000 == 0 && 0xC000_0000 + mapEnd <= s.next < 0xC000_0000 + mapEnd + 0x40_0000
      && Unmapped(s.View(), s.next / PAGE_SIZE, PAGES - s.next / PAGE_SIZE)
  {
    mapEnd := MapEnd(kernelEnd, PmmEnd(base, totalPages));
    NoneBuilt(s.pd[..], s.free);
    var ok := MapDirect(s, mapEnd / PAGE_SIZE);
    if ok {
      s.ready := true;
      s.next := BumpStart(mapEnd);
      AboveDirect(s.View(), mapEnd);
    }
  }

  // The whole direct map, page by page; stops when no frame is left for a table.
  method MapDirect(s: AddressSpace, pages: nat) returns (ok: bool)
    requires s.Valid() && DirectMap(s.View(), 0, 0) && Built(s.pd[..], s.free, 0, 0, |s.free|)
    requires pages <= 0x4_0000
    modifies s`mem, s`free, s.pd
    ensures s.Valid() && s.free + Tables(s.pd[..]) == old(s.free + Tables(s.pd[..]))
    ensures ok <==> |old(s.free)| >= 2 * TablesOf(pages)
    ensures ok ==> DirectMap(s.View(), pages, pages) && Built(s.pd[..], s.free, pages, pages, |old(s.free)|)
  {
    var n: nat := 0;
    ghost var total, frames := |s.free|, s.free + Tables(s.pd[..]);
    while n < pages
      invariant n <= pages && s.Valid() && s.free + Tables(s.pd[..]) == frames
      invariant DirectMap(s.View(), n, n) && Built(s.pd[..], s.free, n, n, total)
      modifies s`mem, s`free, s.pd
    {
      BuiltMore(n + 1, pages);
      ok := MapBoth(s, n, total);
      if !ok {
        return;
      }
      n := n + 1;
    }
    ok := true;
  }

  lemma AboveDirect(m: View, mapEnd: nat)
    requires |m| == PAGES && mapEnd <= 0x4000_0000 && mapEnd % PAGE_SIZE == 0
    requires DirectMap(m, mapEnd / PAGE_SIZE, mapEnd / PAGE_SIZE)
    ensures var next := BumpStart(mapEnd);
            next != 0 ==> Unmapped(m, next / PAGE_SIZE, PAGES - next / PAGE_SIZE)
  {
    var next := BumpStart(mapEnd);
    if next != 0 {
      assert next / PAGE_SIZE >= KERNEL_PAGE + mapEnd / PAGE_SIZE;
    }
  }

  lemma NoneBuilt(d: seq<nat>, F: set<nat>)
    requires |d| == ENTRIES && Tables(d) == {}
    ensures Built(d, F, 0, 0, |F|)
  {
    forall i: nat | i < ENTRIES ensures !Present(d[i]) {
      InTables(d, i);
    }
  }

  lemma InTables(d: seq<nat>, i: nat)
    requires i < |d|
    ensures Present(d[i]) ==> Frame(d[i]) in Tables(d)
  {
  }

  // The first 4 MiB boundary above the direct map, modulo 2^32.
  function BumpStart(mapEnd: nat): (b: nat)
    requires mapEnd <= 0x4000_0000
    ensures b == 0 <==> mapEnd > 0x3FC0_0000
    ensures b != 0 ==> b % PAGE_SIZE == 0 && b < WORD
    ensures b != 0 ==> b % 0x40_0000 == 0 && 0xC000_0000 + mapEnd <= b < 0xC000_0000 + mapEnd + 0x40_0000
  {
    var top := (0xC000_0000 + mapEnd) % WORD;
    var w := (top + LARGE - 1) % WORD;
    TopRounds(0xC000_0000 + mapEnd);
    w - w % LARGE
  }

  lemma TopRounds(t: nat)
    requires 0xC000_0000 <= t <= WORD
    ensures var w := (t % WORD + LARGE - 1) % WORD;
            && (w - w % LARGE == 0 <==> t > WORD - LARGE)
            && (w - w % LARGE != 0 ==>
                  (w - w % LARGE) % PAGE_SIZE == 0 && (w - w % LARGE) % LARGE == 0
                  && t <= w - w % LARGE < WORD && w - w % LARGE < t + LARGE)
  {
    var w := (t % WORD + LARGE - 1) % WORD;
    if t <= WORD - LARGE {
      assert w == t + LARGE - 1;
      WholeLarge(w / LARGE);
      assert w - w % LARGE == w / LARGE * LARGE;
    } else {
      assert w < LARGE;
    }
  }

  lemma WholeLarge(q: nat)
    ensures q * LARGE % PAGE_SIZE == 0 && q * LARGE % LARGE == 0
  {
    assert q * LARGE == q * 1024 * PAGE_SIZE;
  }

  // Once the identity half is dropped, exactly the kernel half's direct map is left.
  lemma OnlyDirectMapLeft(m: View, m': View, n: nat)
    requires |m| == |m'| == PAGES && n <= 0x4_0000 && DirectMap(m, n, n)
    requires forall u: nat | u < PAGES :: m'[u] == if u < 768 * ENTRIES then None else m[u]
    ensures DirectMap(m', 0, n)
  {
  }

  // The kernel half maps the page at physical address a.
  ghost predicate Reaches(m: View, a: nat) {
    KERNEL_PAGE + a / PAGE_SIZE < |m| && m[KERNEL_PAGE + a / PAGE_SIZE] == Some(Mapping(a, true, false))
  }

  lemma DirectReaches(m: View, e: nat, a: nat)
    requires |m| == PAGES && e % PAGE_SIZE == 0 && e <= 0x4000_0000 && a % PAGE_SIZE == 0
    requires DirectMap(m, e / PAGE_SIZE, e / PAGE_SIZE)
    ensures Reaches(m, a) <==> a < e
  {
    assert a == a / PAGE_SIZE * PAGE_SIZE && e == e / PAGE_SIZE * PAGE_SIZE;
    assert a / PAGE_SIZE < e / PAGE_SIZE <==> a < e;
  }
}
