// Which managed pages the kernel can reach through its direct map. The map ends where
// managed memory would end if it had no gaps, so with gaps its last pages may be missing.
module VmmCoverage {
  import opened Prelude
  import opened BitmapRegion
  import opened BitmapPmm
  import opened BitmapInit
  import opened BitmapBuild
  import PageTables
  import opened VmmBoot

  // ---- the pages of several regions ----

  ghost function Span(base: nat, n: nat): set<nat> {
    set i: nat | i < n :: base + i * PAGE_SIZE
  }

  lemma {:induction false} SpanSize(base: nat, n: nat)
    ensures |Span(base, n)| == n
  {
    if n > 0 {
      SpanSize(base, n - 1);
      SpanNext(base, n - 1);
    }
  }

  lemma SpanNext(base: nat, n: nat)
    ensures Span(base, n + 1) == Span(base, n) + {base + n * PAGE_SIZE}
    ensures base + n * PAGE_SIZE !in Span(base, n)
  {
    forall i: nat | i < n ensures base + i * PAGE_SIZE in Span(base, n + 1) {
      assert i < n + 1;
    }
    assert n < n + 1;
  }

  lemma InSpan(base: nat, n: nat, a: nat)
    requires base % PAGE_SIZE == 0
    ensures a in Span(base, n) <==> base <= a < base + n * PAGE_SIZE && a % PAGE_SIZE == 0
  {
    if base <= a < base + n * PAGE_SIZE && a % PAGE_SIZE == 0 {
      var i := (a - base) / PAGE_SIZE;
      assert (a - base) % PAGE_SIZE == 0;
      assert i < n && a == base + i * PAGE_SIZE;
    }
  }

  // The pages of all regions, as many as their page counts add up to.
  lemma {:induction false} PageTotal(rs: seq<Region>) returns (S: set<nat>)
    requires RegionsOk(rs)
    ensures |S| == SumPages(rs) && forall a: nat :: a in S <==> ManagedAt(rs, a)
  {
    S := {};
    if rs != [] {
      var last, front := rs[|rs| - 1], rs[..|rs| - 1];
      var S0 := PageTotal(front);
      var own := Span(last.base, last.pages);
      SpanSize(last.base, last.pages);
      S := S0 + own;
      forall a: nat ensures a in own <==> Holds(last, a) {
        InSpan(last.base, last.pages, a);
      }
      forall a: nat ensures ManagedAt(rs, a) <==> ManagedAt(front, a) || Holds(last, a) {
        LastHolds(rs, a);
      }
      assert S0 !! own;
    }
  }

  // ---- where managed memory starts and ends ----

  ghost predicate Lowest(rs: seq<Region>, lo: nat) {
    (exists k :: 0 <= k < |rs| && rs[k].base == lo) && forall k | 0 <= k < |rs| :: lo <= rs[k].base
  }

  ghost predicate Highest(rs: seq<Region>, hi: nat) {
    && (exists k :: 0 <= k < |rs| && hi == rs[k].base + rs[k].pages * PAGE_SIZE)
    && forall k | 0 <= k < |rs| :: rs[k].base + rs[k].pages * PAGE_SIZE <= hi
  }

  ghost predicate Gapless(rs: seq<Region>, lo: nat, hi: nat) {
    forall a: nat | lo <= a < hi && a % PAGE_SIZE == 0 :: ManagedAt(rs, a)
  }

  method ManagedBase(p: Pmm) returns (lo: nat)
    requires p.Valid()
    ensures if p.regions == [] then lo == 0 else Lowest(p.regions, lo)
  {
    if |p.regions| == 0 {
      return 0;
    }
    lo := LowestBase(p.regions);
  }

  method LowestBase(rs: seq<Region>) returns (lo: nat)
    requires rs != [] && forall k | 0 <= k < |rs| :: rs[k].base > 0
    ensures Lowest(rs, lo)
  {
    lo := rs[0].base;
    var i := 1;
    while i < |rs|
      invariant 1 <= i <= |rs| && (exists k :: 0 <= k < i && rs[k].base == lo)
      invariant forall k | 0 <= k < i :: lo <= rs[k].base
    {
      if rs[i].base != 0 && rs[i].base < lo {
        lo := rs[i].base;
      }
      i := i + 1;
    }
  }

  // The computed end never passes the true one, and meets it exactly without gaps.
  lemma PmmEndExact(rs: seq<Region>, lo: nat, hi: nat)
    requires RegionsOk(rs) && Lowest(rs, lo) && Highest(rs, hi)
    ensures PmmEnd(lo, SumPages(rs)) <= hi && (PmmEnd(lo, SumPages(rs)) == hi <==> Gapless(rs, lo, hi))
    ensures PmmEnd(lo, SumPages(rs)) % PAGE_SIZE == 0
  {
    Bounds(rs, lo, hi);
    var n := (hi - lo) / PAGE_SIZE;
    WholeSpan(lo, hi);
    CountPages(rs, lo, hi, n);
    NoWrapBelow(lo, SumPages(rs), n);
  }

  lemma CountPages(rs: seq<Region>, lo: nat, hi: nat, n: nat)
    requires RegionsOk(rs) && Lowest(rs, lo) && Highest(rs, hi) && lo % PAGE_SIZE == 0 && lo + n * PAGE_SIZE == hi
    ensures SumPages(rs) <= n && (SumPages(rs) == n <==> Gapless(rs, lo, hi))
  {
    var S := PageTotal(rs);
    var all := WholeRange(lo, n);
    forall a | a in S ensures a in all {
      var k :| 0 <= k < |rs| && Holds(rs[k], a);
    }
    Subset(S, all);
    if |S| == |all| {
      SameSize(S, all);
    }
    if Gapless(rs, lo, hi) {
      assert S == all;
    }
  }

  lemma WholeRange(lo: nat, n: nat) returns (all: set<nat>)
    requires lo % PAGE_SIZE == 0
    ensures |all| == n && forall a: nat :: a in all <==> lo <= a < lo + n * PAGE_SIZE && a % PAGE_SIZE == 0
  {
    all := Span(lo, n);
    SpanSize(lo, n);
    forall a: nat ensures a in all <==> lo <= a < lo + n * PAGE_SIZE && a % PAGE_SIZE == 0 {
      InSpan(lo, n, a);
    }
  }

  lemma NoWrapBelow(lo: nat, k: nat, n: nat)
    requires k <= n && lo % PAGE_SIZE == 0 && lo + n * PAGE_SIZE < WORD
    ensures PmmEnd(lo, k) == lo + k * PAGE_SIZE && PmmEnd(lo, k) % PAGE_SIZE == 0
    ensures PmmEnd(lo, k) == lo + n * PAGE_SIZE <==> k == n
  {
    EndAligned(lo, k);
  }

  lemma SameSize(a: set<nat>, b: set<nat>)
    requires a <= b && |a| == |b|
    ensures a == b
  {
    assert b == a + (b - a);
    assert |b - a| == 0;
  }

  lemma Bounds(rs: seq<Region>, lo: nat, hi: nat)
    requires RegionsOk(rs) && Lowest(rs, lo) && Highest(rs, hi)
    ensures lo % PAGE_SIZE == 0 && hi % PAGE_SIZE == 0 && lo < hi < WORD
  {
    var k :| 0 <= k < |rs| && rs[k].base == lo;
    assert rs[k].Valid();
    LastManaged(rs, hi);
    WholeBelow(hi);
  }

  lemma WholeBelow(hi: nat)
    requires hi >= PAGE_SIZE && (hi - PAGE_SIZE) % PAGE_SIZE == 0
    ensures hi % PAGE_SIZE == 0
  {
  }

  lemma EndAligned(base: nat, n: nat)
    requires base % PAGE_SIZE == 0
    ensures (base + n * PAGE_SIZE) % PAGE_SIZE == 0
  {
  }

  lemma WholeSpan(lo: nat, hi: nat)
    requires lo % PAGE_SIZE == 0 && hi % PAGE_SIZE == 0 && lo <= hi
    ensures lo + (hi - lo) / PAGE_SIZE * PAGE_SIZE == hi
  {
    assert (hi - lo) % PAGE_SIZE == 0;
  }

  // ---- coverage ----

  function RoundUp(n: nat): nat {
    (n + PAGE_SIZE - 1) / PAGE_SIZE * PAGE_SIZE
  }

  // The direct map reaches every managed page exactly when managed memory ends within the
  // first GiB, and has no gaps or ends below what is mapped anyway.
  lemma ReachesAllManaged(rs: seq<Region>, lo: nat, hi: nat, kernelEnd: nat, m: seq<Option<PageTables.Mapping>>)
    requires RegionsOk(rs) && Lowest(rs, lo) && Highest(rs, hi) && |m| == PageTables.PAGES
    requires var n := MapEnd(kernelEnd, PmmEnd(lo, SumPages(rs))) / PAGE_SIZE; DirectMap(m, n, n)
    ensures (forall a: nat | ManagedAt(rs, a) :: Reaches(m, a))
            <==> hi <= 0x4000_0000 && (Gapless(rs, lo, hi) || hi <= 0x100_0000 || hi <= RoundUp(kernelEnd))
  {
    var e := MapEnd(kernelEnd, PmmEnd(lo, SumPages(rs)));
    PmmEndExact(rs, lo, hi);
    Bounds(rs, lo, hi);
    EndOfMap(kernelEnd, PmmEnd(lo, SumPages(rs)), hi);
    AllBelow(rs, hi, e);
    forall a: nat | ManagedAt(rs, a) ensures Reaches(m, a) <==> a < e {
      DirectReaches(m, e, a);
    }
  }

  lemma AllBelow(rs: seq<Region>, hi: nat, e: nat)
    requires RegionsOk(rs) && Highest(rs, hi) && hi % PAGE_SIZE == 0 && e % PAGE_SIZE == 0
    ensures (forall a: nat | ManagedAt(rs, a) :: a < e) <==> hi <= e
  {
    LastManaged(rs, hi);
    BelowHighest(hi, e);
  }

  lemma EndOfMap(kernelEnd: nat, pmmEnd: nat, hi: nat)
    requires hi % PAGE_SIZE == 0 && pmmEnd % PAGE_SIZE == 0 && pmmEnd <= hi
    ensures hi <= MapEnd(kernelEnd, pmmEnd)
            <==> hi <= 0x4000_0000 && (pmmEnd == hi || hi <= 0x100_0000 || hi <= RoundUp(kernelEnd))
  {
    RoundUpTo(pmmEnd, hi);
    RoundUpTo(kernelEnd, hi);
    RoundUpTo(0x100_0000, hi);
    RoundUpTo(0x4000_0000, hi);
  }

  lemma RoundUpTo(n: nat, hi: nat)
    requires hi % PAGE_SIZE == 0
    ensures n % PAGE_SIZE == 0 ==> RoundUp(n) == n
    ensures n <= hi ==> RoundUp(n) <= hi
  {
    var q, h := (n + PAGE_SIZE - 1) / PAGE_SIZE, hi / PAGE_SIZE;
    assert n <= hi ==> q <= h;
  }

  lemma LastManaged(rs: seq<Region>, hi: nat)
    requires RegionsOk(rs) && Highest(rs, hi)
    ensures PAGE_SIZE <= hi < WORD && ManagedAt(rs, hi - PAGE_SIZE) && (hi - PAGE_SIZE) % PAGE_SIZE == 0
    ensures forall a: nat | ManagedAt(rs, a) :: a < hi
  {
    var k :| 0 <= k < |rs| && hi == rs[k].base + rs[k].pages * PAGE_SIZE;
    assert rs[k].Valid();
    EndAligned(rs[k].base, rs[k].pages - 1);
    assert Holds(rs[k], hi - PAGE_SIZE);
  }

  lemma BelowHighest(hi: nat, e: nat)
    requires hi % PAGE_SIZE == 0 && e % PAGE_SIZE == 0 && hi >= PAGE_SIZE
    ensures hi - PAGE_SIZE < e <==> hi <= e
  {
  }

  // With a hole of one MiB below 16 MiB, the last MiB of managed memory is out of reach.
  method GapMissed(kernelEnd: nat) returns (p: Pmm, lo: nat, a: nat)
    requires kernelEnd <= 0x1F0_0000
    ensures fresh(p) && p.Valid() && p.totalPages == SumPages(p.regions) && Lowest(p.regions, lo)
    ensures a in p.freePages && MapEnd(kernelEnd, PmmEnd(lo, p.totalPages)) + 0xF_F000 == a
  {
    p := new Pmm();
    var r0 := InitAndFreeTail(0x10_0000, 0xE00, 1);
    var r1 := InitAndFreeTail(0x100_0000, 0x1000, 1);
    a := 0x1FF_F000;
    TwoRegions(r0, r1, a);
    p.regions := [r0, r1];
    RecomputeTotals(p);
    lo := ManagedBase(p);
    ShortOfEnd(kernelEnd);
  }

  lemma ShortOfEnd(kernelEnd: nat)
    requires kernelEnd <= 0x1F0_0000
    ensures MapEnd(kernelEnd, PmmEnd(0x10_0000, 0x1E00)) == 0x1F0_0000
  {
  }

  lemma TwoRegions(r0: Region, r1: Region, a: nat)
    requires FreedTo(r0, 0x10_0000, 0xE00, 1, 0xE00) && FreedTo(r1, 0x100_0000, 0x1000, 1, 0x1000) && a == 0x1FF_F000
    ensures RegionsOk([r0, r1]) && SumPages([r0, r1]) == 0x1E00 && FreeAt([r0, r1], a)
    ensures forall lo: nat | Lowest([r0, r1], lo) :: lo == 0x10_0000
  {
    var rs := [r0, r1];
    assert rs[..1] == [r0];
    assert SumPages([r0]) == SumPages([r0][..0]) + 0xE00;
    assert rs[0].base == 0x10_0000;
    assert Index(r1, a) == 0xFFF;
    assert FreeIn(rs[1], a);
  }

  // The buddy backend manages one zone without gaps.
  lemma ReachesWholeZone(base: nat, pages: nat, kernelEnd: nat, m: seq<Option<PageTables.Mapping>>)
    requires base % PAGE_SIZE == 0 && pages > 0 && base + pages * PAGE_SIZE < WORD && |m| == PageTables.PAGES
    requires var n := MapEnd(kernelEnd, PmmEnd(base, pages)) / PAGE_SIZE; DirectMap(m, n, n)
    ensures (forall i: nat | i < pages :: Reaches(m, base + i * PAGE_SIZE)) <==> base + pages * PAGE_SIZE <= 0x4000_0000
  {
    var e := MapEnd(kernelEnd, PmmEnd(base, pages));
    var hi := base + pages * PAGE_SIZE;
    EndAligned(base, pages);
    EndOfMap(kernelEnd, hi, hi);
    BelowHighest(hi, e);
    forall i: nat | i < pages ensures Reaches(m, base + i * PAGE_SIZE) <==> base + i * PAGE_SIZE < e {
      EndAligned(base, i);
      DirectReaches(m, e, base + i * PAGE_SIZE);
    }
    assert base + (pages - 1) * PAGE_SIZE == hi - PAGE_SIZE;
  }
}
