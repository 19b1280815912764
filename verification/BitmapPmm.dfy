// The bitmap backend: disjoint regions searched round-robin behind the page interface.
module BitmapPmm {
  import opened Prelude
  import opened PageSet
  import opened BitmapRegion
  import opened Arithmetic

  const MAX_REGIONS: nat := 32

  // ---- addresses ----

  ghost predicate Holds(r: Region, a: nat) {
    r.base <= a < r.base + r.pages * PAGE_SIZE && a % PAGE_SIZE == 0
  }

  function Index(r: Region, a: nat): nat
    requires r.base <= a
  {
    (a - r.base) / PAGE_SIZE
  }

  // Valid regions over pairwise disjoint address ranges.
  ghost predicate RegionsOk(rs: seq<Region>) {
    && (forall k | 0 <= k < |rs| :: rs[k].Valid())
    && (forall i, j | 0 <= i < j < |rs| ::
          rs[i].base + rs[i].pages * PAGE_SIZE <= rs[j].base || rs[j].base + rs[j].pages * PAGE_SIZE <= rs[i].base)
  }

  ghost predicate FreeIn(r: Region, a: nat) {
    Holds(r, a) && Index(r, a) in r.FreeSet()
  }

  ghost predicate FreeAt(rs: seq<Region>, a: nat) {
    exists k | 0 <= k < |rs| :: FreeIn(rs[k], a)
  }

  ghost predicate ManagedAt(rs: seq<Region>, a: nat) {
    exists k | 0 <= k < |rs| :: Holds(rs[k], a)
  }

  ghost function ManagedPages(rs: seq<Region>): set<nat> {
    set a: nat | a < WORD && ManagedAt(rs, a)
  }

  lemma IsManaged(rs: seq<Region>, a: nat)
    requires RegionsOk(rs)
    ensures a in ManagedPages(rs) <==> ManagedAt(rs, a)
  {
  }

  lemma ReleaseIsFree(rs: seq<Region>, F: set<nat>, page: nat, F': set<nat>)
    requires RegionsOk(rs) && F' == if ManagedAt(rs, page) then F + {page} else F
    ensures FreeStep(ManagedPages(rs), F, page, F')
  {
    IsManaged(rs, page);
  }

  // F is the set of addresses of the free pages of all regions.
  ghost predicate Addresses(rs: seq<Region>, F: set<nat>) {
    forall a: nat :: a in F <==> FreeAt(rs, a)
  }

  lemma PageAddress(r: Region, i: nat)
    requires r.base % PAGE_SIZE == 0 && i < r.pages
    ensures Holds(r, r.base + i * PAGE_SIZE) && Index(r, r.base + i * PAGE_SIZE) == i
  {
    assert (r.base + i * PAGE_SIZE - r.base) / PAGE_SIZE == i;
  }

  lemma AddressOfIndex(r: Region, a: nat)
    requires r.base % PAGE_SIZE == 0 && Holds(r, a)
    ensures a == r.base + Index(r, a) * PAGE_SIZE && Index(r, a) < r.pages
  {
    assert (a - r.base) % PAGE_SIZE == 0;
  }

  lemma HolderUnique(rs: seq<Region>, i: nat, j: nat, a: nat)
    requires RegionsOk(rs) && i < |rs| && j < |rs| && Holds(rs[i], a) && Holds(rs[j], a)
    ensures i == j
  {
  }

  lemma FreeOnlyByHolder(rs: seq<Region>, k: nat, a: nat)
    requires RegionsOk(rs) && k < |rs| && Holds(rs[k], a)
    ensures FreeAt(rs, a) <==> Index(rs[k], a) in rs[k].FreeSet()
  {
    forall j | 0 <= j < |rs| && Holds(rs[j], a) ensures j == k {
      HolderUnique(rs, j, k, a);
    }
  }

  // Replacing region k by one that differs only at page i leaves other addresses as they were.
  lemma StillFree(rs: seq<Region>, k: nat, r: Region, i: nat, b: nat)
    requires k < |rs| && SameExtent(rs[k], r) && b != r.base + i * PAGE_SIZE && r.base % PAGE_SIZE == 0
    requires forall x: nat | x != i :: x in rs[k].FreeSet() ==> x in r.FreeSet()
    requires FreeAt(rs, b)
    ensures FreeAt(rs[k := r], b)
  {
    var rs' := rs[k := r];
    var j :| 0 <= j < |rs| && FreeIn(rs[j], b);
    if j == k {
      AddressOfIndex(rs[j], b);
    }
    assert FreeIn(rs'[j], b);
  }

  lemma OtherAddress(rs: seq<Region>, k: nat, r: Region, i: nat, b: nat)
    requires k < |rs| && SameExtent(rs[k], r) && b != r.base + i * PAGE_SIZE && r.base % PAGE_SIZE == 0
    requires forall x: nat | x != i :: x in rs[k].FreeSet() <==> x in r.FreeSet()
    ensures FreeAt(rs[k := r], b) <==> FreeAt(rs, b)
  {
    if FreeAt(rs, b) {
      StillFree(rs, k, r, i, b);
    }
    if FreeAt(rs[k := r], b) {
      StillFree(rs[k := r], k, rs[k], i, b);
      assert rs[k := r][k := rs[k]] == rs;
    }
  }

  ghost predicate SameExtent(r: Region, r': Region) {
    r'.base == r.base && r'.pages == r.pages && r'.bitmapPages == r.bitmapPages
  }

  ghost predicate SameExtents(rs: seq<Region>, rs': seq<Region>) {
    |rs| == |rs'| && forall k | 0 <= k < |rs| :: SameExtent(rs[k], rs'[k])
  }

  lemma ReplaceOk(rs: seq<Region>, k: nat, r: Region)
    requires RegionsOk(rs) && k < |rs| && SameExtent(rs[k], r) && r.Valid()
    ensures RegionsOk(rs[k := r]) && SameExtents(rs, rs[k := r])
  {
  }

  // The whole invariant on values: valid disjoint regions, F the addresses of their free
  // pages, and the cached total exact.
  ghost predicate State(rs: seq<Region>, F: set<nat>, totalFree: nat) {
    RegionsOk(rs) && Addresses(rs, F) && totalFree == |F|
  }

  function PageAt(r: Region, i: nat): nat {
    r.base + i * PAGE_SIZE
  }

  // Changing one page of one region changes exactly its address.
  lemma ChangeOne(rs: seq<Region>, F: set<nat>, k: nat, i: nat, r: Region, F': set<nat>)
    requires RegionsOk(rs) && Addresses(rs, F) && k < |rs| && i < r.pages && SameExtent(rs[k], r) && r.Valid()
    requires forall x: nat | x != i :: x in rs[k].FreeSet() <==> x in r.FreeSet()
    requires forall b: nat | b != PageAt(r, i) :: b in F' <==> b in F
    requires PageAt(r, i) in F' <==> i in r.FreeSet()
    ensures PageAt(r, i) in F <==> i in rs[k].FreeSet()
    ensures State(rs[k := r], F', |F'|) && SameExtents(rs, rs[k := r])
  {
    PageAddress(r, i);
    ReplaceOk(rs, k, r);
    FreeOnlyByHolder(rs, k, PageAt(r, i));
    FreeOnlyByHolder(rs[k := r], k, PageAt(r, i));
    forall b: nat | b != PageAt(r, i) ensures FreeAt(rs[k := r], b) <==> FreeAt(rs, b) {
      OtherAddress(rs, k, r, i, b);
    }
  }

  lemma StateTake(rs: seq<Region>, F: set<nat>, total: nat, k: nat, i: nat)
    requires State(rs, F, total) && k < |rs| && i in rs[k].FreeSet()
    ensures total > 0 && PageAt(rs[k], i) > 0 && PageAt(rs[k], i) in F && rs[k].free > 0 && i / 8 < |rs[k].bitmap|
    ensures State(rs[k := Taken(rs[k], i)], F - {PageAt(rs[k], i)}, total - 1)
    ensures SameExtents(rs, rs[k := Taken(rs[k], i)])
  {
    TakeOne(rs[k], i);
    ChangeOne(rs, F, k, i, Taken(rs[k], i), F - {PageAt(rs[k], i)});
  }

  lemma StateGive(rs: seq<Region>, F: set<nat>, total: nat, k: nat, i: nat)
    requires State(rs, F, total) && k < |rs| && rs[k].bitmapPages <= i < rs[k].pages && i !in rs[k].FreeSet()
    ensures PageAt(rs[k], i) !in F && i / 8 < |rs[k].bitmap|
    ensures State(rs[k := Given(rs[k], i)], F + {PageAt(rs[k], i)}, total + 1)
    ensures SameExtents(rs, rs[k := Given(rs[k], i)])
  {
    GiveOne(rs[k], i);
    var a := PageAt(rs[k], i);
    ChangeOne(rs, F, k, i, Given(rs[k], i), F + {a});
    OneMore(F, a);
  }

  lemma Locate(rs: seq<Region>, F: set<nat>, total: nat, k: nat, a: nat)
    requires State(rs, F, total) && k < |rs| && Holds(rs[k], a)
    ensures var i := Index(rs[k], a);
            && i < rs[k].pages && i / 8 < |rs[k].bitmap| && a == PageAt(rs[k], i)
            && (rs[k].Used(i) <==> i !in rs[k].FreeSet()) && (rs[k].Used(i) <==> a !in F)
    ensures SameExtents(rs, rs)
  {
    AddressOfIndex(rs[k], a);
    FreeOnlyByHolder(rs, k, a);
  }

  // The region visited at step `o` of a search that starts at `start`.
  function Turn(start: nat, o: nat, n: nat): nat
    requires n > 0
  {
    (start + o) % n
  }

  lemma TurnReaches(start: nat, k: nat, n: nat) returns (o: nat)
    requires k < n
    ensures o < n && Turn(start, o, n) == k
  {
    var q, d := start / n, start % n;
    QuotientRemainder(start, n);
    if d <= k {
      o := k - d;
      RemainderOf(start + o, q, k, n);
    } else {
      o := n + k - d;
      NextMultiple(q, n);
      RemainderOf(start + o, q + 1, k, n);
    }
  }

  lemma NextMultiple(q: nat, n: nat)
    ensures (q + 1) * n == q * n + n
  {
  }

  // Region ri comes up in the search from `start`, and no region before it has a free page.
  ghost predicate FirstInTurn(rs: seq<Region>, start: nat, ri: nat)
    requires rs != []
  {
    exists off: nat :: Turn(start, off, |rs|) == ri && off < |rs| &&
                       forall o: nat | o < off :: rs[Turn(start, o, |rs|)].FreeSet() == {}
  }

  class Pmm {
    var regions: seq<Region>
    var rr: nat              // region the next search starts from
    var totalPages: nat
    var totalFree: nat
    ghost var freePages: set<nat>

    ghost predicate Valid()
      reads this
    {
      && |regions| <= MAX_REGIONS
      && State(regions, freePages, totalFree) && (totalPages == 0 ==> |regions| == 0)
    }

    ghost predicate Managed(a: nat)
      reads this
    {
      ManagedAt(regions, a)
    }

    constructor ()
      ensures Valid() && regions == [] && rr == 0 && totalPages == 0 && freePages == {}
    {
      regions, rr, totalPages, totalFree := [], 0, 0, 0;
      freePages := {};
    }

    // Round-robin search; with a page free somewhere it never comes back empty-handed. The
    // result is the lowest free page of the first region, in turn, that has one.
    method FindPage() returns (ri: nat, idx: nat)
      requires Valid() && freePages != {}
      ensures ri < |regions| && idx in regions[ri].FreeSet() && forall i <- regions[ri].FreeSet() :: idx <= i
      ensures FirstInTurn(regions, rr, ri)
    {
      ri, idx := 0, 0;
      var off: nat := 0;
      NoRegions(regions, freePages);
      while off < |regions|
        invariant off <= |regions|
        invariant forall o: nat | o < off :: regions[Turn(rr, o, |regions|)].FreeSet() == {}
      {
        ri := Turn(rr, off, |regions|);
        if regions[ri].free != 0 {
          var found;
          found, idx := FindFreeIndex(regions[ri]);
          if found {
            assert Turn(rr, off, |regions|) == ri;
            return;
          }
        }
        off := off + 1;
      }
      EveryRegionVisited(regions, rr, freePages);
      assert false;
    }

    method AllocPage() returns (page: nat)
      requires Valid()
      modifies this`rr, this`totalFree, this`freePages, this`regions
      ensures Valid() && AllocStep(old(freePages), page, freePages)
      ensures SameExtents(old(regions), regions)
      ensures page != 0 ==> rr < |old(regions)| && FirstInTurn(old(regions), old(rr), rr)
    {
      NoRegions(regions, freePages);
      page := 0;
      if |regions| != 0 && totalPages != 0 && totalFree != 0 {
        var ri, idx := FindPage();
        rr := ri;
        page := TakeFrom(ri, idx);
      }
    }

    method TakeFrom(ri: nat, idx: nat) returns (page: nat)
      requires Valid() && ri < |regions| && idx in regions[ri].FreeSet()
      modifies this`totalFree, this`freePages, this`regions
      ensures Valid() && page == PageAt(old(regions[ri]), idx) && page > 0 && page in old(freePages) && freePages == old(freePages) - {page}
      ensures SameExtents(old(regions), regions)
    {
      StateTake(regions, freePages, totalFree, ri, idx);
      page := PageAt(regions[ri], idx);
      var rs := regions[ri := Taken(regions[ri], idx)];
      ghost var F := freePages - {page};
      Replace(rs, F, totalFree - 1);
    }

    // The region holding an address; `|regions|` when it is unaligned or outside every region.
    method FindRegion(page: nat) returns (ri: nat)
      requires Valid()
      ensures ri <= |regions| && (ri < |regions| ==> Holds(regions[ri], page))
      ensures ri == |regions| ==> !Managed(page)
    {
      if page == 0 || page % PAGE_SIZE != 0 {
        return |regions|;
      }
      ri := 0;
      while ri < |regions|
        invariant ri <= |regions|
        invariant forall k | 0 <= k < ri :: !Holds(regions[k], page)
      {
        if regions[ri].pages != 0 && regions[ri].base <= page < regions[ri].base + regions[ri].pages * PAGE_SIZE {
          return;
        }
        ri := ri + 1;
      }
    }

    // Refused: NULL, unaligned, outside every region, or already free. Callers may not
    // hand back the bitmap's own pages.
    method FreePage(page: nat)
      requires Valid()
      requires forall k | 0 <= k < |regions| && Holds(regions[k], page) :: regions[k].bitmapPages <= Index(regions[k], page)
      modifies this`totalFree, this`freePages, this`regions
      ensures Valid() && FreeStep(ManagedPages(old(regions)), old(freePages), page, freePages)
      ensures SameExtents(old(regions), regions)
    {
      ghost var rs, F := regions, freePages;
      ReleasePage(page);
      ReleaseIsFree(rs, F, page, freePages);
    }

    method ReleasePage(page: nat)
      requires Valid()
      requires forall k | 0 <= k < |regions| && Holds(regions[k], page) :: regions[k].bitmapPages <= Index(regions[k], page)
      modifies this`totalFree, this`freePages, this`regions
      ensures Valid() && freePages == if old(Managed(page)) then old(freePages) + {page} else old(freePages)
      ensures SameExtents(old(regions), regions)
    {
      var ri := FindRegion(page);
      if ri < |regions| {
        GiveTo(ri, page);
      }
    }

    method GiveTo(ri: nat, page: nat)
      requires Valid() && ri < |regions| && Holds(regions[ri], page)
      requires regions[ri].bitmapPages <= Index(regions[ri], page)
      modifies this`totalFree, this`freePages, this`regions
      ensures Valid() && freePages == old(freePages) + {page}
      ensures SameExtents(old(regions), regions)
    {
      var idx := Index(regions[ri], page);
      Locate(regions, freePages, totalFree, ri, page);
      if regions[ri].Used(idx) {
        ClearPage(ri, idx);
      }
    }

    method ClearPage(ri: nat, idx: nat)
      requires Valid() && ri < |regions| && idx !in regions[ri].FreeSet()
      requires regions[ri].bitmapPages <= idx < regions[ri].pages
      modifies this`totalFree, this`freePages, this`regions
      ensures Valid() && freePages == old(freePages) + {PageAt(old(regions[ri]), idx)}
      ensures SameExtents(old(regions), regions)
    {
      StateGive(regions, freePages, totalFree, ri, idx);
      var rs := regions[ri := Given(regions[ri], idx)];
      ghost var F := freePages + {PageAt(regions[ri], idx)};
      Replace(rs, F, totalFree + 1);
    }

    method Replace(rs: seq<Region>, ghost F: set<nat>, total: nat)
      requires State(rs, F, total) && |rs| <= MAX_REGIONS && (totalPages == 0 ==> |rs| == 0)
      modifies this`totalFree, this`freePages, this`regions
      ensures Valid() && regions == rs && freePages == F && totalFree == total
    {
      regions, totalFree, freePages := rs, total, F;
    }
  }

  lemma NoRegions(rs: seq<Region>, F: set<nat>)
    requires Addresses(rs, F)
    ensures rs == [] ==> F == {}
  {
    if a: nat :| a in F {
      var k :| 0 <= k < |rs| && Holds(rs[k], a);
    }
  }

  // Starting anywhere and going round once reaches every region.
  lemma EveryRegionVisited(rs: seq<Region>, start: nat, F: set<nat>)
    requires rs != [] && Addresses(rs, F)
    requires forall o: nat | o < |rs| :: rs[Turn(start, o, |rs|)].FreeSet() == {}
    ensures F == {}
  {
    forall k: nat | k < |rs| ensures rs[k].FreeSet() == {} {
      var o := TurnReaches(start, k, |rs|);
    }
  }
}
