// The buddy backend behind the page interface, and what its block lists always satisfy.
module BuddyPmm {
  import opened Prelude
  import opened BuddyBlocks
  import opened BuddyZone
  import opened PageSet

  // Physical addresses of the pages in F, for a zone of n pages at `base`.
  ghost function AddressesOf(F: set<nat>, base: nat, n: nat): set<nat> {
    set a: nat | base <= a < base + n * PAGE_SIZE && a % PAGE_SIZE == 0 && (a - base) / PAGE_SIZE in F
  }

  lemma AddressesChange(F: set<nat>, base: nat, n: nat, p: nat)
    requires base % PAGE_SIZE == 0 && p < n
    ensures (base + p * PAGE_SIZE in AddressesOf(F, base, n)) <==> p in F
    ensures AddressesOf(F + {p}, base, n) == AddressesOf(F, base, n) + {base + p * PAGE_SIZE}
    ensures AddressesOf(F - {p}, base, n) == AddressesOf(F, base, n) - {base + p * PAGE_SIZE}
  {
    assert (base + p * PAGE_SIZE - base) / PAGE_SIZE == p;
    forall a: nat | a >= base && a % PAGE_SIZE == 0 ensures (a - base) / PAGE_SIZE == p <==> a == base + p * PAGE_SIZE {
    }
  }

  lemma WholePages(page: nat, base: nat)
    requires page >= base && page % PAGE_SIZE == 0 && base % PAGE_SIZE == 0
    ensures page == base + (page - base) / PAGE_SIZE * PAGE_SIZE
  {
    assert (page - base) % PAGE_SIZE == 0;
  }

  // Every page outside F has a record of order 0.
  ghost predicate OrdersZero(f: seq<PageInfo>, F: set<nat>) {
    forall i | 0 <= i < |f| && i !in F :: f[i].order == 0
  }

  lemma SinglePage(p: nat)
    ensures Block(Up(p, 0), 0) == {p} && Aligned(p, 0)
  {
  }

  class Pmm {
    const zone: Zone
    const base: nat   // physical address of page 0

    // The page interface holds single pages only.
    ghost predicate Valid()
      reads this, zone, zone.links, zone.info, zone.freeCount
    {
      && zone.Valid() && base > 0 && base % PAGE_SIZE == 0 && base + zone.total * PAGE_SIZE <= WORD
      && OrdersZero(zone.info[..], zone.free)
    }

    ghost function Managed(): set<nat> {
      set a: nat | base <= a < base + zone.total * PAGE_SIZE && a % PAGE_SIZE == 0
    }

    ghost function FreePages(): set<nat>
      reads zone
    {
      AddressesOf(zone.free, base, zone.total)
    }

    constructor (managedStart: nat, managedPages: nat)
      requires managedStart > 0 && managedStart % PAGE_SIZE == 0
      requires managedStart + managedPages * PAGE_SIZE <= WORD
      ensures Valid() && FreePages() == Managed() && base == managedStart && zone.total == managedPages
      ensures fresh(zone) && fresh(zone.links) && fresh(zone.info) && fresh(zone.freeCount)
    {
      zone := new Zone(managedPages);
      base := managedStart;
    }

    method AllocPage() returns (page: nat)
      requires Valid()
      modifies zone, zone.links, zone.info, zone.freeCount
      ensures Valid() && AllocStep(old(FreePages()), page, FreePages())
    {
      EmptyTogether();
      page := 0;
      if zone.totalFree == 0 {
        return;
      }
      ghost var f, F := zone.info[..], zone.free;
      var r := zone.Alloc(0);
      NoneWhenEmpty(F);
      if r.None? {
        return;
      }
      SinglePage(r.value);
      StillZero(f, zone.info[..], F, r.value);
      page := base + r.value * PAGE_SIZE;
      AddressesChange(old(zone.free), base, zone.total, r.value);
    }

    lemma EmptyTogether()
      requires Valid()
      ensures FreePages() == {} <==> zone.free == {}
      ensures zone.totalFree == 0 <==> zone.free == {}
    {
      if p: nat :| p in zone.free {
        AddressesChange(zone.free, base, zone.total, p);
      }
    }

    lemma WhichPage(page: nat)
      requires base % PAGE_SIZE == 0 && base <= page && page % PAGE_SIZE == 0
      ensures var i := (page - base) / PAGE_SIZE;
              && page == base + i * PAGE_SIZE && (page in Managed() <==> i < zone.total)
              && (page in FreePages() <==> i < zone.total && i in zone.free)
    {
      WholePages(page, base);
    }

    // The page index, unless the address is refused.
    method Accepted(page: nat) returns (idx: Option<nat>)
      requires Valid()
      ensures idx.Some? ==>
        && page == base + idx.value * PAGE_SIZE && page in Managed()
        && idx.value < zone.total && !zone.info[idx.value].isFree
      ensures idx.None? ==> page !in Managed() || page in FreePages()
    {
      if page == 0 || page % PAGE_SIZE != 0 || page < base {
        return None;
      }
      var i := (page - base) / PAGE_SIZE;
      WhichPage(page);
      if i >= zone.total {
        return None;
      }
      if zone.info[i].isFree {
        FlaggedIsFree(zone, i);
        return None;
      }
      idx := Some(i);
    }

    // The free flag stands only on the first page of a free block, so the double-free test
    // is exact there and for held pages; callers must not free the inside of a free block.
    method FreePage(page: nat)
      requires Valid()
      requires forall i | 0 <= i < zone.total && i in zone.free && page == base + i * PAGE_SIZE :: zone.info[i].isFree
      modifies zone, zone.links, zone.info, zone.freeCount
      ensures Valid() && FreeStep(Managed(), old(FreePages()), page, FreePages())
    {
      var idx := Accepted(page);
      if idx.Some? {
        AddressesChange(zone.free, base, zone.total, idx.value);
        SinglePage(idx.value);
        zone.Free(idx.value, zone.info[idx.value].order);
      }
    }
  }

  lemma NoneWhenEmpty(F: set<nat>)
    ensures (forall q: nat :: !Full(F, q, 0)) <==> F == {}
  {
    if p: nat :| p in F {
      assert Full(F, p, 0);
    }
    if q: nat :| Full(F, q, 0) {
      assert Up(q, 0) == q;
    }
  }

  lemma StillZero(f: seq<PageInfo>, f': seq<PageInfo>, F: set<nat>, p: nat)
    requires OrdersZero(f, F) && SameHeld(f, f', F) && p < |f'| && f'[p].order == 0
    ensures OrdersZero(f', F - {p})
  {
  }

  // A page that is not free is not the address of a free index.
  lemma PageOf(p: Pmm, page: nat)
    requires p.Valid() && page !in p.FreePages()
    ensures forall i | 0 <= i < p.zone.total && i in p.zone.free :: page != p.base + i * PAGE_SIZE
  {
    forall i: nat | i < p.zone.total && i in p.zone.free ensures page != p.base + i * PAGE_SIZE {
      AddressesChange(p.zone.free, p.base, p.zone.total, i);
    }
  }

  lemma FlaggedIsFree(z: Zone, idx: nat)
    requires z.Valid() && idx < z.total && z.info[idx].isFree
    ensures idx in z.free
  {
    assert FreeBlock(z.free, idx, z.info[idx].order);
  }

  // ---- properties of every valid zone ----

  // Blocks are aligned to their size, lie inside the zone, and a listed block below the
  // largest order never has its buddy listed beside it.
  lemma ListedBlocks(z: Zone, k: nat, i: nat)
    requires z.Valid() && k <= MAX_ORDER && i in z.lists[k]
    ensures Pow2(k) > 0 && i % Pow2(k) == 0 && i + Pow2(k) <= z.total
    ensures |z.lists| == 11 && k <= 10 && (k < 10 ==> BitXor(i, Pow2(k)) !in z.lists[k])
    ensures forall p: nat | i <= p < i + Pow2(k) :: p in z.free
  {
    AlignedIsMultiple(i, k);
    assert FreeBlock(z.free, i, k);
    forall p: nat | i <= p < i + Pow2(k) ensures p in z.free {
      UpOfRange(Up(i, k), k, p);
    }
    assert i + Pow2(k) - 1 in z.free;
    if k < MAX_ORDER {
      BuddyAndParent(i, k);
      BuddiesNotBothFree(z.free, Up(i, k), k);
    }
  }

  // Distinct listed blocks are disjoint, and together they hold exactly the free pages.
  lemma BlocksPartitionFree(z: Zone, p: nat) returns (k: nat, i: nat)
    requires z.Valid() && p in z.free
    ensures k <= MAX_ORDER && i in z.lists[k] && i <= p < i + Pow2(k)
    ensures forall j: nat, h: nat | j <= MAX_ORDER && h in z.lists[j] && h <= p < h + Pow2(j) :: j == k && h == i
  {
    k := PageInBlock(z.free, p);
    i := Head(Up(p, k), k);
    BlockIsRange(p, k);
    forall j: nat, h: nat | j <= MAX_ORDER && h in z.lists[j] && h <= p < h + Pow2(j) ensures j == k && h == i {
      assert FreeBlock(z.free, h, j);
      UpOfRange(Up(h, j), j, p);
      MaximalUnique(z.free, p, j, k);
    }
  }

  // The counter is the number of free pages, the weight of the lists, and the zone size
  // less the held pages.
  lemma CountsAgree(z: Zone)
    requires z.Valid()
    ensures z.totalFree == |z.free| == Weighted(z.lists, MAX_ORDER + 1) == z.total - |Pages(z.total) - z.free|
  {
    assert z.free <= Pages(z.total);
  }

  // The layout is a function of the free set alone.
  lemma SameFreeSameBlocks(a: Zone, b: Zone, k: nat)
    requires a.Valid() && b.Valid() && a.free == b.free && k <= MAX_ORDER
    ensures multiset(a.lists[k]) == multiset(b.lists[k])
  {
    forall i: nat ensures multiset(a.lists[k])[i] == multiset(b.lists[k])[i] {
      assert i in a.lists[k] <==> i in b.lists[k];
      CountOnce(a.lists[k], i);
      CountOnce(b.lists[k], i);
    }
  }

  lemma {:induction false} CountOnce(s: seq<nat>, x: nat)
    requires forall i, j | 0 <= i < j < |s| :: s[i] != s[j]
    ensures multiset(s)[x] == if x in s then 1 else 0
  {
    if s != [] {
      assert s == s[..|s| - 1] + [s[|s| - 1]];
      CountOnce(s[..|s| - 1], x);
    }
  }

  // ---- clients that hold blocks of any order ----

  datatype Extent = Extent(page: nat, order: nat)

  ghost function PagesOf(e: Extent): set<nat> {
    Block(Up(e.page, e.order), e.order)
  }

  predicate Proper(e: Extent) {
    e.order <= MAX_ORDER && Aligned(e.page, e.order)
  }

  ghost predicate Covered(held: set<Extent>, p: nat) {
    exists e :: e in held && p in PagesOf(e)
  }

  // Aligned blocks without a page in common that hold exactly these pages.
  ghost predicate Tiles(held: set<Extent>, pages: set<nat>) {
    && (forall e <- held :: Proper(e))
    && (forall e, f | e in held && f in held && e != f :: PagesOf(e) !! PagesOf(f))
    && (forall p: nat :: p in pages <==> Covered(held, p))
  }

  lemma TilesAdd(held: set<Extent>, pages: set<nat>, e: Extent)
    requires Tiles(held, pages) && Proper(e) && PagesOf(e) !! pages
    ensures Tiles(held + {e}, pages + PagesOf(e))
  {
    forall f, g | f in held + {e} && g in held + {e} && f != g ensures PagesOf(f) !! PagesOf(g) {
      ApartAdd(held, pages, e, f, g);
    }
    forall p: nat ensures p in pages + PagesOf(e) <==> Covered(held + {e}, p) {
      CoveredAdd(held, e, p);
    }
  }

  lemma ApartAdd(held: set<Extent>, pages: set<nat>, e: Extent, f: Extent, g: Extent)
    requires Tiles(held, pages) && PagesOf(e) !! pages && f in held + {e} && g in held + {e} && f != g
    ensures PagesOf(f) !! PagesOf(g)
  {
    if f == e {
      OwnPages(held, pages, g);
    } else if g == e {
      OwnPages(held, pages, f);
    }
  }

  lemma CoveredAdd(held: set<Extent>, e: Extent, p: nat)
    ensures Covered(held + {e}, p) <==> Covered(held, p) || p in PagesOf(e)
  {
    if Covered(held, p) {
      var f :| f in held && p in PagesOf(f);
      assert f in held + {e};
    }
    assert e in held + {e};
  }

  lemma OwnPages(held: set<Extent>, pages: set<nat>, e: Extent)
    requires Tiles(held, pages) && e in held
    ensures PagesOf(e) <= pages
  {
    forall p | p in PagesOf(e) ensures Covered(held, p) {
    }
  }

  lemma TilesRemove(held: set<Extent>, pages: set<nat>, e: Extent)
    requires Tiles(held, pages) && e in held
    ensures PagesOf(e) <= pages && Tiles(held - {e}, pages - PagesOf(e))
  {
    OwnPages(held, pages, e);
    forall p: nat ensures p in pages - PagesOf(e) <==> Covered(held - {e}, p) {
      CoveredRemove(held, pages, e, p);
    }
  }

  lemma CoveredRemove(held: set<Extent>, pages: set<nat>, e: Extent, p: nat)
    requires Tiles(held, pages) && e in held
    ensures Covered(held - {e}, p) <==> Covered(held, p) && p !in PagesOf(e)
  {
    if Covered(held - {e}, p) {
      var f :| f in held - {e} && p in PagesOf(f);
      assert PagesOf(e) !! PagesOf(f);
    }
    if Covered(held, p) && p !in PagesOf(e) {
      var f :| f in held && p in PagesOf(f);
      assert f in held - {e};
    }
  }

  // A block is never empty, so one off the pages held is not held.
  lemma NewBlock(held: set<Extent>, pages: set<nat>, e: Extent)
    requires Tiles(held, pages) && PagesOf(e) !! pages
    ensures e !in held
  {
    InBlock(Up(e.page, e.order), e.order, e.page);
    assert e.page in PagesOf(e);
    if e in held {
      OwnPages(held, pages, e);
    }
  }

  // What the client holds is everything that is not free.
  ghost predicate Client(z: Zone, held: set<Extent>)
    reads z, z.links, z.info, z.freeCount
  {
    z.Valid() && Tiles(held, Pages(z.total) - z.free)
  }

  datatype Op = Take(order: nat) | Release(e: Extent)

  // A request fails exactly when no aligned block of that size is wholly free.
  method TakeBlock(z: Zone, ghost held: set<Extent>, order: nat) returns (r: Option<nat>)
    requires Client(z, held) && order <= MAX_ORDER
    modifies z, z.links, z.info, z.freeCount
    ensures Client(z, if r.Some? then held + {Extent(r.value, order)} else held)
    ensures r.None? <==> forall q: nat :: !Full(old(z.free), q, order)
    ensures if r.None? then z.free == old(z.free) else
      var e := Extent(r.value, order);
      && Proper(e) && PagesOf(e) <= old(z.free) && z.free == old(z.free) - PagesOf(e) && e !in held
  {
    r := z.Alloc(order);
    if r.Some? {
      ghost var e := Extent(r.value, order);
      Outgrown(z.total, old(z.free), PagesOf(e));
      TilesAdd(held, Pages(z.total) - old(z.free), e);
      NewBlock(held, Pages(z.total) - old(z.free), e);
    }
  }

  method ReleaseBlock(z: Zone, ghost held: set<Extent>, e: Extent)
    requires Client(z, held) && e in held
    modifies z, z.links, z.info, z.freeCount
    ensures Client(z, held - {e}) && z.free == old(z.free) + PagesOf(e)
  {
    TilesRemove(held, Pages(z.total) - z.free, e);
    Returned(z.total, z.free, PagesOf(e));
    z.Free(e.page, e.order);
  }

  lemma Outgrown(n: nat, F: set<nat>, B: set<nat>)
    requires B <= F && forall p <- F :: p < n
    ensures B !! Pages(n) - F && Pages(n) - F + B == Pages(n) - (F - B)
  {
  }

  lemma Returned(n: nat, F: set<nat>, B: set<nat>)
    requires B <= Pages(n) - F
    ensures Pages(n) - F - B == Pages(n) - (F + B)
    ensures forall p <- B :: p < n && p !in F
  {
  }

  // The free pages and the blocks held at one moment of a run.
  datatype Moment = Moment(free: set<nat>, held: set<Extent>)

  // A request moves one wholly free aligned block of its order to the blocks held, exactly if
  // there is one; releasing a block held makes its pages free again.
  ghost predicate Did(op: Op, x: Moment, y: Moment, r: Option<nat>) {
    match op
    case Take(order) =>
      && (r.None? <==> forall q: nat :: !Full(x.free, q, order))
      && if r.None? then y == x
         else var e := Extent(r.value, order);
              && Proper(e) && PagesOf(e) <= x.free && e !in x.held
              && y == Moment(x.free - PagesOf(e), x.held + {e})
    case Release(e) =>
      y == if e in x.held then Moment(x.free + PagesOf(e), x.held - {e}) else x
  }

  ghost predicate DidAt(ops: seq<Op>, trace: seq<Moment>, rs: seq<Option<nat>>, i: nat)
    requires i < |ops| && i < |rs| && i + 1 < |trace|
  {
    Did(ops[i], trace[i], trace[i + 1], rs[i])
  }

  ghost predicate Traced(ops: seq<Op>, trace: seq<Moment>, rs: seq<Option<nat>>) {
    |trace| == |ops| + 1 && |rs| == |ops| && forall i: nat | i < |ops| :: DidAt(ops, trace, rs, i)
  }

  lemma TracedNext(ops: seq<Op>, i: nat, trace: seq<Moment>, rs: seq<Option<nat>>, y: Moment, r: Option<nat>)
    requires i < |ops| && Traced(ops[..i], trace, rs) && Did(ops[i], trace[i], y, r)
    ensures Traced(ops[..i + 1], trace + [y], rs + [r])
  {
    var done, trace', rs' := ops[..i + 1], trace + [y], rs + [r];
    forall k: nat | k < |done| ensures DidAt(done, trace', rs', k) {
      assert k < i ==> DidAt(ops[..i], trace, rs, k);
    }
  }

  method Step(z: Zone, held: set<Extent>, op: Op) returns (held': set<Extent>, r: Option<nat>)
    requires Client(z, held) && (op.Take? ==> op.order <= MAX_ORDER)
    modifies z, z.links, z.info, z.freeCount
    ensures Client(z, held') && Did(op, Moment(old(z.free), held), Moment(z.free, held'), r)
  {
    held', r := held, None;
    match op {
      case Take(order) =>
        r := TakeBlock(z, held, order);
        held' := if r.Some? then held + {Extent(r.value, order)} else held;
      case Release(e) =>
        if e in held {
          ReleaseBlock(z, held, e);
          held' := held - {e};
        }
    }
  }

  // In every run the blocks held are disjoint and, with the free pages, make up the zone, and
  // every step does what its operation says.
  method Run(z: Zone, held: set<Extent>, ops: seq<Op>)
    returns (held': set<Extent>, rs: seq<Option<nat>>, ghost trace: seq<Moment>)
    requires Client(z, held) && forall op <- ops :: op.Take? ==> op.order <= MAX_ORDER
    modifies z, z.links, z.info, z.freeCount
    ensures Client(z, held') && Traced(ops, trace, rs)
    ensures trace[0] == Moment(old(z.free), held) && trace[|ops|] == Moment(z.free, held')
  {
    held', rs, trace := held, [], [Moment(z.free, held)];
    var n: nat := 0;
    while n < |ops|
      invariant n <= |ops| && Client(z, held') && Traced(ops[..n], trace, rs)
      invariant trace[0] == Moment(old(z.free), held) && trace[n] == Moment(z.free, held')
    {
      var r;
      held', r := Step(z, held', ops[n]);
      TracedNext(ops, n, trace, rs, Moment(z.free, held'), r);
      rs, trace := rs + [r], trace + [Moment(z.free, held')];
      n := n + 1;
    }
    assert ops[..n] == ops;
  }

  // Releasing every held block, in any order, restores the blocks of a freshly carved zone.
  method FreeAll(z: Zone, held: seq<Extent>)
    requires Client(z, Elems(held)) && forall i, j | 0 <= i < j < |held| :: held[i] != held[j]
    modifies z, z.links, z.info, z.freeCount
    ensures z.Valid() && z.free == Pages(z.total)
    ensures forall k: nat, i: nat | k <= MAX_ORDER :: i in z.lists[k] <==> FreeBlock(Pages(z.total), i, k)
  {
    var n := 0;
    ghost var left := Elems(held);
    assert held[0..] == held;
    while n < |held|
      invariant n <= |held| && Client(z, left) && left == Elems(held[n..])
    {
      TailWithout(held, n);
      ReleaseBlock(z, left, held[n]);
      left := left - {held[n]};
      n := n + 1;
    }
    NothingHeld(z.total, z.free);
  }

  lemma TailWithout(s: seq<Extent>, n: nat)
    requires n < |s| && forall i, j | 0 <= i < j < |s| :: s[i] != s[j]
    ensures s[n] in Elems(s[n..]) && Elems(s[n + 1..]) == Elems(s[n..]) - {s[n]}
  {
    assert s[n..] == [s[n]] + s[n + 1..];
  }

  lemma NothingHeld(n: nat, F: set<nat>)
    requires Tiles({}, Pages(n) - F) && forall p <- F :: p < n
    ensures F == Pages(n)
  {
    forall p: nat | p in Pages(n) ensures p in F {
      assert p in Pages(n) - F <==> Covered({}, p);
    }
  }

  // The free flag misses exactly the pages inside a free block: such a page is free but is
  // reported as used, and freeing it again would not be noticed.
  lemma FlagMissesInterior(F: set<nat>, p: nat)
    requires p in F
    ensures (exists k: nat :: FreeBlock(F, p, k)) <==>
            !(exists k: nat, i: nat :: FreeBlock(F, i, k) && i < p < i + Pow2(k))
  {
    var k := PageInBlock(F, p);
    var h := Head(Up(p, k), k);
    BlockIsRange(p, k);
    forall j: nat, i: nat | FreeBlock(F, i, j) && i <= p < i + Pow2(j) ensures i == h && j == k {
      UpOfRange(Up(i, j), j, p);
      MaximalUnique(F, p, j, k);
    }
    forall j: nat | FreeBlock(F, p, j) ensures p == h && j == k {
      PowPositive(j);
    }
  }

  lemma FreshZonePageOneLooksUsed()
    ensures 1 in Pages(16) && forall k: nat :: !FreeBlock(Pages(16), 1, k)
  {
    assert Up(0, 4) == 0 && Head(0, 4) == 0 && Pow2(4) == 16;
    FitsIsFull(16, 0, 4);
    assert Up(0, 5) == 0 && Head(0, 5) == 0 && Pow2(5) == 32;
    FitsIsFull(16, 0, 5);
    assert FreeBlock(Pages(16), 0, 4);
    FlagMissesInterior(Pages(16), 1);
  }
}
