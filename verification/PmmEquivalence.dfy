// A client of either page allocator: it allocates, and releases pages it holds. The two
// backends hand out different pages, but which requests succeed depends on the number of
// free pages alone, so a client cannot tell them apart otherwise.
module PmmEquivalence {
  import opened Prelude
  import opened PageSet
  import opened BitmapRegion
  import BitmapPmm
  import BitmapInit
  import BuddyPmm

  // Release names a held page by its place in the order of acquisition.
  datatype Op = Alloc | Release(i: nat)

  // What the client holds: distinct pages, none of them free.
  ghost predicate Held(h: seq<nat>, F: set<nat>) {
    (forall k | 0 <= k < |h| :: h[k] !in F) && (forall i, j | 0 <= i < j < |h| :: h[i] != h[j])
  }

  // Answer and new numbers of free and held pages.
  function Expect(free: nat, held: nat, op: Op): (bool, nat, nat) {
    match op
    case Alloc => if free > 0 then (true, free - 1, held + 1) else (false, free, held)
    case Release(i) => if i < held then (true, free + 1, held - 1) else (false, free, held)
  }

  function ExpectAll(free: nat, held: nat, ops: seq<Op>): (seq<bool>, nat, nat)
    decreases |ops|
  {
    if ops == [] then ([], free, held) else
      var n := |ops| - 1;
      var (outs, f, h) := ExpectAll(free, held, ops[..n]);
      var (out, f', h') := Expect(f, h, ops[n]);
      (outs + [out], f', h')
  }

  lemma AllocHeld(h: seq<nat>, F: set<nat>, page: nat, F': set<nat>)
    requires Held(h, F) && AllocStep(F, page, F')
    ensures page == 0 ==> |F| == 0 && Held(h, F')
    ensures page != 0 ==> |F'| + 1 == |F| && Held(h + [page], F')
  {
    if page != 0 {
      assert F == F' + {page};
    }
  }

  lemma ReleaseHeld(h: seq<nat>, managed: set<nat>, F: set<nat>, i: nat, F': set<nat>)
    requires Held(h, F) && i < |h| && h[i] in managed && FreeStep(managed, F, h[i], F')
    ensures |F'| == |F| + 1 && Held(Without(h, i), F')
  {
    var h' := Without(h, i);
    forall k | 0 <= k < |h'| ensures h'[k] !in F' {
      assert h'[k] == h[if k < i then k else k + 1];
    }
  }

  // ---- buddy ----

  ghost predicate BuddyClient(p: BuddyPmm.Pmm, h: seq<nat>)
    reads p, p.zone, p.zone.links, p.zone.info, p.zone.freeCount
  {
    p.Valid() && Held(h, p.FreePages()) && Within(h, p.Managed())
  }

  ghost predicate Within(h: seq<nat>, managed: set<nat>) {
    forall k | 0 <= k < |h| :: h[k] in managed
  }

  lemma WithinMore(h: seq<nat>, managed: set<nat>, page: nat)
    requires Within(h, managed) && page in managed
    ensures Within(h + [page], managed)
  {
  }

  lemma WithinLess(h: seq<nat>, managed: set<nat>, i: nat)
    requires Within(h, managed) && i < |h|
    ensures Within(Without(h, i), managed)
  {
    WithoutAt(h, i);
  }

  method BuddyAlloc(p: BuddyPmm.Pmm, h: seq<nat>) returns (got: bool, h': seq<nat>)
    requires BuddyClient(p, h)
    modifies p.zone, p.zone.links, p.zone.info, p.zone.freeCount
    ensures BuddyClient(p, h') && (got, |p.FreePages()|, |h'|) == Expect(|old(p.FreePages())|, |h|, Alloc)
  {
    ghost var F := p.FreePages();
    FreeIsManaged(p);
    var page := p.AllocPage();
    AllocHeld(h, F, page, p.FreePages());
    got, h' := page != 0, h;
    if got {
      WithinMore(h, p.Managed(), page);
      h' := h + [page];
    }
  }

  lemma FreeIsManaged(p: BuddyPmm.Pmm)
    ensures p.FreePages() <= p.Managed()
  {
  }

  method BuddyRelease(p: BuddyPmm.Pmm, h: seq<nat>, i: nat) returns (h': seq<nat>)
    requires BuddyClient(p, h) && i < |h|
    modifies p.zone, p.zone.links, p.zone.info, p.zone.freeCount
    ensures BuddyClient(p, h') && |p.FreePages()| == |old(p.FreePages())| + 1 && |h'| == |h| - 1
  {
    ghost var F := p.FreePages();
    BuddyPmm.PageOf(p, h[i]);
    p.FreePage(h[i]);
    ReleaseHeld(h, p.Managed(), F, i, p.FreePages());
    WithinLess(h, p.Managed(), i);
    h' := Without(h, i);
  }

  method BuddyStep(p: BuddyPmm.Pmm, h: seq<nat>, op: Op) returns (got: bool, h': seq<nat>)
    requires BuddyClient(p, h)
    modifies p.zone, p.zone.links, p.zone.info, p.zone.freeCount
    ensures BuddyClient(p, h') && (got, |p.FreePages()|, |h'|) == Expect(|old(p.FreePages())|, |h|, op)
  {
    match op
    case Alloc => got, h' := BuddyAlloc(p, h);
    case Release(i) =>
      got, h' := i < |h|, h;
      if got {
        h' := BuddyRelease(p, h, i);
      }
  }

  // ---- bitmap ----

  ghost predicate BitmapClient(p: BitmapPmm.Pmm, h: seq<nat>)
    reads p
  {
    p.Valid() && Held(h, p.freePages) && Tails(p.regions, h)
  }

  method BitmapAlloc(p: BitmapPmm.Pmm, h: seq<nat>) returns (got: bool, h': seq<nat>)
    requires BitmapClient(p, h)
    modifies p
    ensures BitmapClient(p, h') && (got, |p.freePages|, |h'|) == Expect(|old(p.freePages)|, |h|, Alloc)
  {
    ghost var F, rs := p.freePages, p.regions;
    var page := p.AllocPage();
    AllocHeld(h, F, page, p.freePages);
    got := page != 0;
    h' := if got then h + [page] else h;
    AllocTails(rs, F, p.regions, h, page);
  }

  method BitmapRelease(p: BitmapPmm.Pmm, h: seq<nat>, i: nat) returns (h': seq<nat>)
    requires BitmapClient(p, h) && i < |h|
    modifies p
    ensures BitmapClient(p, h') && |p.freePages| == |old(p.freePages)| + 1 && |h'| == |h| - 1
  {
    ghost var F, rs := p.freePages, p.regions;
    TailIsClient(rs, h[i]);
    p.FreePage(h[i]);
    ReleaseHeld(h, BitmapPmm.ManagedPages(rs), F, i, p.freePages);
    h' := Without(h, i);
    SameTails(rs, p.regions, h');
  }

  method BitmapStep(p: BitmapPmm.Pmm, h: seq<nat>, op: Op) returns (got: bool, h': seq<nat>)
    requires BitmapClient(p, h)
    modifies p
    ensures BitmapClient(p, h') && (got, |p.freePages|, |h'|) == Expect(|old(p.freePages)|, |h|, op)
  {
    match op
    case Alloc => got, h' := BitmapAlloc(p, h);
    case Release(i) =>
      got, h' := i < |h|, h;
      if got {
        h' := BitmapRelease(p, h, i);
      }
  }

  ghost predicate Tails(rs: seq<Region>, h: seq<nat>) {
    forall k | 0 <= k < |h| :: BitmapInit.Tail(rs, h[k])
  }

  lemma AllocTails(rs: seq<Region>, F: set<nat>, rs': seq<Region>, h: seq<nat>, page: nat)
    requires BitmapPmm.State(rs, F, |F|) && BitmapPmm.SameExtents(rs, rs') && Tails(rs, h) && (page != 0 ==> page in F)
    ensures Tails(rs', if page != 0 then h + [page] else h)
  {
    if page != 0 {
      BitmapInit.FreeIsTail(rs, F, |F|, page);
      SameTails(rs, rs', h + [page]);
    } else {
      SameTails(rs, rs', h);
    }
  }

  lemma SameTails(rs: seq<Region>, rs': seq<Region>, h: seq<nat>)
    requires BitmapPmm.SameExtents(rs, rs') && Tails(rs, h)
    ensures Tails(rs', h)
  {
    forall k | 0 <= k < |h| ensures BitmapInit.Tail(rs', h[k]) {
      BitmapInit.SameTail(rs, rs', h[k]);
    }
  }

  // A page outside the bitmaps may be returned.
  lemma TailIsClient(rs: seq<Region>, a: nat)
    requires BitmapPmm.RegionsOk(rs) && BitmapInit.Tail(rs, a)
    ensures a in BitmapPmm.ManagedPages(rs)
    ensures forall k | 0 <= k < |rs| && BitmapPmm.Holds(rs[k], a) :: rs[k].bitmapPages <= BitmapPmm.Index(rs[k], a)
  {
    var j :| 0 <= j < |rs| && BitmapPmm.Holds(rs[j], a) && rs[j].bitmapPages <= BitmapPmm.Index(rs[j], a);
    BitmapPmm.IsManaged(rs, a);
    forall k: nat | k < |rs| && BitmapPmm.Holds(rs[k], a) ensures k == j {
      BitmapPmm.HolderUnique(rs, j, k, a);
    }
  }

  // ---- both ----

  // From equally many free pages, the same requests get the same answers from both backends,
  // and the numbers of free pages stay equal.
  method RunBoth(buddy: BuddyPmm.Pmm, bitmap: BitmapPmm.Pmm, ops: seq<Op>) returns (buddyOuts: seq<bool>, bitmapOuts: seq<bool>)
    requires buddy.Valid() && bitmap.Valid() && |buddy.FreePages()| == |bitmap.freePages|
    modifies bitmap, buddy.zone, buddy.zone.links, buddy.zone.info, buddy.zone.freeCount
    ensures buddy.Valid() && bitmap.Valid() && |buddy.FreePages()| == |bitmap.freePages|
    ensures buddyOuts == bitmapOuts == ExpectAll(|old(bitmap.freePages)|, 0, ops).0
  {
    ghost var n := |bitmap.freePages|;
    var h, g: seq<nat> := [], [];
    buddyOuts, bitmapOuts := [], [];
    var i := 0;
    while i < |ops|
      invariant i <= |ops| && BuddyClient(buddy, h) && BitmapClient(bitmap, g)
      invariant (buddyOuts, |buddy.FreePages()|, |h|) == ExpectAll(n, 0, ops[..i])
      invariant (bitmapOuts, |bitmap.freePages|, |g|) == ExpectAll(n, 0, ops[..i])
      modifies bitmap, buddy.zone, buddy.zone.links, buddy.zone.info, buddy.zone.freeCount
    {
      assert ops[..i + 1][..i] == ops[..i];
      var out;
      out, h := BuddyStep(buddy, h, ops[i]);
      buddyOuts := buddyOuts + [out];
      out, g := BitmapStep(bitmap, g, ops[i]);
      bitmapOuts := bitmapOuts + [out];
      i := i + 1;
    }
    assert ops[..i] == ops;
  }
}
