// The slab lists: singly linked through the headers, one partial and one full per cache.
module SlabLists {
  import opened Prelude
  import opened SlabPage

  type Pages = map<nat, Slab>

  const NUM_LISTS: nat := 2 * NUM_CACHES

  // The list a slab belongs on: partial lists come first, full lists after them.
  function Place(s: Slab): nat {
    if s.freeCount > 0 then s.cacheIdx else NUM_CACHES + s.cacheIdx
  }

  function First(s: seq<nat>): nat {
    if s == [] then NULL else s[0]
  }

  function After(s: seq<nat>, i: nat): nat {
    if i + 1 < |s| then s[i + 1] else NULL
  }

  ghost predicate ChainAt(pages: Pages, s: seq<nat>, i: nat)
    requires i < |s|
  {
    s[i] in pages && pages[s[i]].next == After(s, i)
  }

  ghost predicate Chain(pages: Pages, head: nat, s: seq<nat>) {
    && head == First(s)
    && (forall i: nat | i < |s| :: ChainAt(pages, s, i))
    && (forall i, j | 0 <= i < j < |s| :: s[i] != s[j])
  }

  ghost predicate Chains(pages: Pages, heads: seq<nat>, lists: seq<seq<nat>>) {
    && |heads| == |lists| == NUM_LISTS && NULL !in pages
    && forall q: nat | q < NUM_LISTS :: Chain(pages, heads[q], lists[q])
  }

  ghost predicate On(lists: seq<seq<nat>>, q: nat, p: nat) {
    q < |lists| && p in lists[q]
  }

  lemma Member(lists: seq<seq<nat>>, q: nat, p: nat)
    requires q < |lists|
    ensures p in lists[q] <==> On(lists, q, p)
  {
  }

  // Every slab but x is on the list it belongs on and on no other; x is on none.
  ghost predicate PlacedBut(pages: Pages, lists: seq<seq<nat>>, x: nat) {
    && (forall q: nat, p: nat | On(lists, q, p) :: p in pages && p != x && Place(pages[p]) == q)
    && (forall p: nat | p in pages && p != x :: On(lists, Place(pages[p]), p))
  }

  ghost predicate ListsBut(pages: Pages, heads: seq<nat>, lists: seq<seq<nat>>, x: nat) {
    Chains(pages, heads, lists) && PlacedBut(pages, lists, x)
  }

  ghost predicate ListsOk(pages: Pages, heads: seq<nat>, lists: seq<seq<nat>>) {
    ListsBut(pages, heads, lists, NULL)
  }

  // Writing only page p changes no chain that p is not on.
  lemma ChainFrame(pages: Pages, p: nat, s': Slab, head: nat, s: seq<nat>)
    requires Chain(pages, head, s) && (p !in s || (p in pages && s'.next == pages[p].next))
    ensures Chain(pages[p := s'], head, s)
  {
    var pages' := pages[p := s'];
    forall i: nat | i < |s| ensures ChainAt(pages', s, i) {
      assert ChainAt(pages, s, i);
    }
  }

  // A header rewritten without touching its link or its place.
  lemma Update(pages: Pages, heads: seq<nat>, lists: seq<seq<nat>>, p: nat, s': Slab)
    requires ListsOk(pages, heads, lists) && p in pages && s'.next == pages[p].next && Place(s') == Place(pages[p])
    ensures ListsOk(pages[p := s'], heads, lists)
  {
    forall q: nat | q < NUM_LISTS ensures Chain(pages[p := s'], heads[q], lists[q]) {
      ChainFrame(pages, p, s', heads[q], lists[q]);
    }
  }

  // A slab on no list goes to the front of the list it belongs on.
  lemma Push(pages: Pages, heads: seq<nat>, lists: seq<seq<nat>>, x: nat, s': Slab, q: nat)
    requires ListsBut(pages, heads, lists, x) && x != NULL && q < NUM_LISTS && q == Place(s') && s'.next == heads[q]
    ensures ListsOk(pages[x := s'], heads[q := x], lists[q := [x] + lists[q]])
  {
    var pages', lists' := pages[x := s'], lists[q := [x] + lists[q]];
    forall r: nat | r < NUM_LISTS ensures x !in lists[r] {
      Member(lists, r, x);
    }
    forall r: nat | r < NUM_LISTS ensures Chain(pages', heads[q := x][r], lists'[r]) {
      ChainFrame(pages, x, s', heads[r], lists[r]);
      if r == q {
        PushChain(pages', heads[q], lists[q], x);
      }
    }
    forall r: nat, p: nat ensures On(lists', r, p) <==> On(lists, r, p) || (r == q && p == x) {
    }
  }

  lemma PushChain(pages: Pages, head: nat, s: seq<nat>, x: nat)
    requires Chain(pages, head, s) && x in pages && pages[x].next == head && x !in s
    ensures Chain(pages, x, [x] + s)
  {
    forall i: nat | i < |s| + 1 ensures ChainAt(pages, [x] + s, i) {
      if i > 0 {
        assert ChainAt(pages, s, i - 1);
      }
    }
  }

  // Pages and head after a list has dropped its j-th slab.
  function UnlinkedPages(pages: Pages, s: seq<nat>, j: nat): Pages
    requires j < |s| && s[j] in pages && (j > 0 ==> s[j - 1] in pages)
  {
    if j == 0 then pages else pages[s[j - 1] := pages[s[j - 1]].(next := pages[s[j]].next)]
  }

  function UnlinkedHead(pages: Pages, head: nat, s: seq<nat>, j: nat): nat
    requires j < |s| && s[j] in pages
  {
    if j == 0 then pages[s[j]].next else head
  }

  lemma UnlinkChain(pages: Pages, head: nat, s: seq<nat>, j: nat)
    requires Chain(pages, head, s) && j < |s|
    ensures s[j] in pages && (j > 0 ==> s[j - 1] in pages)
    ensures Chain(UnlinkedPages(pages, s, j), UnlinkedHead(pages, head, s, j), Without(s, j))
  {
    assert ChainAt(pages, s, j);
    if j > 0 {
      assert ChainAt(pages, s, j - 1);
    }
    var pages', s' := UnlinkedPages(pages, s, j), Without(s, j);
    forall i: nat | i < |s'| ensures ChainAt(pages', s', i) {
      if i < j {
        assert s'[i] == s[i] && ChainAt(pages, s, i);
      } else {
        assert s'[i] == s[i + 1] && ChainAt(pages, s, i + 1);
      }
    }
  }

  // The j-th slab of list q leaves it.
  lemma Unlink(pages: Pages, heads: seq<nat>, lists: seq<seq<nat>>, q: nat, j: nat)
    requires ListsOk(pages, heads, lists) && q < NUM_LISTS && j < |lists[q]|
    ensures var s := lists[q];
            && s[j] in pages && (j > 0 ==> s[j - 1] in pages)
            && ListsBut(UnlinkedPages(pages, s, j), heads[q := UnlinkedHead(pages, heads[q], s, j)],
                        lists[q := Without(s, j)], s[j])
  {
    var s, x := lists[q], lists[q][j];
    UnlinkChain(pages, heads[q], s, j);
    var pages', heads', lists' := UnlinkedPages(pages, s, j), heads[q := UnlinkedHead(pages, heads[q], s, j)], lists[q := Without(s, j)];
    WithoutMembers(s, j);
    assert forall i: nat | i < |s| :: On(lists, q, s[i]);
    forall r: nat | r < NUM_LISTS ensures Chain(pages', heads'[r], lists'[r]) {
      if r != q && j > 0 {
        Member(lists, r, s[j - 1]);
        ChainFrame(pages, s[j - 1], pages'[s[j - 1]], heads[r], lists[r]);
      }
    }
    forall r: nat, p: nat ensures On(lists', r, p) <==> On(lists, r, p) && p != x {
      if r != q && On(lists, r, p) {
        assert p != x;
      }
    }
  }

  lemma WithoutMembers(s: seq<nat>, j: nat)
    requires j < |s| && forall i, k | 0 <= i < k < |s| :: s[i] != s[k]
    ensures forall p: nat :: p in Without(s, j) <==> p in s && p != s[j]
  {
    forall p: nat | p in s && p != s[j] ensures p in Without(s, j) {
      var i :| 0 <= i < |s| && s[i] == p;
      assert Without(s, j)[if i < j then i else i - 1] == p;
    }
  }

  // A page not yet in use is on no list.
  lemma FreshPage(pages: Pages, heads: seq<nat>, lists: seq<seq<nat>>, x: nat)
    requires ListsOk(pages, heads, lists) && x !in pages
    ensures ListsBut(pages, heads, lists, x)
  {
  }

  // ---- objects handed out ----

  datatype Object = Object(page: nat, slot: nat)

  ghost predicate IsLive(pages: Pages, o: Object) {
    o.page in pages && o.slot < pages[o.page].capacity && o.slot !in pages[o.page].FreeSlots()
  }

  ghost predicate PagesOk(pages: Pages, start: nat, brk: nat) {
    && 0 < start && start <= brk && start % PAGE_SIZE == 0 && brk % PAGE_SIZE == 0
    && forall p <- pages :: PageOk(pages, p, start, brk)
  }

  ghost predicate PageOk(pages: Pages, p: nat, start: nat, brk: nat)
    requires p in pages
  {
    pages[p].Valid() && p % PAGE_SIZE == 0 && start <= p < brk
  }

  // The same slabs, each of the same class.
  ghost predicate SameSlabs(pages: Pages, pages': Pages) {
    pages'.Keys == pages.Keys && forall p <- pages :: pages'[p].cacheIdx == pages[p].cacheIdx
  }

  // One slab of class c more.
  ghost predicate OneSlabMore(pages: Pages, pages': Pages, page: nat, c: nat) {
    && page !in pages && pages'.Keys == pages.Keys + {page} && pages'[page].cacheIdx == c
    && forall p <- pages :: pages'[p].cacheIdx == pages[p].cacheIdx
  }

  // Only links differ.
  ghost predicate Relinked(pages: Pages, pages': Pages) {
    && pages'.Keys == pages.Keys
    && forall p <- pages :: pages'[p] == pages[p].(next := pages'[p].next)
  }

  lemma RelinkedKeeps(pages: Pages, pages': Pages, start: nat, brk: nat)
    requires Relinked(pages, pages')
    ensures forall o: Object :: IsLive(pages', o) <==> IsLive(pages, o)
    ensures PagesOk(pages, start, brk) ==> PagesOk(pages', start, brk)
  {
    forall p | p in pages ensures pages'[p].FreeSlots() == pages[p].FreeSlots() {
      assert forall i: nat | i / 32 < |pages[p].bitmap| :: pages'[p].Free(i) == pages[p].Free(i);
    }
    if PagesOk(pages, start, brk) {
      forall p | p in pages' ensures PageOk(pages', p, start, brk) {
        assert PageOk(pages, p, start, brk);
      }
    }
  }

  // Rewriting one slab with slot i taken, or given back, changes exactly that object.
  lemma SlotTaken(pages: Pages, p: nat, s': Slab, i: nat, start: nat, brk: nat)
    requires PagesOk(pages, start, brk) && p in pages && s'.Valid() && s'.cacheIdx == pages[p].cacheIdx
    requires i in pages[p].FreeSlots() && s'.FreeSlots() == pages[p].FreeSlots() - {i}
    ensures PagesOk(pages[p := s'], start, brk) && !IsLive(pages, Object(p, i))
    ensures forall o: Object :: IsLive(pages[p := s'], o) <==> IsLive(pages, o) || o == Object(p, i)
  {
    OneChanged(pages, p, s', start, brk);
  }

  lemma SlotGiven(pages: Pages, p: nat, s': Slab, i: nat, start: nat, brk: nat)
    requires PagesOk(pages, start, brk) && p in pages && s'.Valid() && s'.cacheIdx == pages[p].cacheIdx
    requires s'.FreeSlots() == pages[p].FreeSlots() + {i}
    ensures PagesOk(pages[p := s'], start, brk)
    ensures forall o: Object :: IsLive(pages[p := s'], o) <==> IsLive(pages, o) && o != Object(p, i)
  {
    OneChanged(pages, p, s', start, brk);
  }

  lemma OneChanged(pages: Pages, p: nat, s': Slab, start: nat, brk: nat)
    requires PagesOk(pages, start, brk) && p in pages && s'.Valid() && s'.cacheIdx == pages[p].cacheIdx
    ensures PagesOk(pages[p := s'], start, brk) && s'.capacity == pages[p].capacity
  {
    assert PageOk(pages, p, start, brk);
    var pages' := pages[p := s'];
    forall r | r in pages' ensures PageOk(pages', r, start, brk) {
      assert r != p ==> PageOk(pages, r, start, brk);
    }
  }

  lemma Below(pages: Pages, p: nat, start: nat, brk: nat)
    requires PagesOk(pages, start, brk)
    ensures p in pages ==> PageOk(pages, p, start, brk)
  {
  }

  lemma PageAdded(pages: Pages, p: nat, s: Slab, start: nat, brk: nat)
    requires PagesOk(pages, start, brk) && p == brk && s.Valid() && (forall i: nat :: i in s.FreeSlots() <==> i < s.capacity)
    ensures p !in pages && PagesOk(pages[p := s], start, brk + PAGE_SIZE)
    ensures forall o: Object :: IsLive(pages[p := s], o) <==> IsLive(pages, o)
  {
    Below(pages, p, start, brk);
    var pages' := pages[p := s];
    forall r | r in pages' ensures PageOk(pages', r, start, brk + PAGE_SIZE) {
      assert r != p ==> PageOk(pages, r, start, brk);
    }
  }

  // The head of a list that is not empty, and the link to follow from it.
  lemma HeadOf(pages: Pages, heads: seq<nat>, lists: seq<seq<nat>>, q: nat)
    requires ListsOk(pages, heads, lists) && q < NUM_LISTS
    ensures heads[q] == NULL <==> lists[q] == []
    ensures heads[q] != NULL ==> heads[q] in pages && heads[q] == lists[q][0] && Place(pages[heads[q]]) == q
  {
    if lists[q] != [] {
      assert ChainAt(pages, lists[q], 0);
      Member(lists, q, lists[q][0]);
    }
  }

  // A full slab is somewhere on its full list.
  lemma FindOnList(pages: Pages, heads: seq<nat>, lists: seq<seq<nat>>, p: nat) returns (j: nat)
    requires ListsOk(pages, heads, lists) && p in pages
    ensures Place(pages[p]) < NUM_LISTS && j < |lists[Place(pages[p])]| && lists[Place(pages[p])][j] == p
  {
    assert On(lists, Place(pages[p]), p);
    j :| 0 <= j < |lists[Place(pages[p])]| && lists[Place(pages[p])][j] == p;
  }

  lemma SameSlots(s: Slab, s': Slab)
    requires s' == s.(next := s'.next)
    ensures s'.FreeSlots() == s.FreeSlots() && (s.Valid() ==> s'.Valid())
  {
    assert forall i: nat | i / 32 < |s.bitmap| :: s'.Free(i) == s.Free(i);
  }

  lemma UnlinkRelinks(pages: Pages, s: seq<nat>, j: nat)
    requires j < |s| && s[j] in pages && (j > 0 ==> s[j - 1] in pages)
    ensures Relinked(pages, UnlinkedPages(pages, s, j))
    ensures (j > 0 ==> s[j - 1] != s[j]) ==> UnlinkedPages(pages, s, j)[s[j]] == pages[s[j]]
  {
  }
}
