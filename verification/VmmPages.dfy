// Batches of pages: allocation that either maps them all or changes no translation,
// release, and the kernel's initial mapping.
module VmmPages {
  import opened Prelude
  import opened PageTables
  import opened Vmm

  type View = seq<Option<Mapping>>

  // ---- flat maps ----

  ghost predicate Unmapped(m: View, v: nat, n: nat) {
    forall u | v <= u < v + n && u < |m| :: m[u].None?
  }

  // Kernel read-write mappings of the given frames from page v on, the rest as before.
  ghost predicate Filled(m: View, m': View, v: nat, frames: seq<nat>) {
    && |m'| == |m|
    && forall u | 0 <= u < |m| :: m'[u] == if v <= u < v + |frames| then Some(Mapping(frames[u - v], true, false)) else m[u]
  }

  ghost predicate ClearedTo(m: View, m': View, v: nat, n: nat) {
    && |m'| == |m|
    && forall u | 0 <= u < |m| :: m'[u] == if v <= u < v + n then None else m[u]
  }

  ghost function RangeFrames(m: View, v: nat, n: nat): set<nat> {
    set u | v <= u < v + n && u < |m| && m[u].Some? :: m[u].value.frame
  }

  lemma NextFrame(m: View, v: nat, n: nat)
    requires v + n < |m|
    ensures RangeFrames(m, v, n + 1) == RangeFrames(m, v, n) + (if m[v + n].Some? then {m[v + n].value.frame} else {})
  {
    var u := v + n;
    if m[u].Some? {
      assert m[u].value.frame in RangeFrames(m, v, n + 1);
    }
    forall f | f in RangeFrames(m, v, n) ensures f in RangeFrames(m, v, n + 1) {
      var w :| v <= w < v + n && w < |m| && m[w].Some? && m[w].value.frame == f;
      assert v <= w < v + n + 1;
    }
  }

  // ---- frames spent by a batch ----

  // Directory entries without a table among those of pages v .. v + n - 1.
  ghost function NewTables(d: seq<nat>, v: nat, n: nat): set<nat> {
    set i: nat | i < |d| && !Present(d[i]) && v / ENTRIES <= i && i * ENTRIES < v + n && n > 0
  }

  lemma NewTablesNext(d: seq<nat>, v: nat, n: nat)
    requires (v + n) / ENTRIES < |d|
    ensures NewTables(d, v, n + 1) ==
            NewTables(d, v, n) + (if Present(d[(v + n) / ENTRIES]) then {} else {(v + n) / ENTRIES})
  {
  }

  lemma NewTablesGrow(d: seq<nat>, v: nat, n: nat, n': nat)
    requires n <= n'
    ensures NewTables(d, v, n) <= NewTables(d, v, n')
    ensures |NewTables(d, v, n)| <= |NewTables(d, v, n')|
  {
    Subset(NewTables(d, v, n), NewTables(d, v, n'));
  }

  // The frames taken so far are distinct, were free, are neither free nor tables now, and
  // every frame is accounted for.
  ghost predicate Spent(F0: set<nat>, T0: set<nat>, F: set<nat>, T: set<nat>, frames: seq<nat>) {
    && F <= F0 && Elems(frames) <= F0 - F && Elems(frames) !! T && F + T + Elems(frames) == F0 + T0
    && (forall i, j | 0 <= i < j < |frames| :: frames[i] != frames[j])
  }

  // The directory entries below n are the same.
  ghost predicate SameBelow(d0: seq<nat>, d: seq<nat>, n: nat) {
    |d| == |d0| && forall k | 0 <= k < |d| && k < n :: d[k] == d0[k]
  }

  // The tables made so far are those the first n pages need, and the cost is exact; the
  // entries below stay as they are.
  ghost predicate Tabled(d0: seq<nat>, F0: set<nat>, d: seq<nat>, F: set<nat>, v: nat, n: nat) {
    && |d| == |d0| == ENTRIES
    && (forall k: nat | k < ENTRIES :: Present(d[k]) <==> Present(d0[k]) || k in NewTables(d0, v, n))
    && |F| + n + |NewTables(d0, v, n)| == |F0|
    && SameBelow(d0, d, v / ENTRIES)
  }

  // The directory and free set after the frames of a batch have been taken and mapped.
  ghost predicate Taken(d0: seq<nat>, F0: set<nat>, d: seq<nat>, F: set<nat>, v: nat, frames: seq<nat>) {
    Spent(F0, Tables(d0), F, Tables(d), frames) && Tabled(d0, F0, d, F, v, |frames|)
  }

  // One page of a batch: a frame taken and mapped, the table paid for if it was missing.
  ghost predicate PageTaken(d: seq<nat>, F: set<nat>, d': seq<nat>, F': set<nat>, v: nat, f: nat) {
    && |d| == |d'| == ENTRIES && v < PAGES && F' <= F && f in F && f !in F' && f !in Tables(d')
    && F' + Tables(d') + {f} == F + Tables(d)
    && TableAt(d, F - {f}, d', F', v / ENTRIES)
  }

  // Maps a frame just taken, or returns it when no page table is to be had.
  method MapOrReturn(s: AddressSpace, virt: nat, phys: nat) returns (ok: bool)
    requires s.Valid() && virt < WORD && virt % PAGE_SIZE == 0 && phys in s.managed && phys !in Tables(s.pd[..])
    modifies s.pd, s`mem, s`free
    ensures s.Valid() && (ok <==> Present(old(s.pd[virt / LARGE])) || old(s.free) != {})
    ensures ok ==>
      && Grew(old(s.pd[..]), old(s.free), s.pd[..], s.free)
      && TableAt(old(s.pd[..]), old(s.free), s.pd[..], s.free, virt / LARGE)
      && s.View() == old(s.View())[virt / PAGE_SIZE := Some(Mapping(phys, true, false))]
    ensures !ok ==> s.View() == old(s.View()) && s.free == old(s.free) + {phys} && s.pd[..] == old(s.pd[..])
  {
    var ret := s.MapPage(virt, phys, PRESENT_WRITABLE);
    ok := ret == 0;
    if !ok {
      s.FreeFrame(phys);
    }
  }

  method MapOne(s: AddressSpace, virt: nat) returns (ok: bool, phys: nat)
    requires s.Valid() && virt < WORD && virt % PAGE_SIZE == 0
    modifies s.pd, s`mem, s`free
    ensures s.Valid()
    ensures ok ==>
      && PageTaken(old(s.pd[..]), old(s.free), s.pd[..], s.free, virt / PAGE_SIZE, phys)
      && s.View() == old(s.View())[virt / PAGE_SIZE := Some(Mapping(phys, true, false))]
    ensures !ok ==> s.View() == old(s.View()) && s.free == old(s.free) && s.pd[..] == old(s.pd[..])
    ensures ok <==> |old(s.free)| >= Cost(old(s.pd[..]), virt / PAGE_SIZE)
  {
    Indices(virt);
    ghost var d, F := s.pd[..], s.free;
    TablesNotFree(d, s.mem, F);
    phys := s.AllocFrame();
    ok := false;
    if phys != 0 {
      CostOf(d, F, phys, virt / PAGE_SIZE);
      ok := MapOrReturn(s, virt, phys);
      if ok {
        TablesNotFree(s.pd[..], s.mem, s.free);
        MappedOne(d, F, s.pd[..], s.free, virt / PAGE_SIZE, phys);
      }
    }
  }

  // The same, for page v.
  method MapFresh(s: AddressSpace, v: nat) returns (ok: bool, phys: nat)
    requires s.Valid() && v < PAGES
    modifies s.pd, s`mem, s`free
    ensures s.Valid()
    ensures ok ==>
      && PageTaken(old(s.pd[..]), old(s.free), s.pd[..], s.free, v, phys)
      && s.View() == old(s.View())[v := Some(Mapping(phys, true, false))]
    ensures !ok ==> s.View() == old(s.View()) && s.free == old(s.free) && s.pd[..] == old(s.pd[..])
    ensures ok <==> |old(s.free)| >= Cost(old(s.pd[..]), v)
  {
    PageAddress(v);
    ok, phys := MapOne(s, v * PAGE_SIZE);
  }

  // Frames a page takes: its own, and one for a missing table.
  ghost function Cost(d: seq<nat>, v: nat): nat
  {
    if v / ENTRIES < |d| && Present(d[v / ENTRIES]) then 1 else 2
  }

  lemma CostOf(d: seq<nat>, F: set<nat>, f: nat, v: nat)
    requires v / ENTRIES < |d| && f in F
    ensures |F| >= Cost(d, v) <==> Present(d[v / ENTRIES]) || F - {f} != {}
    ensures F - {f} + {f} == F
  {
    assert |F - {f}| == |F| - 1;
    if |F - {f}| > 0 {
      assert F - {f} != {};
    }
  }

  lemma MappedOne(d: seq<nat>, F: set<nat>, d': seq<nat>, F': set<nat>, v: nat, f: nat)
    requires |d| == |d'| == ENTRIES && v < PAGES && f in F && Tables(d) !! F && Tables(d') !! F'
    requires Grew(d, F - {f}, d', F') && TableAt(d, F - {f}, d', F', v / ENTRIES)
    ensures PageTaken(d, F, d', F', v, f)
  {
    SetsOne(F, Tables(d), F', Tables(d'), f);
  }

  lemma SetsOne(F: set<nat>, T: set<nat>, F': set<nat>, T': set<nat>, f: nat)
    requires f in F && T !! F && F' <= F - {f} && F' + T' == (F - {f}) + T
    ensures F' <= F && f !in F' && f !in T' && F' + T' + {f} == F + T
  {
    assert F == F - {f} + {f};
    assert f !in (F - {f}) + T;
  }

  lemma TablesNotFree(d: seq<nat>, mem: Memory, F: set<nat>)
    requires Inv(d, mem, F)
    ensures Tables(d) !! F
  {
    forall i: nat | i < ENTRIES && Present(d[i]) ensures Frame(d[i]) !in F {
      assert EntryOk(d, mem, F, i);
    }
  }

  lemma TakeNext(d0: seq<nat>, F0: set<nat>, d: seq<nat>, F: set<nat>, d': seq<nat>, F': set<nat>, v: nat, frames: seq<nat>, f: nat)
    requires Taken(d0, F0, d, F, v, frames) && PageTaken(d, F, d', F', v + |frames|, f)
    ensures Taken(d0, F0, d', F', v, frames + [f])
  {
    SpentNext(d0, F0, d, F, d', F', v, frames, f);
    TabledNext(d0, F0, d, F, d', F', v, frames, f);
  }

  lemma SpentNext(d0: seq<nat>, F0: set<nat>, d: seq<nat>, F: set<nat>, d': seq<nat>, F': set<nat>, v: nat, frames: seq<nat>, f: nat)
    requires Taken(d0, F0, d, F, v, frames) && PageTaken(d, F, d', F', v + |frames|, f)
    ensures Spent(F0, Tables(d0), F', Tables(d'), frames + [f])
  {
    SetsNext(F0, Tables(d0), F, Tables(d), F', Tables(d'), Elems(frames), f);
    assert Elems(frames + [f]) == Elems(frames) + {f};
    assert forall i | 0 <= i < |frames| :: frames[i] in Elems(frames);
  }

  lemma SetsNext(F0: set<nat>, T0: set<nat>, F: set<nat>, T: set<nat>, F': set<nat>, T': set<nat>, E: set<nat>, f: nat)
    requires F <= F0 && E <= F0 - F && E !! T && F + T + E == F0 + T0
    requires F' + T' + {f} == F + T && F' <= F && f in F && f !in F' && f !in T'
    ensures F' <= F0 && E + {f} <= F0 - F' && E + {f} !! T' && F' + T' + (E + {f}) == F0 + T0
  {
    assert F' + T' + (E + {f}) == (F' + T' + {f}) + E;
    forall e | e in E ensures e !in T' {
      assert e in T' ==> e in F + T;
    }
  }

  lemma TabledNext(d0: seq<nat>, F0: set<nat>, d: seq<nat>, F: set<nat>, d': seq<nat>, F': set<nat>, v: nat, frames: seq<nat>, f: nat)
    requires Taken(d0, F0, d, F, v, frames) && PageTaken(d, F, d', F', v + |frames|, f)
    ensures Tabled(d0, F0, d', F', v, |frames| + 1)
  {
    assert |F - {f}| == |F| - 1;
    EntryOrder(v, |frames|);
    TabledStep(d0, F0, d, |F|, d', F', v, |frames|);
  }

  lemma EntryOrder(v: nat, n: nat)
    ensures v / ENTRIES <= (v + n) / ENTRIES
  {
  }

  lemma TabledStep(d0: seq<nat>, F0: set<nat>, d: seq<nat>, c: nat, d': seq<nat>, F': set<nat>, v: nat, n: nat)
    requires |d0| == |d| == |d'| == ENTRIES && v + n < PAGES
    requires forall k: nat | k < ENTRIES :: Present(d[k]) <==> Present(d0[k]) || k in NewTables(d0, v, n)
    requires forall k: nat | k < ENTRIES :: Present(d'[k]) <==> Present(d[k]) || k == (v + n) / ENTRIES
    requires c + n + |NewTables(d0, v, n)| == |F0|
    requires |F'| == c - 1 - (if Present(d[(v + n) / ENTRIES]) then 0 else 1)
    requires SameBelow(d0, d', v / ENTRIES)
    ensures Tabled(d0, F0, d', F', v, n + 1)
  {
    NewTablesNext(d0, v, n);
    var i: nat := (v + n) / ENTRIES;
    if Present(d[i]) {
      assert NewTables(d0, v, n + 1) == NewTables(d0, v, n);
    } else {
      assert i !in NewTables(d0, v, n);
    }
  }

  // Frames a batch takes in all.
  ghost function Needed(d: seq<nat>, v: nat, n: nat): nat {
    n + |NewTables(d, v, n)|
  }

  lemma NeedGrows(d0: seq<nat>, F0: set<nat>, d: seq<nat>, F: set<nat>, v: nat, k: nat, n: nat)
    requires Tabled(d0, F0, d, F, v, k) && k < n && v + n <= PAGES && |F| < Cost(d, v + k)
    ensures |F0| < Needed(d0, v, n)
  {
    NewTablesGrow(d0, v, k + 1, n);
    NewTablesNext(d0, v, k);
    var i: nat := (v + k) / ENTRIES;
    if Present(d[i]) {
      NewTablesGrow(d0, v, k, k + 1);
    } else {
      assert i !in NewTables(d0, v, k);
      assert |NewTables(d0, v, k + 1)| == |NewTables(d0, v, k)| + 1;
    }
  }

  lemma TakenStart(d0: seq<nat>, mem: Memory, F0: set<nat>, v: nat)
    requires Inv(d0, mem, F0)
    ensures Taken(d0, F0, d0, F0, v, [])
  {
    assert NewTables(d0, v, 0) == {};
    assert Elems<nat>([]) == {};
  }

  lemma FilledNext(m0: View, m: View, v: nat, frames: seq<nat>, f: nat)
    requires Filled(m0, m, v, frames) && v + |frames| < |m|
    ensures Filled(m0, m[v + |frames| := Some(Mapping(f, true, false))], v, frames + [f])
  {
  }

  lemma PageAddress(v: nat)
    ensures v * PAGE_SIZE % PAGE_SIZE == 0 && v * PAGE_SIZE / PAGE_SIZE == v
    ensures v < PAGES ==> v / ENTRIES < ENTRIES
  {
  }

  method MapNext(s: AddressSpace, ghost d0: seq<nat>, ghost F0: set<nat>, ghost m0: View, v: nat, i: nat, ghost frames: seq<nat>)
    returns (ok: bool, ghost frames': seq<nat>)
    requires s.Valid() && v + i < PAGES && |frames| == i
    requires Taken(d0, F0, s.pd[..], s.free, v, frames) && Filled(m0, s.View(), v, frames)
    modifies s.pd, s`mem, s`free
    ensures s.Valid() && |frames'| == (if ok then i + 1 else i)
    ensures Taken(d0, F0, s.pd[..], s.free, v, frames') && Filled(m0, s.View(), v, frames')
    ensures !ok ==> |s.free| < Cost(s.pd[..], v + i)
  {
    ghost var d, F, m := s.pd[..], s.free, s.View();
    var f;
    ok, f := MapFresh(s, v + i);
    frames' := FramesAfter(d0, F0, m0, d, F, m, s.pd[..], s.free, s.View(), v, frames, ok, f);
  }

  lemma FramesAfter(d0: seq<nat>, F0: set<nat>, m0: View, d: seq<nat>, F: set<nat>, m: View,
                    d': seq<nat>, F': set<nat>, m': View, v: nat, frames: seq<nat>, ok: bool, f: nat)
    returns (frames': seq<nat>)
    requires Taken(d0, F0, d, F, v, frames) && Filled(m0, m, v, frames) && v + |frames| < |m|
    requires ok ==> PageTaken(d, F, d', F', v + |frames|, f) && m' == m[v + |frames| := Some(Mapping(f, true, false))]
    requires !ok ==> d' == d && F' == F && m' == m
    ensures Taken(d0, F0, d', F', v, frames') && Filled(m0, m', v, frames')
    ensures |frames'| == |frames| + (if ok then 1 else 0)
  {
    frames' := frames;
    if ok {
      TakeNext(d0, F0, d, F, d', F', v, frames, f);
      FilledNext(m0, m, v, frames, f);
      frames' := frames + [f];
    }
  }

  // Takes and maps frames page by page until the batch is complete or memory runs out.
  method MapBatch(s: AddressSpace, v: nat, count: nat) returns (done: bool, ghost frames: seq<nat>)
    requires s.Valid() && v + count <= PAGES
    modifies s.pd, s`mem, s`free
    ensures s.Valid() && Taken(old(s.pd[..]), old(s.free), s.pd[..], s.free, v, frames)
    ensures Filled(old(s.View()), s.View(), v, frames)
    ensures if done then |frames| == count else |frames| < count && |s.free| < Cost(s.pd[..], v + |frames|)
  {
    ghost var d0, F0, m0 := s.pd[..], s.free, s.View();
    var i: nat := 0;
    frames := [];
    TakenStart(d0, s.mem, F0, v);
    while i < count
      invariant i == |frames| && i <= count && s.Valid()
      invariant Taken(d0, F0, s.pd[..], s.free, v, frames) && Filled(m0, s.View(), v, frames)
      modifies s.pd, s`mem, s`free
    {
      done, frames := MapNext(s, d0, F0, m0, v, i, frames);
      if !done {
        return;
      }
      i := i + 1;
    }
    done := true;
  }

  // ---- release ----

  // No page of the range is mapped to one of these frames.
  ghost predicate Avoids(m: View, v: nat, n: nat, frames: set<nat>) {
    RangeFrames(m, v, n) !! frames
  }

  // One page given up: its frame, if it has one, goes back to the allocator. Nothing happens
  // at an unaligned address.
  method ReleasePage(s: AddressSpace, virt: nat, always: bool)
    requires s.Valid() && s.ready && virt < WORD
    requires virt % PAGE_SIZE == 0 ==> Avoids(s.View(), virt / PAGE_SIZE, 1, Tables(s.pd[..]))
    modifies s`mem, s`free
    ensures s.Valid()
    ensures virt % PAGE_SIZE == 0 ==>
      && s.View() == old(s.View())[virt / PAGE_SIZE := None]
      && s.free == old(s.free) + RangeFrames(old(s.View()), virt / PAGE_SIZE, 1) * s.managed
    ensures virt % PAGE_SIZE != 0 ==> s.View() == old(s.View()) && s.free == old(s.free)
  {
    Indices(virt);
    NextFrame(s.View(), virt / PAGE_SIZE, 0);
    var phys := s.GetPhysical(virt);
    if phys.Some? {
      s.FreeFrame(phys.value);
    }
    if always || phys.Some? {
      s.UnmapPage(virt);
    }
  }

  // Gives up the pages of a range one by one; frames the allocator does not own are left.
  // `always` distinguishes the two loops that do this: a rollback touches mapped pages only.
  method Release(s: AddressSpace, start: nat, count: nat, always: bool)
    requires s.Valid() && s.ready && start + count * PAGE_SIZE <= WORD
    requires start % PAGE_SIZE == 0 ==> Avoids(s.View(), start / PAGE_SIZE, count, Tables(s.pd[..]))
    modifies s`mem, s`free
    ensures s.Valid()
    ensures start % PAGE_SIZE == 0 ==> Released(old(s.View()), old(s.free), s.View(), s.free, start / PAGE_SIZE, count, s.managed)
    ensures start % PAGE_SIZE != 0 ==> s.View() == old(s.View()) && s.free == old(s.free)
  {
    ghost var m0, F0 := s.View(), s.free;
    var j: nat := 0;
    while j < count
      invariant j <= count && s.Valid()
      invariant start % PAGE_SIZE == 0 ==> Released(m0, F0, s.View(), s.free, start / PAGE_SIZE, j, s.managed)
      invariant start % PAGE_SIZE != 0 ==> s.View() == m0 && s.free == F0
      modifies s`mem, s`free
    {
      PageOf(start, j, count);
      ReleaseNext(s, m0, F0, start, j, count, always);
      j := j + 1;
    }
  }

  // The first n pages of a range have been cleared and their frames returned.
  ghost predicate Released(m0: View, F0: set<nat>, m: View, F: set<nat>, v: nat, n: nat, managed: set<nat>) {
    ClearedTo(m0, m, v, n) && F == F0 + RangeFrames(m0, v, n) * managed
  }

  method ReleaseNext(s: AddressSpace, ghost m0: View, ghost F0: set<nat>, start: nat, j: nat, ghost count: nat, always: bool)
    requires s.Valid() && s.ready && j < count && start + j * PAGE_SIZE < WORD && |m0| == PAGES
    requires start % PAGE_SIZE == 0 ==>
      && start / PAGE_SIZE + count <= PAGES
      && Released(m0, F0, s.View(), s.free, start / PAGE_SIZE, j, s.managed)
      && Avoids(m0, start / PAGE_SIZE, count, Tables(s.pd[..]))
    modifies s`mem, s`free
    ensures s.Valid()
    ensures start % PAGE_SIZE == 0 ==> Released(m0, F0, s.View(), s.free, start / PAGE_SIZE, j + 1, s.managed)
    ensures start % PAGE_SIZE != 0 ==> s.View() == old(s.View()) && s.free == old(s.free)
  {
    PageOf(start, j, j + 1);
    if start % PAGE_SIZE == 0 {
      PageOfRange(m0, s.View(), start / PAGE_SIZE, j, count);
    }
    ReleasePage(s, start + j * PAGE_SIZE, always);
  }

  lemma PageOf(start: nat, j: nat, count: nat)
    requires j < count
    ensures (start + j * PAGE_SIZE) % PAGE_SIZE == start % PAGE_SIZE
    ensures (start + j * PAGE_SIZE) / PAGE_SIZE == start / PAGE_SIZE + j
    ensures start + count * PAGE_SIZE <= WORD ==> start + j * PAGE_SIZE < WORD
    ensures start + count * PAGE_SIZE <= WORD && start % PAGE_SIZE == 0 ==> start / PAGE_SIZE + count <= PAGES
  {
    var q, r := start / PAGE_SIZE, start % PAGE_SIZE;
    assert start + j * PAGE_SIZE == PAGE_SIZE * (q + j) + r;
  }

  lemma PageOfRange(m0: View, m: View, v: nat, j: nat, n: nat)
    requires j < n && v + n <= |m0| && ClearedTo(m0, m, v, j)
    ensures RangeFrames(m, v + j, 1) == RangeFrames(m0, v + j, 1)
    ensures RangeFrames(m0, v, j + 1) == RangeFrames(m0, v, j) + RangeFrames(m0, v + j, 1)
    ensures RangeFrames(m0, v + j, 1) <= RangeFrames(m0, v, n)
  {
    assert m[v + j] == m0[v + j];
    NextFrame(m0, v + j, 0);
    NextFrame(m, v + j, 0);
    NextFrame(m0, v, j);
    if m0[v + j].Some? {
      assert m0[v + j].value.frame in RangeFrames(m0, v, n);
    }
  }

  // ---- batches ----

  // The byte count is taken modulo 2^32, so the bounds check is exact except for the
  // counts of a full address space or more whose byte count wraps to something small.
  function TotalBytes(count: nat): nat {
    count * PAGE_SIZE % WORD
  }

  lemma BoundsCheckExact(start: nat, count: nat)
    requires start < WORD
    ensures (TotalBytes(count) <= 0xFFFF_FFFF - start <==> start + count * PAGE_SIZE < WORD)
            <==> count < 0x10_0000 || TotalBytes(count) > 0xFFFF_FFFF - start
  {
    if count < 0x10_0000 {
      assert TotalBytes(count) == count * PAGE_SIZE;
    }
  }

  lemma NoWrap(count: nat)
    requires count < 0x10_0000
    ensures TotalBytes(count) == count * PAGE_SIZE
  {
  }

  // A request for 2^20 pages passes the check wherever the bump pointer stands.
  lemma WholeSpacePasses(start: nat)
    requires start < WORD
    ensures TotalBytes(0x10_0000) <= 0xFFFF_FFFF - start && start + 0x10_0000 * PAGE_SIZE >= WORD
  {
  }

  // What a filled range holds: the new frames, then what was there before.
  lemma FilledRange(m0: View, m: View, v: nat, frames: seq<nat>, n: nat)
    requires Filled(m0, m, v, frames) && |frames| <= n && v + n <= |m|
    ensures RangeFrames(m, v, n) == Elems(frames) + RangeFrames(m0, v + |frames|, n - |frames|)
  {
    var k := |frames|;
    forall u | v + k <= u < v + n ensures m[u] == m0[u] {
    }
    forall i | 0 <= i < k ensures frames[i] in RangeFrames(m, v, n) {
      assert m[v + i].Some?;
    }
  }

  lemma NoFrames(m: View, v: nat, n: nat)
    requires v + n <= |m|
    ensures RangeFrames(m, v, n) == {} <==> Unmapped(m, v, n)
  {
    forall u | v <= u < v + n && m[u].Some? ensures m[u].value.frame in RangeFrames(m, v, n) {
    }
  }

  lemma PartFrames(m: View, v: nat, n: nat, w: nat, k: nat)
    requires v <= w && w + k <= v + n
    ensures RangeFrames(m, w, k) <= RangeFrames(m, v, n)
  {
    forall u | w <= u < w + k && u < |m| && m[u].Some? ensures m[u].value.frame in RangeFrames(m, v, n) {
    }
  }

  // Clearing a filled range undoes the filling, for the pages that were unmapped before.
  lemma ClearUndoesFill(m0: View, m1: View, m2: View, v: nat, frames: seq<nat>, n: nat)
    requires Filled(m0, m1, v, frames) && ClearedTo(m1, m2, v, n) && |frames| <= n
    ensures ClearedTo(m0, m2, v, n) && (m2 == m0 <==> Unmapped(m0, v, n))
  {
    if m2 == m0 {
      forall u | v <= u < v + n && u < |m0| ensures m0[u].None? {
        assert m2[u] == m0[u];
      }
    }
  }

  // After a rollback every frame is free or a table again, those the untouched pages of the
  // range were mapped to included.
  lemma GiveBack(d0: seq<nat>, F0: set<nat>, d: seq<nat>, F: set<nat>, v: nat, frames: seq<nat>, rest: set<nat>, managed: set<nat>, F': set<nat>)
    requires Taken(d0, F0, d, F, v, frames) && F0 <= managed && F' == F + (Elems(frames) + rest) * managed
    ensures F' + Tables(d) == F0 + Tables(d0) + rest * managed
    ensures rest == {} ==> Grew(d0, F0, d, F')
  {
    SetsBack(F0 + Tables(d0), F, Tables(d), Elems(frames), rest, managed);
  }

  lemma SetsBack(all: set<nat>, F: set<nat>, T: set<nat>, E: set<nat>, rest: set<nat>, managed: set<nat>)
    requires F + T + E == all && E <= managed
    ensures F + (E + rest) * managed + T == all + rest * managed
  {
  }

  predicate Refused(ready: bool, next: nat, count: nat) {
    count == 0 || !ready || next == 0 || next + TotalBytes(count) > 0xFFFF_FFFF
  }

  // A batch that ran out of memory after k pages: the range is cleared, and every frame is
  // free or a table but those the first k pages were mapped to before.
  ghost predicate Undone(d0: seq<nat>, F0: set<nat>, m0: View, d: seq<nat>, F: set<nat>, m: View, v: nat, n: nat, k: nat, managed: set<nat>) {
    && k <= n && ClearedTo(m0, m, v, n) && SameBelow(d0, d, v / ENTRIES)
    && F + Tables(d) == F0 + Tables(d0) + RangeFrames(m0, v + k, n - k) * managed
  }

  // What a call for `count` pages answers and leaves behind. Either the whole range is mapped
  // to frames of its own, or it is cleared. If it was unmapped before this is all or nothing:
  // a failed call changes no translation and the allocator has lost only frames that became
  // tables.
  ghost predicate Outcome(d0: seq<nat>, F0: set<nat>, m0: View, next0: nat, d: seq<nat>, F: set<nat>, m: View, next: nat,
                          ready: bool, count: nat, managed: set<nat>, ret: nat, frames: seq<nat>) {
    var v: nat := next0 / PAGE_SIZE;
    if Refused(ready, next0, count) then
      ret == 0 && next == next0 && d == d0 && m == m0 && F == F0
    else
      && next == next0 + count * PAGE_SIZE
      && (ret != 0 <==> |F0| >= Needed(d0, v, count))
      && if ret != 0 then
           ret == next0 && |frames| == count && Taken(d0, F0, d, F, v, frames) && Filled(m0, m, v, frames)
         else
           && Undone(d0, F0, m0, d, F, m, v, count, |frames|, managed)
           && (Unmapped(m0, v, count) ==> m == m0 && Grew(d0, F0, d, F))
  }

  method AllocPages(s: AddressSpace, count: nat) returns (ret: nat, ghost frames: seq<nat>)
    requires s.Valid() && s.next < WORD && s.next % PAGE_SIZE == 0
    requires !Refused(s.ready, s.next, count) ==>
      count < 0x10_0000 && Avoids(s.View(), s.next / PAGE_SIZE, count, s.free + Tables(s.pd[..]))
    modifies s`mem, s`free, s`next, s.pd
    ensures s.Valid()
    ensures Outcome(old(s.pd[..]), old(s.free), old(s.View()), old(s.next), s.pd[..], s.free, s.View(), s.next,
                    s.ready, count, s.managed, ret, frames)
  {
    frames, ret := [], 0;
    if count != 0 && s.ready && s.next != 0 && TotalBytes(count) <= 0xFFFF_FFFF - s.next {
      NoWrap(count);
      var start := s.next;
      s.next := start + TotalBytes(count);
      PageOf(start, 0, count + 1);
      var done;
      done, frames := MapRange(s, start / PAGE_SIZE, count);
      ret := if done then start else 0;
    }
  }

  method MapRange(s: AddressSpace, v: nat, count: nat) returns (done: bool, ghost frames: seq<nat>)
    requires s.Valid() && s.ready && v + count <= PAGES
    requires Avoids(s.View(), v, count, s.free + Tables(s.pd[..]))
    modifies s`mem, s`free, s.pd
    ensures s.Valid() && (done <==> |old(s.free)| >= Needed(old(s.pd[..]), v, count))
    ensures done ==>
      && |frames| == count
      && Taken(old(s.pd[..]), old(s.free), s.pd[..], s.free, v, frames)
      && Filled(old(s.View()), s.View(), v, frames)
    ensures !done ==>
      && Undone(old(s.pd[..]), old(s.free), old(s.View()), s.pd[..], s.free, s.View(), v, count, |frames|, s.managed)
      && (Unmapped(old(s.View()), v, count) ==>
            s.View() == old(s.View()) && Grew(old(s.pd[..]), old(s.free), s.pd[..], s.free))
  {
    ghost var d0, F0, m0 := s.pd[..], s.free, s.View();
    done, frames := MapBatch(s, v, count);
    MapMeans(d0, F0, s.pd[..], s.free, v, count, done, frames);
    if !done {
      Rollback(s, d0, F0, m0, v, count, frames);
    }
  }

  lemma MapMeans(d0: seq<nat>, F0: set<nat>, d: seq<nat>, F: set<nat>, v: nat, n: nat, done: bool, frames: seq<nat>)
    requires Taken(d0, F0, d, F, v, frames) && v + n <= PAGES
    requires if done then |frames| == n else |frames| < n && |F| < Cost(d, v + |frames|)
    ensures done <==> |F0| >= Needed(d0, v, n)
  {
    if !done {
      NeedGrows(d0, F0, d, F, v, |frames|, n);
    }
  }

  method Rollback(s: AddressSpace, ghost d0: seq<nat>, ghost F0: set<nat>, ghost m0: View, v: nat, count: nat, ghost frames: seq<nat>)
    requires s.Valid() && s.ready && v + count <= PAGES && |frames| <= count
    requires Taken(d0, F0, s.pd[..], s.free, v, frames) && Filled(m0, s.View(), v, frames)
    requires Avoids(m0, v, count, F0 + Tables(d0)) && F0 <= s.managed
    modifies s`mem, s`free
    ensures s.Valid()
    ensures Undone(d0, F0, m0, s.pd[..], s.free, s.View(), v, count, |frames|, s.managed)
    ensures Unmapped(m0, v, count) ==> s.View() == m0 && Grew(d0, F0, s.pd[..], s.free)
  {
    ghost var F, m := s.free, s.View();
    PageAddress(v);
    OwnFrames(d0, F0, m0, s.pd[..], F, m, v, count, frames);
    Release(s, v * PAGE_SIZE, count, false);
    RolledBack(d0, F0, m0, s.pd[..], F, m, s.free, s.View(), v, count, frames, s.managed);
  }

  lemma OwnFrames(d0: seq<nat>, F0: set<nat>, m0: View, d: seq<nat>, F: set<nat>, m: View, v: nat, n: nat, frames: seq<nat>)
    requires Taken(d0, F0, d, F, v, frames) && Filled(m0, m, v, frames) && |frames| <= n && v + n <= |m|
    requires Avoids(m0, v, n, F0 + Tables(d0))
    ensures Avoids(m, v, n, Tables(d))
  {
    FilledRange(m0, m, v, frames, n);
    PartFrames(m0, v, n, v + |frames|, n - |frames|);
    assert Tables(d) <= F + Tables(d) + Elems(frames);
  }

  lemma RolledBack(d0: seq<nat>, F0: set<nat>, m0: View, d: seq<nat>, F: set<nat>, m: View, F': set<nat>, m': View,
                   v: nat, n: nat, frames: seq<nat>, managed: set<nat>)
    requires Taken(d0, F0, d, F, v, frames) && Filled(m0, m, v, frames) && |frames| <= n && v + n <= |m|
    requires F0 <= managed && Released(m, F, m', F', v, n, managed)
    ensures Undone(d0, F0, m0, d, F', m', v, n, |frames|, managed)
    ensures Unmapped(m0, v, n) ==> m' == m0 && Grew(d0, F0, d, F')
  {
    FilledRange(m0, m, v, frames, n);
    PartFrames(m0, v, n, v + |frames|, n - |frames|);
    NoFrames(m0, v, n);
    ClearUndoesFill(m0, m, m', v, frames, n);
    GiveBack(d0, F0, d, F, v, frames, RangeFrames(m0, v + |frames|, n - |frames|), managed, F');
  }

  // Unmaps the range and returns every frame mapped in it; an unaligned range is left alone.
  method FreePages(s: AddressSpace, vaddr: nat, count: nat)
    requires s.Valid() && vaddr + count * PAGE_SIZE <= WORD
    requires vaddr != 0 && s.ready && vaddr % PAGE_SIZE == 0 ==> Avoids(s.View(), vaddr / PAGE_SIZE, count, Tables(s.pd[..]))
    modifies s`mem, s`free
    ensures s.Valid()
    ensures vaddr != 0 && s.ready && vaddr % PAGE_SIZE == 0 ==>
      Released(old(s.View()), old(s.free), s.View(), s.free, vaddr / PAGE_SIZE, count, s.managed)
    ensures vaddr == 0 || !s.ready || vaddr % PAGE_SIZE != 0 ==> s.View() == old(s.View()) && s.free == old(s.free)
  {
    if vaddr != 0 && count != 0 && s.ready {
      Release(s, vaddr, count, true);
    }
  }
}
