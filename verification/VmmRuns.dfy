// Whole runs of the kernel's address space, from its initial map on.
module VmmRuns {
  import opened Prelude
  import opened PageTables
  import opened Vmm
  import opened VmmPages
  import opened VmmBoot
  import opened VmmArea

  // ---- the direct map under the heap ----

  // The kernel half below page b is the direct map of n pages, but for the heap's pages: those
  // are mapped to frames that are not accounted for (A) any more.
  ghost predicate Shown(m: View, n: nat, b: nat, brk: nat, A: set<nat>) {
    forall u: nat | KERNEL_PAGE <= u < b && u < |m| ::
      if HEAP_FIRST <= u < brk then m[u].Some? && m[u].value.frame !in A
      else m[u] == if u < KERNEL_PAGE + n then Some(Mapping((u - KERNEL_PAGE) * PAGE_SIZE, true, false)) else None
  }

  lemma ShownKept(m0: View, m: View, n: nat, b: nat, brk: nat, A0: set<nat>, A: set<nat>)
    requires Shown(m0, n, b, brk, A0) && A <= A0 && SameWithin(m0, m, KERNEL_PAGE, b)
    ensures Shown(m, n, b, brk, A)
  {
    forall u: nat | KERNEL_PAGE <= u < b && u < |m| ensures m[u] == m0[u] {
    }
  }

  lemma ShownGrown(m0: View, m: View, n: nat, b: nat, brk: nat, A0: set<nat>, A: set<nat>)
    requires Shown(m0, n, b, brk, A0) && A <= A0 && Hides(m0, m, b, brk, A) && HEAP_FIRST <= brk
    ensures Shown(m, n, b, brk + 1, A)
  {
    forall u: nat | KERNEL_PAGE <= u < b && u < |m| && u != brk ensures m[u] == m0[u] {
    }
  }

  // Physical addresses that the direct map shows where the heap's pages are.
  const HEAP_SHADOW: nat := (HEAP_FIRST - KERNEL_PAGE) * PAGE_SIZE

  // The kernel reads and writes a page table, or a frame it is about to use for one, through
  // the direct map. It reaches the frame exactly when this is below the end of the map and
  // no heap page is mapped in its place.
  lemma ReachedExactly(m: View, n: nat, b: nat, brk: nat, F: set<nat>, T: set<nat>, managed: set<nat>, f: nat)
    requires Area(m, b, F, T, managed) && Shown(m, n, b, brk, All(m, b, F, T)) && KERNEL_PAGE + n <= b <= PAGES
    requires f in F + T && f % PAGE_SIZE == 0
    ensures Reaches(m, f) <==> f < n * PAGE_SIZE && !(HEAP_SHADOW <= f < HEAP_SHADOW + (brk - HEAP_FIRST) * PAGE_SIZE)
  {
    var q := f / PAGE_SIZE;
    FramePage(f, q, n, brk);
    var u := KERNEL_PAGE + q;
    if b <= u < PAGES && m[u].Some? {
      HeldAt(m, b, u);
    }
  }

  lemma FramePage(f: nat, q: nat, n: nat, brk: nat)
    requires f % PAGE_SIZE == 0 && q == f / PAGE_SIZE
    ensures f == q * PAGE_SIZE && (f < n * PAGE_SIZE <==> q < n)
    ensures HEAP_SHADOW <= f < HEAP_SHADOW + (brk - HEAP_FIRST) * PAGE_SIZE <==> HEAP_FIRST <= KERNEL_PAGE + q < brk
  {
  }

  // ---- runs ----

  datatype Op = TakePages(count: nat) | GivePages(vaddr: nat, count: nat) | GrowHeap | DropIdentity

  // Requests for less than the whole address space; releases above the direct map, of any
  // range, aligned or not, mapped or not.
  ghost predicate Fair(op: Op, b: nat) {
    match op
    case TakePages(count) => count < 0x10_0000
    case GivePages(vaddr, count) => vaddr + count * PAGE_SIZE <= WORD && vaddr / PAGE_SIZE >= b
    case GrowHeap => true
    case DropIdentity => true
  }

  // Where a run began: the frames accounted for, the bump pointer, whether all above it was
  // unmapped, the page directory, and the pages of the direct map.
  datatype Origin = Origin(frames: set<nat>, next: nat, apart: bool, d: seq<nat>, pages: nat)

  // The frames lost so far: those of the tables of the identity half, once it is dropped.
  ghost function Lost(o: Origin, dropped: bool): set<nat> {
    if dropped then TablesBelow(o.d, 768) else {}
  }

  ghost function Directory(o: Origin, dropped: bool): seq<nat> {
    if dropped then Dropped(o.d, 768) else o.d
  }

  // A stage of a run. The frames lost are exactly those of the dropped tables as long as the
  // bump pointer has not passed the start of the heap's window.
  ghost predicate Stage(s: AddressSpace, b: nat, brk: nat, o: Origin, dropped: bool)
    reads s, s.pd
  {
    && Running(s, b, brk) && Total(s, b) <= o.frames - Lost(o, dropped) && Lost(o, dropped) <= o.frames
    && s.next >= o.next && (o.next == 0 ==> s.next == 0)
    && (Below(s.next) && o.apart ==> Total(s, b) == o.frames - Lost(o, dropped) && Apart(s.View(), s.next, brk))
    && SameBelow(Directory(o, dropped), s.pd[..], 768)
    && KERNEL_PAGE + o.pages <= b <= PAGES && Shown(s.View(), o.pages, b, brk, Total(s, b))
  }

  // ---- what each step does ----

  datatype Snapshot = Snapshot(d: seq<nat>, free: set<nat>, view: View, next: nat, brk: nat)

  ghost function Snap(s: AddressSpace, brk: nat): Snapshot
    requires s.Valid()
    reads s, s.pd
  {
    Snapshot(s.pd[..], s.free, s.View(), s.next, brk)
  }

  // A batch with its answer; a release; a page more for the heap exactly if there is room and
  // frames for it; the identity half unmapped.
  ghost predicate Did(op: Op, x: Snapshot, y: Snapshot, ret: nat, managed: set<nat>) {
    match op
    case TakePages(count) => y.brk == x.brk && Batched(x, y, ret, count, managed)
    case GivePages(vaddr, count) =>
      y.d == x.d && y.next == x.next && y.brk == x.brk && Returned(x.view, x.free, y.view, y.free, vaddr, count, managed)
    case GrowHeap =>
      if x.brk < HEAP_LAST && |x.free| >= Cost(x.d, x.brk)
      then y.next == x.next && y.brk == x.brk + 1 && PageAdded(x.d, x.free, x.view, y.d, y.free, y.view, x.brk)
      else y == x
    case DropIdentity =>
      && y.free == x.free && y.next == x.next && y.brk == x.brk && y.d == Dropped(x.d, 768)
      && |y.view| == |x.view| && forall u: nat | u < |x.view| :: y.view[u] == if u < KERNEL_PAGE then None else x.view[u]
  }

  ghost predicate Batched(x: Snapshot, y: Snapshot, ret: nat, count: nat, managed: set<nat>) {
    exists frames :: Outcome(x.d, x.free, x.view, x.next, y.d, y.free, y.view, y.next, true, count, managed, ret, frames)
  }

  // The states before, between and after the steps of a run, and its answers.
  ghost predicate Traced(ops: seq<Op>, trace: seq<Snapshot>, rets: seq<nat>, managed: set<nat>) {
    |trace| == |ops| + 1 && |rets| == |ops| && forall i: nat | i < |ops| :: DidAt(ops, trace, rets, managed, i)
  }

  ghost predicate DidAt(ops: seq<Op>, trace: seq<Snapshot>, rets: seq<nat>, managed: set<nat>, i: nat)
    requires i < |ops| && i < |rets| && i + 1 < |trace|
  {
    Did(ops[i], trace[i], trace[i + 1], rets[i], managed)
  }

  lemma TracedNext(ops: seq<Op>, i: nat, trace: seq<Snapshot>, rets: seq<nat>, y: Snapshot, ret: nat, managed: set<nat>)
    requires i < |ops| && Traced(ops[..i], trace, rets, managed) && Did(ops[i], trace[i], y, ret, managed)
    ensures Traced(ops[..i + 1], trace + [y], rets + [ret], managed)
  {
    var done, trace', rets' := ops[..i + 1], trace + [y], rets + [ret];
    forall k: nat | k < |done| ensures DidAt(done, trace', rets', managed, k) {
      assert k < i ==> DidAt(ops[..i], trace, rets, managed, k);
    }
  }

  lemma SameBelowTwice(a: seq<nat>, d: seq<nat>, e: seq<nat>, n: nat)
    requires SameBelow(a, d, n) && SameBelow(d, e, n)
    ensures SameBelow(a, e, n)
  {
    forall k | 0 <= k < |e| && k < n ensures e[k] == a[k] {
      assert d[k] == a[k];
    }
  }

  method TakeStep(s: AddressSpace, ghost b: nat, ghost brk: nat, count: nat, ghost o: Origin, ghost dropped: bool)
    returns (ret: nat)
    requires Stage(s, b, brk, o, dropped) && count < 0x10_0000
    modifies s`mem, s`free, s`next, s.pd
    ensures Stage(s, b, brk, o, dropped) && Batched(old(Snap(s, brk)), Snap(s, brk), ret, count, s.managed)
  {
    ghost var m0, A0, d0 := s.View(), Total(s, b), s.pd[..];
    ghost var frames;
    ret, frames := Take(s, b, brk, count);
    ShownKept(m0, s.View(), o.pages, b, brk, A0, Total(s, b));
    SameBelowTwice(Directory(o, dropped), d0, s.pd[..], 768);
  }

  method GiveStep(s: AddressSpace, ghost b: nat, ghost brk: nat, vaddr: nat, count: nat, ghost o: Origin, ghost dropped: bool)
    requires Stage(s, b, brk, o, dropped) && vaddr + count * PAGE_SIZE <= WORD && vaddr / PAGE_SIZE >= b
    modifies s`mem, s`free
    ensures Stage(s, b, brk, o, dropped)
    ensures Returned(old(s.View()), old(s.free), s.View(), s.free, vaddr, count, s.managed)
  {
    ghost var m0, A0 := s.View(), Total(s, b);
    Give(s, b, brk, vaddr, count);
    ShownKept(m0, s.View(), o.pages, b, brk, A0, Total(s, b));
  }

  method GrowStep(s: AddressSpace, ghost b: nat, brk: nat, ghost o: Origin, ghost dropped: bool) returns (brk': nat)
    requires Stage(s, b, brk, o, dropped)
    modifies s`mem, s`free, s.pd
    ensures Stage(s, b, brk', o, dropped) && Did(GrowHeap, old(Snap(s, brk)), Snap(s, brk'), 0, s.managed)
  {
    ghost var m0, A0, d0 := s.View(), Total(s, b), s.pd[..];
    brk' := Grow(s, b, brk);
    if brk' > brk {
      ShownGrown(m0, s.View(), o.pages, b, brk, A0, Total(s, b));
      SameBelowTwice(Directory(o, dropped), d0, s.pd[..], 768);
    } else {
      ShownKept(m0, s.View(), o.pages, b, brk, A0, Total(s, b));
    }
  }

  method DropStep(s: AddressSpace, ghost b: nat, ghost brk: nat, ghost o: Origin, ghost dropped: bool)
    requires Stage(s, b, brk, o, dropped)
    modifies s.pd
    ensures Stage(s, b, brk, o, true) && Did(DropIdentity, old(Snap(s, brk)), Snap(s, brk), 0, s.managed)
  {
    ghost var m0, A0, d0 := s.View(), Total(s, b), s.pd[..];
    Drop(s, b, brk);
    ShownKept(m0, s.View(), o.pages, b, brk, A0, Total(s, b));
    DroppedOnce(o, dropped, d0, s.pd[..]);
  }

  // Dropping again drops nothing.
  lemma DroppedOnce(o: Origin, dropped: bool, d0: seq<nat>, d: seq<nat>)
    requires SameBelow(Directory(o, dropped), d0, 768) && d == Dropped(d0, 768)
    ensures SameBelow(Directory(o, true), d, 768)
    ensures TablesBelow(d0, 768) == if dropped then {} else TablesBelow(o.d, 768)
  {
    var e := Directory(o, dropped);
    forall i: nat | i < |d0| && i < 768 ensures d0[i] == e[i] {
    }
    assert TablesBelow(d0, 768) == TablesBelow(e, 768);
    if dropped {
      forall i: nat | i < |e| && i < 768 ensures !Present(e[i]) {
      }
    }
  }

  method Step(s: AddressSpace, ghost b: nat, brk: nat, op: Op, ghost o: Origin, ghost dropped: bool)
    returns (brk': nat, ret: nat)
    requires Stage(s, b, brk, o, dropped) && Fair(op, b)
    modifies s`mem, s`free, s`next, s.pd
    ensures Stage(s, b, brk', o, dropped || op.DropIdentity?)
    ensures Did(op, old(Snap(s, brk)), Snap(s, brk'), ret, s.managed)
  {
    brk', ret := brk, 0;
    match op {
      case TakePages(count) => ret := TakeStep(s, b, brk, count, o, dropped);
      case GivePages(vaddr, count) => GiveStep(s, b, brk, vaddr, count, o, dropped);
      case GrowHeap => brk' := GrowStep(s, b, brk, o, dropped);
      case DropIdentity => DropStep(s, b, brk, o, dropped);
    }
  }

  ghost function StartOf(s: AddressSpace, b: nat, brk: nat, n: nat): Origin
    requires s.Valid()
    reads s, s.pd
  {
    Origin(Total(s, b), s.next, Apart(s.View(), s.next, brk), s.pd[..], n)
  }

  // A run after its first i steps, from the state `start`.
  ghost predicate Ran(s: AddressSpace, b: nat, brk: nat, ops: seq<Op>, i: nat, o: Origin,
                      rets: seq<nat>, trace: seq<Snapshot>, start: Snapshot)
    reads s, s.pd
  {
    && i <= |ops| && Stage(s, b, brk, o, DropIdentity in ops[..i])
    && Traced(ops[..i], trace, rets, s.managed) && trace[0] == start && trace[i] == Snap(s, brk)
  }

  lemma RanNext(ops: seq<Op>, i: nat, trace: seq<Snapshot>, rets: seq<nat>, y: Snapshot, ret: nat, managed: set<nat>)
    requires i < |ops| && Traced(ops[..i], trace, rets, managed) && Did(ops[i], trace[i], y, ret, managed)
    ensures DropIdentity in ops[..i + 1] <==> DropIdentity in ops[..i] || ops[i].DropIdentity?
    ensures Traced(ops[..i + 1], trace + [y], rets + [ret], managed)
    ensures (trace + [y])[0] == trace[0] && (trace + [y])[i + 1] == y
  {
    assert ops[..i + 1] == ops[..i] + [ops[i]];
    TracedNext(ops, i, trace, rets, y, ret, managed);
  }

  method RunStep(s: AddressSpace, ghost b: nat, brk: nat, ops: seq<Op>, i: nat, ghost o: Origin,
                 rets: seq<nat>, ghost trace: seq<Snapshot>, ghost start: Snapshot)
    returns (brk': nat, rets': seq<nat>, ghost trace': seq<Snapshot>)
    requires Ran(s, b, brk, ops, i, o, rets, trace, start) && i < |ops| && Fair(ops[i], b)
    modifies s`mem, s`free, s`next, s.pd
    ensures Ran(s, b, brk', ops, i + 1, o, rets', trace', start)
  {
    var ret;
    brk', ret := Step(s, b, brk, ops[i], o, DropIdentity in ops[..i]);
    RanNext(ops, i, trace, rets, Snap(s, brk'), ret, s.managed);
    rets', trace' := rets + [ret], trace + [Snap(s, brk')];
  }

  // Every batch of a run finds what it needs, and every mapped frame belongs to one page. The
  // frames lost are those of the tables of the identity half, if it is dropped, and no others
  // as long as the bump pointer has not run into the heap's window.
  method Run(s: AddressSpace, ghost b: nat, brk: nat, ops: seq<Op>, ghost n: nat)
    returns (brk': nat, rets: seq<nat>, ghost trace: seq<Snapshot>)
    requires Running(s, b, brk) && forall op <- ops :: Fair(op, b)
    requires KERNEL_PAGE + n <= b <= PAGES && Shown(s.View(), n, b, brk, Total(s, b))
    modifies s`mem, s`free, s`next, s.pd
    ensures Stage(s, b, brk', old(StartOf(s, b, brk, n)), DropIdentity in ops)
    ensures Traced(ops, trace, rets, s.managed) && trace[0] == old(Snap(s, brk)) && trace[|ops|] == Snap(s, brk')
  {
    brk', rets, trace := brk, [], [Snap(s, brk)];
    ghost var o := StartOf(s, b, brk, n);
    ghost var start := Snap(s, brk);
    var i: nat := 0;
    while i < |ops|
      invariant i <= |ops| && Ran(s, b, brk', ops, i, o, rets, trace, start)
      modifies s`mem, s`free, s`next, s.pd
    {
      brk', rets, trace := RunStep(s, b, brk', ops, i, o, rets, trace, start);
      i := i + 1;
    }
    assert ops[..i] == ops;
  }

  // ---- from the initial map on ----

  // The first page above the direct map; there is none when the bump pointer stays 0.
  function AreaStart(next: nat): nat {
    if next == 0 then PAGES else next / PAGE_SIZE
  }

  // The address space after the initial map, before any run.
  ghost predicate Booted(s: AddressSpace, n: nat, next: nat, frames: set<nat>)
    reads s, s.pd
  {
    var b := AreaStart(next);
    && Running(s, b, HEAP_FIRST) && s.next == next && Total(s, b) == frames && DirectMap(s.View(), n, n)
    && |TablesBelow(s.pd[..], 768)| == TablesOf(n) && TablesBelow(s.pd[..], 768) <= Tables(s.pd[..])
    && KERNEL_PAGE + n <= b <= PAGES && Shown(s.View(), n, b, HEAP_FIRST, Total(s, b))
    && (next != 0 ==> Apart(s.View(), next, HEAP_FIRST))
  }

  method Boot(s: AddressSpace, kernelEnd: nat, base: nat, totalPages: nat) returns (mapEnd: nat)
    requires s.Valid() && s.View() == seq(PAGES, _ => None) && !s.ready && s.next == 0 && Tables(s.pd[..]) == {}
    modifies s`mem, s`free, s`next, s`ready, s.pd
    ensures s.Valid() && mapEnd == MapEnd(kernelEnd, PmmEnd(base, totalPages))
    ensures s.ready <==> |old(s.free)| >= 2 * TablesOf(mapEnd / PAGE_SIZE)
    ensures s.ready ==> Booted(s, mapEnd / PAGE_SIZE, BumpStart(mapEnd), old(s.free))
  {
    mapEnd := Init(s, kernelEnd, base, totalPages);
    if s.ready {
      Start(s.View(), s.next, s.free, Tables(s.pd[..]), s.managed);
      StartShown(s.View(), mapEnd, s.next, Total(s, AreaStart(s.next)));
      IdentityTables(s.pd[..], s.mem, s.free, mapEnd / PAGE_SIZE, |old(s.free)|);
    }
  }

  // Every step does what its operation says, from the initial map on.
  ghost predicate FromBoot(ops: seq<Op>, trace: seq<Snapshot>, rets: seq<nat>, n: nat, next: nat, end: Snapshot, managed: set<nat>) {
    && Traced(ops, trace, rets, managed) && trace[|ops|] == end
    && trace[0].brk == HEAP_FIRST && trace[0].next == next && DirectMap(trace[0].view, n, n)
  }

  // Runs that begin with the kernel's own mapping. Dropping the identity half loses one frame
  // for each table under it, and nothing else loses any below the heap's window. Free frames
  // and tables stay within the kernel's reach exactly as the heap leaves the direct map.
  method BootAndRun(s: AddressSpace, kernelEnd: nat, base: nat, totalPages: nat, ops: seq<Op>)
    returns (mapEnd: nat, brk: nat, ghost lost: set<nat>, rets: seq<nat>, ghost trace: seq<Snapshot>)
    requires s.Valid() && s.View() == seq(PAGES, _ => None) && !s.ready && s.next == 0 && Tables(s.pd[..]) == {}
    requires forall op <- ops :: Fair(op, AreaStart(BumpStart(MapEnd(kernelEnd, PmmEnd(base, totalPages)))))
    modifies s`mem, s`free, s`next, s`ready, s.pd
    ensures s.Valid() && mapEnd == MapEnd(kernelEnd, PmmEnd(base, totalPages))
    ensures s.ready <==> |old(s.free)| >= 2 * TablesOf(mapEnd / PAGE_SIZE)
    ensures s.ready ==>
      && Running(s, AreaStart(BumpStart(mapEnd)), brk)
      && lost <= old(s.free) && |lost| == (if DropIdentity in ops then TablesOf(mapEnd / PAGE_SIZE) else 0)
      && Total(s, AreaStart(BumpStart(mapEnd))) <= old(s.free) - lost
    ensures s.ready ==> FromBoot(ops, trace, rets, mapEnd / PAGE_SIZE, BumpStart(mapEnd), Snap(s, brk), s.managed)
    ensures s.ready && Below(s.next) ==>
      s.free + Tables(s.pd[..]) + Held(s.View(), AreaStart(BumpStart(mapEnd))) == old(s.free) - lost
    ensures s.ready ==> forall f <- s.free + Tables(s.pd[..]) ::
      Reaches(s.View(), f) <==> f < mapEnd && !(HEAP_SHADOW <= f < HEAP_SHADOW + (brk - HEAP_FIRST) * PAGE_SIZE)
    ensures s.ready && (mapEnd <= HEAP_SHADOW || brk == HEAP_FIRST) ==>
      forall f <- s.free + Tables(s.pd[..]) :: Reaches(s.View(), f) <==> f < mapEnd
  {
    mapEnd := Boot(s, kernelEnd, base, totalPages);
    brk, lost, rets, trace := HEAP_FIRST, {}, [], [];
    if s.ready {
      ghost var d0, n, b := s.pd[..], mapEnd / PAGE_SIZE, AreaStart(s.next);
      brk, rets, trace := Run(s, b, brk, ops, n);
      lost := if DropIdentity in ops then TablesBelow(d0, 768) else {};
      AllReached(s, n, b, brk);
    }
  }

  lemma Start(m: View, next: nat, F: set<nat>, T: set<nat>, managed: set<nat>)
    requires |m| == PAGES && F <= managed && next < WORD && next % PAGE_SIZE == 0
    requires next != 0 ==> Unmapped(m, next / PAGE_SIZE, PAGES - next / PAGE_SIZE)
    ensures Area(m, AreaStart(next), F, T, managed) && All(m, AreaStart(next), F, T) == F + T
    ensures Pointer(next, AreaStart(next)) && (next != 0 ==> Apart(m, next, HEAP_FIRST))
  {
  }

  lemma StartShown(m: View, mapEnd: nat, next: nat, A: set<nat>)
    requires |m| == PAGES && mapEnd <= 0x4000_0000 && mapEnd % PAGE_SIZE == 0 && next == BumpStart(mapEnd)
    requires DirectMap(m, mapEnd / PAGE_SIZE, mapEnd / PAGE_SIZE)
    ensures KERNEL_PAGE + mapEnd / PAGE_SIZE <= AreaStart(next) <= PAGES
    ensures Shown(m, mapEnd / PAGE_SIZE, AreaStart(next), HEAP_FIRST, A)
  {
  }

  // The tables of the identity half are as many as the initial map needs for it.
  lemma IdentityTables(d: seq<nat>, mem: Memory, F: set<nat>, n: nat, total: nat)
    requires Inv(d, mem, F) && Built(d, F, n, n, total) && n <= 0x4_0000
    ensures |TablesBelow(d, 768)| == TablesOf(n)
  {
    assert TablesOf(n) <= 256;
    CountBelow(d, mem, F, TablesOf(n));
    assert TablesBelow(d, 768) == TablesBelow(d, TablesOf(n));
  }

  lemma {:induction false} CountBelow(d: seq<nat>, mem: Memory, F: set<nat>, k: nat)
    requires Inv(d, mem, F) && k <= ENTRIES && forall i: nat | i < k :: Present(d[i])
    ensures |TablesBelow(d, k)| == k
  {
    if k > 0 {
      CountBelow(d, mem, F, k - 1);
      assert TablesBelow(d, k) == TablesBelow(d, k - 1) + {Frame(d[k - 1])};
    }
  }

  lemma AllReached(s: AddressSpace, n: nat, b: nat, brk: nat)
    requires Running(s, b, brk) && Shown(s.View(), n, b, brk, Total(s, b)) && KERNEL_PAGE + n <= b <= PAGES
    ensures forall f <- s.free + Tables(s.pd[..]) ::
      Reaches(s.View(), f) <==> f < n * PAGE_SIZE && !(HEAP_SHADOW <= f < HEAP_SHADOW + (brk - HEAP_FIRST) * PAGE_SIZE)
  {
    forall f | f in s.free + Tables(s.pd[..])
      ensures Reaches(s.View(), f) <==> f < n * PAGE_SIZE && !(HEAP_SHADOW <= f < HEAP_SHADOW + (brk - HEAP_FIRST) * PAGE_SIZE)
    {
      ReachedExactly(s.View(), n, b, brk, s.free, Tables(s.pd[..]), s.managed, f);
    }
  }

  // The kernel drops the identity half right after the initial map, so every boot that gets
  // there loses at least the four frames of the tables for the first 16 MiB.
  method DropLoses(s: AddressSpace, kernelEnd: nat, base: nat, totalPages: nat) returns (mapEnd: nat, brk: nat, ghost lost: set<nat>)
    requires s.Valid() && s.View() == seq(PAGES, _ => None) && !s.ready && s.next == 0 && Tables(s.pd[..]) == {}
    requires |s.free| >= 512
    modifies s`mem, s`free, s`next, s`ready, s.pd
    ensures mapEnd == MapEnd(kernelEnd, PmmEnd(base, totalPages)) && s.ready && Running(s, AreaStart(BumpStart(mapEnd)), brk)
    ensures Total(s, AreaStart(BumpStart(mapEnd))) < old(s.free) && 4 <= |lost| <= 256
    ensures lost <= old(s.free) && Total(s, AreaStart(BumpStart(mapEnd))) !! lost
  {
    EnoughTables(MapEnd(kernelEnd, PmmEnd(base, totalPages)));
    var rets;
    ghost var trace;
    mapEnd, brk, lost, rets, trace := BootAndRun(s, kernelEnd, base, totalPages, [DropIdentity]);
    LostSome(Total(s, AreaStart(BumpStart(mapEnd))), old(s.free), lost);
  }

  lemma LostSome(A: set<nat>, frames: set<nat>, lost: set<nat>)
    requires A <= frames - lost && lost <= frames && |lost| > 0
    ensures A < frames && A !! lost
  {
    var f :| f in lost;
    assert f in frames && f !in A;
  }

  lemma EnoughTables(mapEnd: nat)
    requires 0x100_0000 <= mapEnd <= 0x4000_0000
    ensures 4 <= TablesOf(mapEnd / PAGE_SIZE) <= 256
  {
  }

  // ---- the bump pointer and the heap ----

  // The bump pointer starts at or below the heap's window exactly when the direct map ends
  // at 512 MiB or below, and otherwise the direct map itself reaches into the window.
  lemma StartsBelow(mapEnd: nat, m: View)
    requires mapEnd <= 0x4000_0000 && mapEnd % PAGE_SIZE == 0 && |m| == PAGES
    requires DirectMap(m, mapEnd / PAGE_SIZE, mapEnd / PAGE_SIZE)
    ensures Below(BumpStart(mapEnd)) <==> mapEnd <= 0x2000_0000
    ensures m[HEAP_FIRST].Some? <==> mapEnd > 0x2000_0000
  {
  }

  // With managed memory ending at 512 MiB the very first batch after the heap's first page
  // is mapped over that page, whose frame is then lost.
  method FirstBatchHitsHeap(s: AddressSpace, kernelEnd: nat, base: nat, totalPages: nat) returns (ret: nat)
    requires s.Valid() && s.View() == seq(PAGES, _ => None) && !s.ready && s.next == 0 && Tables(s.pd[..]) == {}
    requires MapEnd(kernelEnd, PmmEnd(base, totalPages)) == 0x2000_0000 && |s.free| >= 259
    modifies s`mem, s`free, s`next, s`ready, s.pd
    ensures Running(s, HEAP_FIRST, HEAP_FIRST + 1) && ret == HEAP_FIRST * PAGE_SIZE
    ensures Total(s, HEAP_FIRST) < old(s.free)
  {
    HeapBoot(s, kernelEnd, base, totalPages);
    var brk := Grow(s, HEAP_FIRST, HEAP_FIRST);
    OnePageNeeds(s.pd[..], s.free, s.View(), s.next);
    ghost var frames;
    ret, frames := Take(s, HEAP_FIRST, brk, 1);
  }

  method HeapBoot(s: AddressSpace, kernelEnd: nat, base: nat, totalPages: nat)
    requires s.Valid() && s.View() == seq(PAGES, _ => None) && !s.ready && s.next == 0 && Tables(s.pd[..]) == {}
    requires MapEnd(kernelEnd, PmmEnd(base, totalPages)) == 0x2000_0000 && |s.free| >= 259
    modifies s`mem, s`free, s`next, s`ready, s.pd
    ensures Running(s, HEAP_FIRST, HEAP_FIRST) && Total(s, HEAP_FIRST) == old(s.free)
    ensures s.next == HEAP_FIRST * PAGE_SIZE && Cost(s.pd[..], HEAP_FIRST) == 2 && |s.free| >= 3
  {
    var mapEnd := Init(s, kernelEnd, base, totalPages);
    BuiltTo512(s.pd[..], s.free, |old(s.free)|);
    Start(s.View(), s.next, s.free, Tables(s.pd[..]), s.managed);
  }

  lemma BuiltTo512(d: seq<nat>, F: set<nat>, total: nat)
    requires total >= 2 * TablesOf(0x2000_0000 / PAGE_SIZE) ==> Built(d, F, 0x2000_0000 / PAGE_SIZE, 0x2000_0000 / PAGE_SIZE, total)
    requires total >= 259 && |d| == ENTRIES
    ensures total >= 2 * TablesOf(0x2000_0000 / PAGE_SIZE) && |F| + 256 == total
    ensures Cost(d, HEAP_FIRST) == 2 && BumpStart(0x2000_0000) == HEAP_FIRST * PAGE_SIZE
  {
    assert TablesOf(0x2000_0000 / PAGE_SIZE) == 128;
    assert HEAP_FIRST / ENTRIES == 896;
  }

  lemma OnePageNeeds(d: seq<nat>, F: set<nat>, m: View, next: nat)
    requires |d| == ENTRIES && Present(d[HEAP_FIRST / ENTRIES]) && |F| >= 1
    requires next == HEAP_FIRST * PAGE_SIZE && |m| == PAGES && m[HEAP_FIRST].Some?
    ensures !Refused(true, next, 1) && |F| >= Needed(d, next / PAGE_SIZE, 1) && !Unmapped(m, next / PAGE_SIZE, 1)
  {
    assert next / PAGE_SIZE == HEAP_FIRST;
    NewTablesNext(d, HEAP_FIRST, 0);
    assert NewTables(d, HEAP_FIRST, 0) == {};
  }
}
