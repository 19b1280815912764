// The page area above the direct map, one step at a time: batches are taken and given up,
// the kernel heap grows page by page in its own window of the same addresses, and the
// identity half is dropped. Which frames each step keeps accounted for.
module VmmArea {
  import opened Prelude
  import opened PageTables
  import opened Vmm
  import opened VmmPages
  import opened VmmBoot

  // ---- what is held ----

  // Frames mapped from page b on.
  ghost function Held(m: View, b: nat): set<nat> {
    RangeFrames(m, b, PAGES)
  }

  // No two pages from b on share a frame.
  ghost predicate Distinct(m: View, b: nat) {
    forall u, w | b <= u < w < |m| && m[u].Some? && m[w].Some? :: m[u].value.frame != m[w].value.frame
  }

  // Frames mapped from page b on belong to their page alone.
  ghost predicate Area(m: View, b: nat, F: set<nat>, T: set<nat>, managed: set<nat>) {
    && |m| == PAGES && F <= managed
    && Held(m, b) <= managed && Held(m, b) !! F + T && Distinct(m, b)
  }

  // All frames the address space accounts for.
  ghost function All(m: View, b: nat, F: set<nat>, T: set<nat>): set<nat> {
    F + T + Held(m, b)
  }

  lemma HeldAt(m: View, b: nat, u: nat)
    requires b <= u < |m| <= PAGES && m[u].Some?
    ensures m[u].value.frame in Held(m, b)
  {
  }

  // ---- one batch mapped ----

  lemma FillHeld(m0: View, m: View, b: nat, v: nat, frames: seq<nat>)
    requires Filled(m0, m, v, frames) && |m0| == PAGES && b <= v && v + |frames| <= PAGES
    ensures Held(m, b) <= Held(m0, b) + Elems(frames) && Elems(frames) <= Held(m, b)
  {
    forall f | f in Held(m, b) ensures f in Held(m0, b) + Elems(frames) {
      var u :| b <= u < b + PAGES && u < |m| && m[u].Some? && m[u].value.frame == f;
      if v <= u < v + |frames| {
        assert frames[u - v] in Elems(frames);
      } else {
        HeldAt(m0, b, u);
      }
    }
    forall i | 0 <= i < |frames| ensures frames[i] in Held(m, b) {
      HeldAt(m, b, v + i);
    }
  }

  lemma FillDistinct(m0: View, m: View, b: nat, v: nat, frames: seq<nat>)
    requires Filled(m0, m, v, frames) && |m0| == PAGES && b <= v && v + |frames| <= PAGES
    requires Distinct(m0, b) && Elems(frames) !! Held(m0, b)
    requires forall i, j | 0 <= i < j < |frames| :: frames[i] != frames[j]
    ensures Distinct(m, b)
  {
    forall u, w | b <= u < w < |m| && m[u].Some? && m[w].Some? ensures m[u].value.frame != m[w].value.frame {
      NewOrOld(m0, m, b, v, frames, u);
      NewOrOld(m0, m, b, v, frames, w);
    }
  }

  lemma NewOrOld(m0: View, m: View, b: nat, v: nat, frames: seq<nat>, u: nat)
    requires Filled(m0, m, v, frames) && |m0| == PAGES && b <= u < |m| && m[u].Some?
    ensures if v <= u < v + |frames| then m[u].value.frame == frames[u - v] && frames[u - v] in Elems(frames)
            else m[u] == m0[u] && m0[u].value.frame in Held(m0, b)
  {
    if !(v <= u < v + |frames|) {
      HeldAt(m0, b, u);
    }
  }

  // A frame still mapped somewhere else is not lost; one mapped in the range only is.
  lemma FillKeepsHeld(m0: View, m: View, b: nat, v: nat, frames: seq<nat>)
    requires Filled(m0, m, v, frames) && |m0| == PAGES && b <= v && v + |frames| <= PAGES
    requires Distinct(m0, b) && Elems(frames) !! Held(m0, b)
    ensures Held(m0, b) <= Held(m, b) <==> Unmapped(m0, v, |frames|)
  {
    if Unmapped(m0, v, |frames|) {
      forall f | f in Held(m0, b) ensures f in Held(m, b) {
        var u :| b <= u < b + PAGES && u < |m0| && m0[u].Some? && m0[u].value.frame == f;
        HeldAt(m, b, u);
      }
    } else {
      var u :| v <= u < v + |frames| && m0[u].Some?;
      var f := m0[u].value.frame;
      HeldAt(m0, b, u);
      forall w | b <= w < |m| && m[w].Some? ensures m[w].value.frame != f {
        NewOrOld(m0, m, b, v, frames, w);
      }
    }
  }

  // Mapping a batch keeps every frame accounted for exactly when its range was unmapped.
  lemma AreaFilled(m0: View, F0: set<nat>, d0: seq<nat>, m: View, F: set<nat>, d: seq<nat>,
                   b: nat, v: nat, frames: seq<nat>, managed: set<nat>)
    requires Area(m0, b, F0, Tables(d0), managed) && Taken(d0, F0, d, F, v, frames) && Filled(m0, m, v, frames)
    requires b <= v && v + |frames| <= PAGES
    ensures Area(m, b, F, Tables(d), managed)
    ensures All(m, b, F, Tables(d)) <= All(m0, b, F0, Tables(d0))
    ensures All(m, b, F, Tables(d)) == All(m0, b, F0, Tables(d0)) <==> Unmapped(m0, v, |frames|)
  {
    FillHeld(m0, m, b, v, frames);
    FillDistinct(m0, m, b, v, frames);
    FillKeepsHeld(m0, m, b, v, frames);
    FilledSets(F0, Tables(d0), Held(m0, b), F, Tables(d), Held(m, b), Elems(frames));
  }

  lemma FilledSets(F0: set<nat>, T0: set<nat>, H0: set<nat>, F: set<nat>, T: set<nat>, H: set<nat>, E: set<nat>)
    requires H0 !! F0 + T0 && E <= F0 - F && E !! T && F <= F0 && F + T + E == F0 + T0
    requires H <= H0 + E && E <= H
    ensures H !! F + T && F + T + H <= F0 + T0 + H0
    ensures F + T + H == F0 + T0 + H0 <==> H0 <= H
  {
    if F + T + H == F0 + T0 + H0 {
      forall f | f in H0 ensures f in H {
        assert f in F + T ==> f in F0 + T0;
      }
    }
  }

  // ---- a range cleared ----

  lemma ClearHeld(m0: View, m: View, b: nat, v: nat, n: nat)
    requires ClearedTo(m0, m, v, n) && |m0| == PAGES && b <= v && v + n <= PAGES
    ensures Held(m0, b) == Held(m, b) + RangeFrames(m0, v, n) && (Distinct(m0, b) ==> Distinct(m, b))
    ensures Distinct(m0, b) ==> Held(m, b) !! RangeFrames(m0, v, n)
  {
    forall f | f in Held(m0, b) ensures f in Held(m, b) + RangeFrames(m0, v, n) {
      var u :| b <= u < b + PAGES && u < |m0| && m0[u].Some? && m0[u].value.frame == f;
      if !(v <= u < v + n) {
        HeldAt(m, b, u);
      }
    }
    PartHeld(m0, m, b, v, n);
  }

  lemma PartHeld(m0: View, m: View, b: nat, v: nat, n: nat)
    requires ClearedTo(m0, m, v, n) && |m0| == PAGES && b <= v && v + n <= PAGES
    ensures Held(m, b) <= Held(m0, b) && RangeFrames(m0, v, n) <= Held(m0, b)
    ensures Distinct(m0, b) ==> Held(m, b) !! RangeFrames(m0, v, n)
  {
    forall f | f in Held(m, b) ensures f in Held(m0, b) && (Distinct(m0, b) ==> f !in RangeFrames(m0, v, n)) {
      var u :| b <= u < b + PAGES && u < |m| && m[u].Some? && m[u].value.frame == f;
      HeldAt(m0, b, u);
    }
    forall f | f in RangeFrames(m0, v, n) ensures f in Held(m0, b) {
      var u :| v <= u < v + n && u < |m0| && m0[u].Some? && m0[u].value.frame == f;
      HeldAt(m0, b, u);
    }
  }

  // Giving up a range loses nothing.
  lemma AreaReleased(m0: View, F0: set<nat>, T: set<nat>, m: View, F: set<nat>, b: nat, v: nat, n: nat, managed: set<nat>)
    requires Area(m0, b, F0, T, managed) && Released(m0, F0, m, F, v, n, managed) && b <= v && v + n <= PAGES
    ensures Area(m, b, F, T, managed) && All(m, b, F, T) == All(m0, b, F0, T)
  {
    ClearHeld(m0, m, b, v, n);
    var R := RangeFrames(m0, v, n);
    assert R * managed == R;
  }

  // A batch that ran out of memory after k pages loses nothing exactly when these were
  // unmapped before.
  lemma AreaUndone(m0: View, F0: set<nat>, d0: seq<nat>, m: View, F: set<nat>, d: seq<nat>,
                   b: nat, v: nat, n: nat, k: nat, managed: set<nat>)
    requires Area(m0, b, F0, Tables(d0), managed) && Undone(d0, F0, m0, d, F, m, v, n, k, managed)
    requires b <= v && v + n <= PAGES && F <= managed
    ensures Area(m, b, F, Tables(d), managed)
    ensures All(m, b, F, Tables(d)) <= All(m0, b, F0, Tables(d0))
    ensures All(m, b, F, Tables(d)) == All(m0, b, F0, Tables(d0)) <==> Unmapped(m0, v, k)
  {
    ClearHeld(m0, m, b, v, n);
    TwoParts(m0, b, v, n, k);
    NoFrames(m0, v, k);
    UndoneSets(F0 + Tables(d0), Held(m0, b), F + Tables(d), Held(m, b), RangeFrames(m0, v, k), RangeFrames(m0, v + k, n - k), managed);
  }

  lemma UndoneSets(A0: set<nat>, H0: set<nat>, A: set<nat>, H: set<nat>, lost: set<nat>, kept: set<nat>, managed: set<nat>)
    requires A0 !! H0 && H0 <= managed && H0 == H + (lost + kept) && H !! lost + kept && lost !! kept
    requires A == A0 + kept * managed
    ensures A !! H && A + H <= A0 + H0 && (A + H == A0 + H0 <==> lost == {})
  {
    assert kept * managed == kept;
    if A + H == A0 + H0 {
      forall f ensures f !in lost {
        assert f in lost ==> f in H0;
      }
    }
  }

  lemma TwoParts(m: View, b: nat, v: nat, n: nat, k: nat)
    requires Distinct(m, b) && |m| == PAGES && b <= v && v + n <= PAGES && k <= n
    ensures RangeFrames(m, v, n) == RangeFrames(m, v, k) + RangeFrames(m, v + k, n - k)
    ensures RangeFrames(m, v, k) !! RangeFrames(m, v + k, n - k)
  {
    PartFrames(m, v, n, v, k);
    PartFrames(m, v, n, v + k, n - k);
    forall f | f in RangeFrames(m, v, n) ensures f in RangeFrames(m, v, k) + RangeFrames(m, v + k, n - k) {
      var u :| v <= u < v + n && u < |m| && m[u].Some? && m[u].value.frame == f;
      assert u < v + k || v + k <= u < v + k + (n - k);
    }
  }

  // ---- steps ----

  // Every page from the bump pointer on is unmapped, the heap's own pages aside.
  ghost predicate Apart(m: View, next: nat, brk: nat) {
    forall u | next / PAGE_SIZE <= u < |m| && !(HEAP_FIRST <= u < brk) :: m[u].None?
  }

  // The bump pointer is set and has not run into the heap's window.
  ghost predicate Below(next: nat) {
    0 < next <= HEAP_FIRST * PAGE_SIZE
  }

  // The bump pointer is a page address above the direct map, or 0.
  ghost predicate Pointer(next: nat, b: nat) {
    next < WORD && next % PAGE_SIZE == 0 && (next != 0 ==> b <= next / PAGE_SIZE)
  }

  // What holds between calls: b is the first page above the direct map.
  ghost predicate Running(s: AddressSpace, b: nat, brk: nat)
    reads s, s.pd
  {
    && s.Valid() && s.ready && KERNEL_PAGE <= b && Pointer(s.next, b) && HEAP_FIRST <= brk <= HEAP_LAST
    && Area(s.View(), b, s.free, Tables(s.pd[..]), s.managed)
  }

  ghost function Total(s: AddressSpace, b: nat): set<nat>
    requires s.Valid()
    reads s, s.pd
  {
    All(s.View(), b, s.free, Tables(s.pd[..]))
  }

  // The pages from lo to hi - 1 are mapped as before.
  ghost predicate SameWithin(m0: View, m: View, lo: nat, hi: nat) {
    |m| == |m0| && forall u | lo <= u < hi && u < |m| :: m[u] == m0[u]
  }

  lemma RangeBelow(m: View, next: nat, count: nat, brk: nat)
    requires Apart(m, next, brk) && next % PAGE_SIZE == 0 && next + count * PAGE_SIZE <= HEAP_FIRST * PAGE_SIZE
    ensures Unmapped(m, next / PAGE_SIZE, count)
  {
    assert next == next / PAGE_SIZE * PAGE_SIZE;
  }

  lemma PointerMoves(next: nat, count: nat)
    requires next % PAGE_SIZE == 0
    ensures (next + count * PAGE_SIZE) % PAGE_SIZE == 0
    ensures (next + count * PAGE_SIZE) / PAGE_SIZE == next / PAGE_SIZE + count
    ensures next + count * PAGE_SIZE < WORD ==> next / PAGE_SIZE + count <= PAGES
  {
    PageOf(next, count, count + 1);
  }

  lemma HeldPart(m: View, b: nat, v: nat, n: nat)
    requires |m| == PAGES && b <= v
    ensures RangeFrames(m, v, n) <= Held(m, b)
  {
    forall u | v <= u < v + n && u < |m| && m[u].Some? ensures m[u].value.frame in Held(m, b) {
      HeldAt(m, b, u);
    }
  }

  // A batch that succeeds loses no frame exactly when its range was unmapped.
  method Take(s: AddressSpace, ghost b: nat, ghost brk: nat, count: nat) returns (ret: nat, ghost frames: seq<nat>)
    requires Running(s, b, brk) && count < 0x10_0000
    modifies s`mem, s`free, s`next, s.pd
    ensures Running(s, b, brk) && Total(s, b) <= old(Total(s, b))
    ensures s.next >= old(s.next) && (old(s.next) == 0 ==> s.next == 0)
    ensures ret != 0 <==> !Refused(s.ready, old(s.next), count) && |old(s.free)| >= Needed(old(s.pd[..]), old(s.next) / PAGE_SIZE, count)
    ensures ret != 0 ==>
      && ret == old(s.next)
      && (Total(s, b) == old(Total(s, b)) <==> Unmapped(old(s.View()), old(s.next) / PAGE_SIZE, count))
    ensures Below(s.next) && Apart(old(s.View()), old(s.next), brk) ==>
      Total(s, b) == old(Total(s, b)) && Apart(s.View(), s.next, brk)
    ensures SameWithin(old(s.View()), s.View(), KERNEL_PAGE, b) && SameBelow(old(s.pd[..]), s.pd[..], 768)
    ensures Outcome(old(s.pd[..]), old(s.free), old(s.View()), old(s.next), s.pd[..], s.free, s.View(), s.next,
                    true, count, s.managed, ret, frames)
  {
    ghost var m0, F0, d0, next0 := s.View(), s.free, s.pd[..], s.next;
    BeforeBatch(m0, F0, Tables(d0), b, next0, count, s.ready, s.managed);
    ret, frames := AllocPages(s, count);
    AfterBatch(m0, F0, d0, next0, s.View(), s.free, s.pd[..], s.next, b, s.ready, count, s.managed, ret, frames);
    AfterPointer(m0, F0, d0, next0, s.View(), s.free, s.pd[..], s.next, b, s.ready, count, s.managed, ret, frames);
    AfterBelow(m0, F0, d0, next0, s.View(), s.free, s.pd[..], s.next, b, brk, s.ready, count, s.managed, ret, frames);
    AfterElsewhere(m0, F0, d0, next0, s.View(), s.free, s.pd[..], s.next, b, s.ready, count, s.managed, ret, frames);
  }

  // Below the range, neither pages nor the directory entries of the identity half change.
  lemma AfterElsewhere(m0: View, F0: set<nat>, d0: seq<nat>, next0: nat, m: View, F: set<nat>, d: seq<nat>, next: nat,
                       b: nat, ready: bool, count: nat, managed: set<nat>, ret: nat, frames: seq<nat>)
    requires |m0| == PAGES && |d0| == ENTRIES && KERNEL_PAGE <= b && Pointer(next0, b)
    requires Outcome(d0, F0, m0, next0, d, F, m, next, ready, count, managed, ret, frames)
    ensures SameWithin(m0, m, KERNEL_PAGE, b) && SameBelow(d0, d, 768)
  {
    if !Refused(ready, next0, count) {
      KernelEntries(next0 / PAGE_SIZE);
    }
  }

  // Pages of the kernel half are under the directory entries from 768 on.
  lemma KernelEntries(v: nat)
    requires v >= KERNEL_PAGE
    ensures v / ENTRIES >= 768
  {
  }

  lemma BeforeBatch(m: View, F: set<nat>, T: set<nat>, b: nat, next: nat, count: nat, ready: bool, managed: set<nat>)
    requires Area(m, b, F, T, managed) && Pointer(next, b) && count < 0x10_0000
    ensures !Refused(ready, next, count) ==>
      next != 0 && next + count * PAGE_SIZE < WORD && Avoids(m, next / PAGE_SIZE, count, F + T)
  {
    NoWrap(count);
    if next != 0 {
      HeldPart(m, b, next / PAGE_SIZE, count);
    }
  }

  lemma AfterBatch(m0: View, F0: set<nat>, d0: seq<nat>, next0: nat, m: View, F: set<nat>, d: seq<nat>, next: nat,
                   b: nat, ready: bool, count: nat, managed: set<nat>, ret: nat, frames: seq<nat>)
    requires Area(m0, b, F0, Tables(d0), managed) && F <= managed && Pointer(next0, b) && count < 0x10_0000
    requires Outcome(d0, F0, m0, next0, d, F, m, next, ready, count, managed, ret, frames)
    ensures Area(m, b, F, Tables(d), managed) && All(m, b, F, Tables(d)) <= All(m0, b, F0, Tables(d0))
    ensures ret != 0 ==> (All(m, b, F, Tables(d)) == All(m0, b, F0, Tables(d0)) <==> Unmapped(m0, next0 / PAGE_SIZE, count))
  {
    BeforeBatch(m0, F0, Tables(d0), b, next0, count, ready, managed);
    if !Refused(ready, next0, count) {
      PointerMoves(next0, count);
      if ret != 0 {
        AreaFilled(m0, F0, d0, m, F, d, b, next0 / PAGE_SIZE, frames, managed);
      } else {
        AreaUndone(m0, F0, d0, m, F, d, b, next0 / PAGE_SIZE, count, |frames|, managed);
      }
    }
  }

  lemma AfterPointer(m0: View, F0: set<nat>, d0: seq<nat>, next0: nat, m: View, F: set<nat>, d: seq<nat>, next: nat,
                     b: nat, ready: bool, count: nat, managed: set<nat>, ret: nat, frames: seq<nat>)
    requires Pointer(next0, b) && count < 0x10_0000
    requires Outcome(d0, F0, m0, next0, d, F, m, next, ready, count, managed, ret, frames)
    ensures Pointer(next, b) && next >= next0 && (next0 == 0 ==> next == 0)
    ensures ret != 0 <==> !Refused(ready, next0, count) && |F0| >= Needed(d0, next0 / PAGE_SIZE, count)
    ensures ret != 0 ==> ret == next0
  {
    NoWrap(count);
    PointerMoves(next0, count);
  }

  // Below the heap's window the range was unmapped before, so nothing is lost.
  lemma AfterBelow(m0: View, F0: set<nat>, d0: seq<nat>, next0: nat, m: View, F: set<nat>, d: seq<nat>, next: nat,
                   b: nat, brk: nat, ready: bool, count: nat, managed: set<nat>, ret: nat, frames: seq<nat>)
    requires Area(m0, b, F0, Tables(d0), managed) && F <= managed && Pointer(next0, b) && count < 0x10_0000
    requires Outcome(d0, F0, m0, next0, d, F, m, next, ready, count, managed, ret, frames)
    ensures Below(next) && Apart(m0, next0, brk) ==>
      All(m, b, F, Tables(d)) == All(m0, b, F0, Tables(d0)) && Apart(m, next, brk)
  {
    BeforeBatch(m0, F0, Tables(d0), b, next0, count, ready, managed);
    if !Refused(ready, next0, count) && Below(next) && Apart(m0, next0, brk) {
      PointerMoves(next0, count);
      RangeBelow(m0, next0, count, brk);
      if ret != 0 {
        AreaFilled(m0, F0, d0, m, F, d, b, next0 / PAGE_SIZE, frames, managed);
      } else {
        AreaUndone(m0, F0, d0, m, F, d, b, next0 / PAGE_SIZE, count, |frames|, managed);
      }
    }
  }

  // The range is unmapped and its frames are free; an unaligned range is left alone.
  ghost predicate Returned(m0: View, F0: set<nat>, m: View, F: set<nat>, vaddr: nat, count: nat, managed: set<nat>) {
    if vaddr != 0 && vaddr % PAGE_SIZE == 0 then Released(m0, F0, m, F, vaddr / PAGE_SIZE, count, managed)
    else m == m0 && F == F0
  }

  method Give(s: AddressSpace, ghost b: nat, ghost brk: nat, vaddr: nat, count: nat)
    requires Running(s, b, brk) && vaddr + count * PAGE_SIZE <= WORD && vaddr / PAGE_SIZE >= b
    modifies s`mem, s`free
    ensures Running(s, b, brk) && Total(s, b) == old(Total(s, b))
    ensures Apart(old(s.View()), s.next, brk) ==> Apart(s.View(), s.next, brk)
    ensures SameWithin(old(s.View()), s.View(), KERNEL_PAGE, b)
    ensures Returned(old(s.View()), old(s.free), s.View(), s.free, vaddr, count, s.managed)
  {
    ghost var m0, F0 := s.View(), s.free;
    PageOf(vaddr, 0, count + 1);
    HeldPart(m0, b, vaddr / PAGE_SIZE, count);
    FreePages(s, vaddr, count);
    if vaddr != 0 && vaddr % PAGE_SIZE == 0 {
      if count > 0 {
        PageOf(vaddr, 0, count);
      }
      AreaReleased(m0, F0, Tables(s.pd[..]), s.View(), s.free, b, vaddr / PAGE_SIZE, count, s.managed);
    }
  }

  // Page v is mapped to a frame that was free, and a table is made for it if it was missing.
  ghost predicate PageAdded(d0: seq<nat>, F0: set<nat>, m0: View, d: seq<nat>, F: set<nat>, m: View, v: nat) {
    v < |m0| && exists f :: PageTaken(d0, F0, d, F, v, f) && m == m0[v := Some(Mapping(f, true, false))]
  }

  // One more page under the heap, from a fresh frame.
  method Grow(s: AddressSpace, ghost b: nat, brk: nat) returns (brk': nat)
    requires Running(s, b, brk)
    modifies s`mem, s`free, s.pd
    ensures Running(s, b, brk') && brk <= brk' && Total(s, b) <= old(Total(s, b))
    ensures Below(s.next) && Apart(old(s.View()), s.next, brk) ==>
      Total(s, b) == old(Total(s, b)) && Apart(s.View(), s.next, brk')
    ensures brk' == if brk < HEAP_LAST && |old(s.free)| >= Cost(old(s.pd[..]), brk) then brk + 1 else brk
    ensures if brk' > brk
      then Added(old(s.pd[..]), |old(s.free)|, old(s.View()), s.pd[..], |s.free|, s.View(), b, brk, Total(s, b))
           && PageAdded(old(s.pd[..]), old(s.free), old(s.View()), s.pd[..], s.free, s.View(), brk)
      else s.View() == old(s.View()) && s.pd[..] == old(s.pd[..]) && s.free == old(s.free)
  {
    brk' := brk;
    if brk < HEAP_LAST {
      var ok := GrowPage(s, b, brk);
      brk' := if ok then brk + 1 else brk;
    }
  }

  method GrowPage(s: AddressSpace, ghost b: nat, brk: nat) returns (ok: bool)
    requires Running(s, b, brk) && brk < HEAP_LAST
    modifies s`mem, s`free, s.pd
    ensures Running(s, b, brk) && (ok <==> |old(s.free)| >= Cost(old(s.pd[..]), brk))
    ensures Total(s, b) <= old(Total(s, b))
    ensures Below(s.next) && Apart(old(s.View()), s.next, brk) ==>
      Total(s, b) == old(Total(s, b)) && Apart(s.View(), s.next, if ok then brk + 1 else brk)
    ensures if ok
      then Added(old(s.pd[..]), |old(s.free)|, old(s.View()), s.pd[..], |s.free|, s.View(), b, brk, Total(s, b))
           && PageAdded(old(s.pd[..]), old(s.free), old(s.View()), s.pd[..], s.free, s.View(), brk)
      else s.View() == old(s.View()) && s.pd[..] == old(s.pd[..]) && s.free == old(s.free)
  {
    ghost var m0, F0, d0 := s.View(), s.free, s.pd[..];
    var f;
    ok, f := MapFresh(s, brk);
    if ok {
      AfterGrow(m0, F0, d0, s.View(), s.free, s.pd[..], b, s.next, brk, f, s.managed);
    }
    StillRunning(s, b, brk);
  }

  lemma StillRunning(s: AddressSpace, b: nat, brk: nat)
    requires s.Valid() && s.ready && KERNEL_PAGE <= b && Pointer(s.next, b) && HEAP_FIRST <= brk <= HEAP_LAST
    requires Area(s.View(), b, s.free, Tables(s.pd[..]), s.managed)
    ensures Running(s, b, brk)
  {
  }

  ghost predicate SameBut(m0: View, m: View, v: nat) {
    |m| == |m0| && forall u | 0 <= u < |m| && u != v :: m[u] == m0[u]
  }

  // Page v is mapped anew; below b, to a frame that is no longer accounted for.
  ghost predicate Hides(m0: View, m: View, b: nat, v: nat, A: set<nat>) {
    SameBut(m0, m, v) && (v < b && v < |m| ==> m[v].Some? && m[v].value.frame !in A)
  }

  // The heap's page v is mapped and its frames, at most two, are paid for.
  ghost predicate GrownAt(d0: seq<nat>, had: nat, d: seq<nat>, left: nat, m: View, v: nat) {
    && left + Cost(d0, v) == had
    && v / ENTRIES < |d| && Present(d[v / ENTRIES]) && v < |m| && m[v].Some?
  }

  // What one more heap page at v leaves behind.
  ghost predicate Added(d0: seq<nat>, had: nat, m0: View, d: seq<nat>, left: nat, m: View, b: nat, v: nat, A: set<nat>) {
    GrownAt(d0, had, d, left, m, v) && Hides(m0, m, b, v, A) && SameBelow(d0, d, 768)
  }

  lemma PageCost(d: seq<nat>, F: set<nat>, d': seq<nat>, F': set<nat>, v: nat, f: nat)
    requires PageTaken(d, F, d', F', v, f)
    ensures |F'| + Cost(d, v) == |F| && Present(d'[v / ENTRIES])
  {
    assert |F - {f}| == |F| - 1;
  }

  // The frame is accounted for again exactly when it is mapped above the direct map, at a
  // page that was unmapped.
  lemma AreaGrown(m0: View, F0: set<nat>, d0: seq<nat>, m: View, F: set<nat>, d: seq<nat>, b: nat, v: nat, f: nat, managed: set<nat>)
    requires Area(m0, b, F0, Tables(d0), managed) && PageTaken(d0, F0, d, F, v, f)
    requires m == m0[v := Some(Mapping(f, true, false))]
    ensures Area(m, b, F, Tables(d), managed) && All(m, b, F, Tables(d)) <= All(m0, b, F0, Tables(d0))
    ensures All(m, b, F, Tables(d)) == All(m0, b, F0, Tables(d0)) <==> b <= v && m0[v].None?
    ensures v < b ==> f !in All(m, b, F, Tables(d))
  {
    if b <= v {
      assert Elems([f]) == {f};
      assert Filled(m0, m, v, [f]);
      FillHeld(m0, m, b, v, [f]);
      FillDistinct(m0, m, b, v, [f]);
      FillKeepsHeld(m0, m, b, v, [f]);
      GrownSets(F0, Tables(d0), Held(m0, b), F, Tables(d), Held(m, b), f);
    } else {
      SameHeld(m0, m, b);
      assert f in All(m0, b, F0, Tables(d0)) && f !in All(m, b, F, Tables(d));
    }
  }

  lemma GrownSets(F0: set<nat>, T0: set<nat>, H0: set<nat>, F: set<nat>, T: set<nat>, H: set<nat>, f: nat)
    requires H0 !! F0 + T0 && F <= F0 && f in F0 && f !in F && f !in T && F + T + {f} == F0 + T0
    requires H <= H0 + {f} && f in H
    ensures H !! F + T && F + T + H <= F0 + T0 + H0
    ensures F + T + H == F0 + T0 + H0 <==> H0 <= H
  {
    if F + T + H == F0 + T0 + H0 {
      forall g | g in H0 ensures g in H {
        assert g in F + T ==> g in F0 + T0;
      }
    }
  }

  lemma SameHeld(m0: View, m: View, b: nat)
    requires |m| == |m0| == PAGES && forall u | b <= u < PAGES :: m[u] == m0[u]
    ensures Held(m, b) == Held(m0, b) && (Distinct(m0, b) ==> Distinct(m, b))
  {
    forall u | b <= u < PAGES && m[u].Some? ensures m[u].value.frame in Held(m0, b) {
      HeldAt(m0, b, u);
    }
    forall u | b <= u < PAGES && m0[u].Some? ensures m0[u].value.frame in Held(m, b) {
      HeldAt(m, b, u);
    }
  }

  lemma AfterGrow(m0: View, F0: set<nat>, d0: seq<nat>, m: View, F: set<nat>, d: seq<nat>,
                  b: nat, next: nat, brk: nat, f: nat, managed: set<nat>)
    requires Area(m0, b, F0, Tables(d0), managed) && PageTaken(d0, F0, d, F, brk, f)
    requires m == m0[brk := Some(Mapping(f, true, false))] && HEAP_FIRST <= brk < HEAP_LAST
    requires Pointer(next, b)
    ensures Area(m, b, F, Tables(d), managed) && All(m, b, F, Tables(d)) <= All(m0, b, F0, Tables(d0))
    ensures Below(next) && Apart(m0, next, brk) ==>
      All(m, b, F, Tables(d)) == All(m0, b, F0, Tables(d0)) && Apart(m, next, brk + 1)
    ensures Added(d0, |F0|, m0, d, |F|, m, b, brk, All(m, b, F, Tables(d)))
  {
    KernelEntries(brk);
    PageCost(d0, F0, d, F, brk, f);
    AreaGrown(m0, F0, d0, m, F, d, b, brk, f, managed);
    if Below(next) {
      PointerMoves(next, 0);
      assert next / PAGE_SIZE <= brk;
    }
  }

  // ---- the identity half ----

  // Dropping the identity half loses exactly the frames of the tables that it names: none if
  // and only if no entry below 768 is present.
  method Drop(s: AddressSpace, ghost b: nat, ghost brk: nat)
    requires Running(s, b, brk)
    modifies s.pd
    ensures Running(s, b, brk) && s.pd[..] == Dropped(old(s.pd[..]), 768)
    ensures Total(s, b) == old(Total(s, b)) - TablesBelow(old(s.pd[..]), 768)
    ensures TablesBelow(old(s.pd[..]), 768) <= old(Total(s, b))
    ensures Total(s, b) == old(Total(s, b)) <==> forall i: nat | i < 768 :: !Present(old(s.pd[..])[i])
    ensures Apart(old(s.View()), s.next, brk) ==> Apart(s.View(), s.next, brk)
    ensures SameWithin(old(s.View()), s.View(), KERNEL_PAGE, b)
    ensures forall u: nat | u < PAGES :: s.View()[u] == if u < KERNEL_PAGE then None else old(s.View())[u]
  {
    ghost var m0, d0 := s.View(), s.pd[..];
    TablesNotFree(d0, s.mem, s.free);
    DroppedTables(d0, s.mem, s.free, 768);
    s.UnmapIdentity();
    AfterDrop(m0, s.View(), d0, s.pd[..], s.free, b, s.managed);
  }

  lemma AfterDrop(m0: View, m: View, d0: seq<nat>, d: seq<nat>, F: set<nat>, b: nat, managed: set<nat>)
    requires Area(m0, b, F, Tables(d0), managed) && |m| == PAGES && KERNEL_PAGE <= b && |d0| == ENTRIES
    requires Tables(d) == Tables(d0) - TablesBelow(d0, 768) && TablesBelow(d0, 768) <= Tables(d0) && Tables(d0) !! F
    requires forall u: nat | u < PAGES :: m[u] == if u < 768 * ENTRIES then None else m0[u]
    ensures Area(m, b, F, Tables(d), managed) && SameWithin(m0, m, KERNEL_PAGE, b)
    ensures All(m, b, F, Tables(d)) == All(m0, b, F, Tables(d0)) - TablesBelow(d0, 768)
    ensures TablesBelow(d0, 768) == {} <==> forall i: nat | i < 768 :: !Present(d0[i])
  {
    SameHeld(m0, m, b);
    forall i: nat | i < 768 && Present(d0[i]) ensures Frame(d0[i]) in TablesBelow(d0, 768) {
    }
  }
}
