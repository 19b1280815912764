// The virtual memory manager: mapping and unmapping single pages, over the page allocator's
// free set. TLB and control register effects are not modelled.
module Vmm {
  import opened Prelude
  import opened PageSet
  import opened PageTables

  const LARGE: nat := 0x40_0000      // bytes under one directory entry

  // Frames the page allocator may hand out: whole nonzero 32-bit pages.
  ghost predicate FramesOk(F: set<nat>) {
    forall f <- F :: 0 < f < WORD && f % PAGE_SIZE == 0
  }

  // Frames leave the free set only to become page tables.
  ghost predicate Grew(d: seq<nat>, free: set<nat>, d': seq<nat>, free': set<nat>) {
    free' <= free && free' + Tables(d') == free + Tables(d)
  }

  // Directory entry i is present afterwards, at the price of a frame if it was not before;
  // the other entries stay as they are.
  ghost predicate TableAt(d: seq<nat>, free: set<nat>, d': seq<nat>, free': set<nat>, i: nat)
    requires i < |d| == |d'|
  {
    && Present(d'[i]) && (forall k | 0 <= k < |d| && k != i :: d'[k] == d[k])
    && |free'| == |free| - (if Present(d[i]) then 0 else 1)
  }

  // The mapping a call asks for.
  ghost function Requested(phys: nat, flags: nat): Option<Mapping> {
    if Present(flags) then Some(Mapping(phys, Writable(flags), User(flags))) else None
  }

  function FrameOf(m: Option<Mapping>): Option<nat> {
    if m.Some? then Some(m.value.frame) else None
  }

  lemma Indices(virt: nat)
    requires virt < WORD
    ensures virt / PAGE_SIZE < PAGES
    ensures virt / LARGE == virt / LARGE % ENTRIES == virt / PAGE_SIZE / ENTRIES && virt / PAGE_SIZE / ENTRIES < ENTRIES
    ensures virt / PAGE_SIZE % ENTRIES < ENTRIES
  {
  }

  class AddressSpace {
    const pd: array<nat>          // the page directory
    const managed: set<nat>       // frames the page allocator owns
    var mem: Memory               // physical frames that have held page tables
    var free: set<nat>            // the page allocator's free frames
    var ready: bool
    var next: nat                 // bump pointer of AllocPages; 0 until it is set

    ghost predicate Valid()
      reads this, pd
    {
      && pd.Length == ENTRIES && Inv(pd[..], mem, free)
      && FramesOk(managed) && free <= managed
    }

    // The flat map these page tables stand for.
    ghost function View(): (m: seq<Option<Mapping>>)
      requires Valid()
      reads this, pd
      ensures |m| == PAGES
    {
      Flat(pd[..], mem, free)
    }

    constructor (frames: set<nat>)
      requires FramesOk(frames)
      ensures Valid() && fresh(pd) && free == managed == frames && !ready && next == 0 && Tables(pd[..]) == {}
      ensures View() == seq(PAGES, _ => None)
    {
      pd := new nat[ENTRIES](_ => 0);
      managed, free := frames, frames;
      mem, ready, next := map[], false, 0;
      new;
      Empty(pd[..], mem, free);
    }

    // ---- the page allocator ----

    method AllocFrame() returns (f: nat)
      requires Valid()
      modifies this`free
      ensures Valid() && AllocStep(old(free), f, free) && (f != 0 ==> f < WORD && f % PAGE_SIZE == 0)
      ensures View() == old(View())
    {
      f := 0;
      if free != {} {
        f :| f in free;
        FreeSetOnly(pd[..], mem, free, free - {f});
        free := free - {f};
      }
    }

    method FreeFrame(f: nat)
      requires Valid() && f !in Tables(pd[..])
      modifies this`free
      ensures Valid() && FreeStep(managed, old(free), f, free)
      ensures View() == old(View())
    {
      if f in managed {
        FreeSetOnly(pd[..], mem, free, free + {f});
        free := free + {f};
      }
    }

    // ---- single pages ----

    method SetEntry(i: nat, w: nat)
      requires pd.Length == ENTRIES && i < ENTRIES
      modifies pd
      ensures pd[..] == old(pd[..])[i := w]
    {
      pd[i] := w;
    }

    // A table for directory entry i, made on demand from a free frame.
    method EnsurePageTable(i: nat) returns (ok: bool)
      requires Valid() && i < ENTRIES
      modifies pd, this`mem, this`free
      ensures Valid() && (ok <==> Present(old(pd[i])) || old(free) != {})
      ensures ok ==> TableAt(old(pd[..]), old(free), pd[..], free, i)
      ensures Grew(old(pd[..]), old(free), pd[..], free)
      ensures !ok ==> free == old(free) && pd[..] == old(pd[..])
      ensures View() == old(View())
    {
      ok := Present(pd[i]);
      if !ok && free != {} {
        ghost var d, m, F := pd[..], mem, free;
        var f := AllocFrame();
        AddTable(d, m, F, i, f);
        NewEntry(f);
        mem := Zeroed(mem, f);
        SetEntry(i, f + PRESENT_WRITABLE);
        ok := true;
      }
    }

    // The same, with user access granted at the directory when the page asks for it.
    method TableFor(i: nat, user: bool) returns (ok: bool)
      requires Valid() && i < ENTRIES
      modifies pd, this`mem, this`free
      ensures Valid() && (ok <==> Present(old(pd[i])) || old(free) != {})
      ensures ok ==> TableAt(old(pd[..]), old(free), pd[..], free, i) && (user ==> User(pd[i]))
      ensures Grew(old(pd[..]), old(free), pd[..], free)
      ensures !ok ==> free == old(free) && pd[..] == old(pd[..])
      ensures View() == old(View())
    {
      ok := EnsurePageTable(i);
      if ok && user {
        GrantUser(pd[..], mem, free, i);
        TableAtUser(old(pd[..]), old(free), pd[..], free, i);
        SetEntry(i, OrUser(pd[i]));
      }
    }

    method PutPage(v: nat, w: nat)
      requires Valid() && v < PAGES && w < WORD && Present(pd[v / ENTRIES]) && (User(w) ==> User(pd[v / ENTRIES]))
      modifies this`mem
      ensures Valid() && View() == old(View())[v := Decoded(w)]
    {
      WriteEntry(pd[..], mem, free, v, w);
      mem := Put(mem, Frame(pd[v / ENTRIES]), v % ENTRIES, w);
    }

    method MapPage(virt: nat, phys: nat, flags: nat) returns (ret: int)
      requires Valid() && virt < WORD && phys < WORD
      modifies pd, this`mem, this`free
      ensures Valid() && Grew(old(pd[..]), old(free), pd[..], free)
      ensures ret == 0 || ret == -1
      ensures ret == 0 <==> virt % PAGE_SIZE == 0 && phys % PAGE_SIZE == 0 &&
                            (Present(old(pd[virt / LARGE])) || old(free) != {})
      ensures ret == 0 ==>
        && View() == old(View())[virt / PAGE_SIZE := Requested(phys, flags)]
        && TableAt(old(pd[..]), old(free), pd[..], free, virt / LARGE)
      ensures ret != 0 ==> free == old(free) && pd[..] == old(pd[..]) && View() == old(View())
    {
      if virt % PAGE_SIZE != 0 || phys % PAGE_SIZE != 0 {
        return -1;
      }
      Indices(virt);
      var ok := TableFor(virt / LARGE % ENTRIES, User(flags));
      if !ok {
        return -1;
      }
      MadeEntry(phys, flags);
      PutPage(virt / PAGE_SIZE, phys + flags % PAGE_SIZE);
      ret := 0;
    }

    method UnmapPage(virt: nat)
      requires Valid() && virt < WORD
      modifies this`mem
      ensures Valid()
      ensures View() == if virt % PAGE_SIZE == 0 then old(View())[virt / PAGE_SIZE := None] else old(View())
    {
      Indices(virt);
      if virt % PAGE_SIZE == 0 && Present(pd[virt / LARGE % ENTRIES]) {
        PutPage(virt / PAGE_SIZE, 0);
      }
    }

    // Reads the flat map; refused before paging is on and for unaligned addresses.
    method GetPhysical(virt: nat) returns (phys: Option<nat>)
      requires Valid() && virt < WORD
      ensures phys == if ready && virt % PAGE_SIZE == 0 then FrameOf(View()[virt / PAGE_SIZE]) else None
    {
      Indices(virt);
      if !ready || virt % PAGE_SIZE != 0 {
        return None;
      }
      var pde := pd[virt / LARGE % ENTRIES];
      if !Present(pde) {
        return None;
      }
      EntryThere(pd[..], mem, free, virt / PAGE_SIZE);
      var pte := mem[Frame(pde)][virt / PAGE_SIZE % ENTRIES];
      phys := if Present(pte) then Some(Frame(pte)) else None;
    }

    // Clears the directory below the kernel half; the frames of the tables named there are
    // not given back. Nothing happens before paging is on.
    method UnmapIdentity()
      requires Valid()
      modifies pd
      ensures Valid() && pd[..] == if ready then Dropped(old(pd[..]), 768) else old(pd[..])
      ensures forall u: nat | u < PAGES ::
                View()[u] == if ready && u < 768 * ENTRIES then None else old(View())[u]
    {
      if !ready {
        return;
      }
      var i: nat := 0;
      while i < 768
        invariant i <= 768 && Valid() && pd[..] == Dropped(old(pd[..]), i)
        invariant forall u: nat | u < PAGES :: View()[u] == if u / ENTRIES < i then None else old(View())[u]
      {
        DroppedNext(old(pd[..]), i);
        DropOne(i);
        i := i + 1;
      }
    }

    method DropOne(i: nat)
      requires Valid() && i < ENTRIES
      modifies pd
      ensures Valid() && pd[..] == if Present(old(pd[i])) then old(pd[..])[i := 0] else old(pd[..])
      ensures forall u: nat | u < PAGES :: View()[u] == if u / ENTRIES == i then None else old(View())[u]
    {
      if Present(pd[i]) {
        DropTable(pd[..], mem, free, i);
        SetEntry(i, 0);
      }
    }
  }

  // A directory without the present entries below n.
  function Dropped(d: seq<nat>, n: nat): (d': seq<nat>)
    ensures |d'| == |d|
    ensures forall k | 0 <= k < |d| :: d'[k] == if k < n && Present(d[k]) then 0 else d[k]
  {
    seq(|d|, k requires 0 <= k < |d| => if k < n && Present(d[k]) then 0 else d[k])
  }

  lemma DroppedNext(d: seq<nat>, n: nat)
    requires n < |d|
    ensures Dropped(d, n)[n] == d[n]
    ensures Dropped(d, n + 1) == if Present(d[n]) then Dropped(d, n)[n := 0] else Dropped(d, n)
    ensures Dropped(d, 0) == d
  {
  }

  // Frames of the tables named by the entries below n.
  ghost function TablesBelow(d: seq<nat>, n: nat): set<nat> {
    set i: nat | i < |d| && i < n && Present(d[i]) :: Frame(d[i])
  }

  // Dropping entries takes exactly the frames of their tables out of the tables.
  lemma DroppedTables(d: seq<nat>, mem: Memory, free: set<nat>, n: nat)
    requires Inv(d, mem, free)
    ensures Tables(Dropped(d, n)) == Tables(d) - TablesBelow(d, n) && TablesBelow(d, n) <= Tables(d)
    ensures TablesBelow(Dropped(d, n), n) == {}
  {
    var d' := Dropped(d, n);
    forall i: nat | i < |d| && i >= n && Present(d[i]) ensures Frame(d[i]) !in TablesBelow(d, n) && Frame(d[i]) in Tables(d') {
      assert d'[i] == d[i];
    }
    forall f | f in Tables(d') ensures f in Tables(d) - TablesBelow(d, n) {
      var i: nat :| i < |d'| && Present(d'[i]) && Frame(d'[i]) == f;
      assert d'[i] == d[i] && i >= n;
    }
    forall i: nat | i < n && i < |d'| ensures !Present(d'[i]) {
    }
  }

  lemma TableAtUser(d: seq<nat>, free: set<nat>, d': seq<nat>, free': set<nat>, i: nat)
    requires i < |d| == |d'| && TableAt(d, free, d', free', i)
    ensures User(OrUser(d'[i])) && TableAt(d, free, d'[i := OrUser(d'[i])], free', i)
  {
    OrUserBits(d'[i]);
  }

  lemma Empty(d: seq<nat>, mem: Memory, free: set<nat>)
    requires |d| == ENTRIES && forall i | 0 <= i < ENTRIES :: d[i] == 0
    ensures Inv(d, mem, free) && Tables(d) == {}
    ensures Flat(d, mem, free) == seq(PAGES, _ => None)
  {
    forall i: nat | i < ENTRIES ensures EntryOk(d, mem, free, i) && !Present(d[i]) {
    }
  }

  lemma EntryThere(d: seq<nat>, mem: Memory, free: set<nat>, u: nat)
    requires Inv(d, mem, free) && u < PAGES && Present(d[u / ENTRIES])
    ensures var f := Frame(d[u / ENTRIES]);
            f in mem && |mem[f]| == ENTRIES && Entry(d, mem, free, u) == mem[f][u % ENTRIES]
  {
    assert EntryOk(d, mem, free, u / ENTRIES);
  }
}
