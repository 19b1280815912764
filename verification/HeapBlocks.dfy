// A heap as an address-ordered tiling of blocks, and the block headers that represent it
// in memory.
module HeapBlocks {
  import opened Prelude

  const HEADER: nat := 16
  const NULL: nat := 0

  datatype Block = Block(addr: nat, size: nat, free: bool)

  function End(b: Block): nat {
    b.addr + HEADER + b.size
  }

  // Blocks fill [start, brk) in address order, with sizes in multiples of 8.
  ghost predicate Tiled(bs: seq<Block>, start: nat, brk: nat) {
    && 0 < start && start % 8 == 0 && brk + HEADER <= WORD && bs != []
    && bs[0].addr == start && End(bs[|bs| - 1]) == brk
    && (forall i | 0 <= i < |bs| :: bs[i].size % 8 == 0)
    && (forall i, j | 0 <= i < |bs| && j == i + 1 < |bs| :: End(bs[i]) == bs[j].addr)
  }

  // No two neighbours are both free.
  ghost predicate Coalesced(bs: seq<Block>) {
    forall i, j | 0 <= i < |bs| && j == i + 1 < |bs| :: !(bs[i].free && bs[j].free)
  }

  lemma {:induction false} InOrder(bs: seq<Block>, start: nat, brk: nat, i: nat, j: nat)
    requires Tiled(bs, start, brk) && i < j < |bs|
    ensures End(bs[i]) <= bs[j].addr
    decreases j
  {
    if j > i + 1 {
      InOrder(bs, start, brk, i, j - 1);
    }
    assert End(bs[j - 1]) == bs[j].addr;
  }

  lemma {:induction false} Aligned(bs: seq<Block>, start: nat, brk: nat, i: nat)
    requires Tiled(bs, start, brk) && i < |bs|
    ensures bs[i].addr % 8 == 0 && start <= bs[i].addr && End(bs[i]) <= brk
  {
    if i > 0 {
      Aligned(bs, start, brk, i - 1);
      assert End(bs[i - 1]) == bs[i].addr;
    }
    if i + 1 < |bs| {
      InOrder(bs, start, brk, i, |bs| - 1);
    }
  }

  // ---- headers in memory ----

  type Memory = map<nat, nat>

  function Load(m: Memory, a: nat): nat {
    if a in m then m[a] else 0
  }

  datatype Header = Header(size: nat, isFree: nat, next: nat, prev: nat)

  function HeaderAt(m: Memory, a: nat): Header {
    Header(Load(m, a), Load(m, a + 4), Load(m, a + 8), Load(m, a + 12))
  }

  function WithHeader(m: Memory, a: nat, h: Header): Memory {
    m[a := h.size][a + 4 := h.isFree][a + 8 := h.next][a + 12 := h.prev]
  }

  // Exactly the header at a is replaced.
  ghost predicate Wrote(m: Memory, m': Memory, a: nat, h: Header) {
    HeaderAt(m', a) == h && OnlyHeader(m, m', a)
  }

  lemma WithHeaderWrote(m: Memory, a: nat, h: Header)
    ensures Wrote(m, WithHeader(m, a, h), a, h)
  {
  }

  lemma HeaderMissed(m: Memory, m': Memory, a: nat, h: Header, b: nat)
    requires Wrote(m, m', a, h) && (b + HEADER <= a || a + HEADER <= b)
    ensures HeaderAt(m', b) == HeaderAt(m, b)
  {
  }

  // The header that block i must have.
  function Expected(bs: seq<Block>, i: nat): Header
    requires i < |bs|
  {
    Header(bs[i].size, if bs[i].free then 1 else 0,
           if i + 1 < |bs| then bs[i + 1].addr else NULL, if i > 0 then bs[i - 1].addr else NULL)
  }

  ghost predicate RepAt(m: Memory, bs: seq<Block>, i: nat)
    requires i < |bs|
  {
    HeaderAt(m, bs[i].addr) == Expected(bs, i)
  }

  ghost predicate Rep(m: Memory, bs: seq<Block>) {
    forall i: nat | i < |bs| :: RepAt(m, bs, i)
  }

  // Every word inside a live payload is as before.
  ghost predicate PayloadsKept(bs: seq<Block>, m: Memory, m': Memory) {
    forall j, w: nat | 0 <= j < |bs| && !bs[j].free && bs[j].addr + HEADER <= w < End(bs[j]) :: Load(m', w) == Load(m, w)
  }

  // Words outside the given header are as before.
  ghost predicate OnlyHeader(m: Memory, m': Memory, a: nat) {
    forall w: nat | !(a <= w < a + HEADER) :: Load(m', w) == Load(m, w)
  }

  // ---- operations on the tiling ----

  function Split(bs: seq<Block>, i: nat, n: nat): seq<Block>
    requires i < |bs| && n + HEADER <= bs[i].size
  {
    bs[..i] + [Block(bs[i].addr, n, bs[i].free), Block(bs[i].addr + HEADER + n, bs[i].size - n - HEADER, true)] + bs[i + 1..]
  }

  function Mark(bs: seq<Block>, i: nat, free: bool): seq<Block>
    requires i < |bs|
  {
    bs[i := bs[i].(free := free)]
  }

  function Merge(bs: seq<Block>, i: nat): seq<Block>
    requires i + 1 < |bs|
  {
    bs[..i] + [Block(bs[i].addr, bs[i].size + HEADER + bs[i + 1].size, bs[i].free)] + bs[i + 2..]
  }

  lemma SplitTiled(bs: seq<Block>, start: nat, brk: nat, i: nat, n: nat)
    requires Tiled(bs, start, brk) && i < |bs| && n % 8 == 0 && n + HEADER <= bs[i].size
    ensures Tiled(Split(bs, i, n), start, brk)
  {
    var bs' := Split(bs, i, n);
    forall k, j | 0 <= k < |bs'| && j == k + 1 < |bs'| ensures End(bs'[k]) == bs'[j].addr {
      if k < i {
        assert End(bs[k]) == bs[j].addr;
      } else if k > i {
        assert j - 1 < |bs| ==> End(bs[k - 1]) == bs[j - 1].addr;
      }
    }
  }

  lemma MergeTiled(bs: seq<Block>, start: nat, brk: nat, i: nat)
    requires Tiled(bs, start, brk) && i + 1 < |bs|
    ensures Tiled(Merge(bs, i), start, brk)
  {
    var bs' := Merge(bs, i);
    assert End(bs[i]) == bs[i + 1].addr;
    forall k, j | 0 <= k < |bs'| && j == k + 1 < |bs'| ensures End(bs'[k]) == bs'[j].addr {
      if k < i {
        assert End(bs[k]) == bs[j].addr;
      } else {
        assert End(bs[k + 1]) == bs[j + 1].addr;
      }
    }
  }

  // ---- memory after each operation ----

  lemma MarkRep(m: Memory, m': Memory, bs: seq<Block>, start: nat, brk: nat, i: nat, free: bool)
    requires Tiled(bs, start, brk) && Rep(m, bs) && i < |bs|
    requires Wrote(m, m', bs[i].addr, HeaderAt(m, bs[i].addr).(isFree := if free then 1 else 0))
    ensures Rep(m', Mark(bs, i, free))
  {
    var h := HeaderAt(m, bs[i].addr).(isFree := if free then 1 else 0);
    forall k: nat | k < |bs| ensures RepAt(m', Mark(bs, i, free), k) {
      assert RepAt(m, bs, k);
      Apart(bs, start, brk, i, k);
      if k != i {
        HeaderMissed(m, m', bs[i].addr, h, bs[k].addr);
      }
    }
  }

  lemma MarkTiled(bs: seq<Block>, start: nat, brk: nat, i: nat, free: bool)
    requires Tiled(bs, start, brk) && i < |bs|
    ensures Tiled(Mark(bs, i, free), start, brk)
  {
  }

  lemma Apart(bs: seq<Block>, start: nat, brk: nat, i: nat, k: nat)
    requires Tiled(bs, start, brk) && i < |bs| && k < |bs|
    ensures i < k ==> End(bs[i]) <= bs[k].addr
    ensures k < i ==> End(bs[k]) <= bs[i].addr
  {
    if i < k {
      InOrder(bs, start, brk, i, k);
    } else if k < i {
      InOrder(bs, start, brk, k, i);
    }
  }

  // Writing the header of a block, or inside a free payload, misses every live payload.
  lemma HeaderMissesPayloads(m: Memory, m': Memory, bs: seq<Block>, start: nat, brk: nat, k: nat)
    requires Tiled(bs, start, brk) && k < |bs| && OnlyHeader(m, m', bs[k].addr)
    ensures PayloadsKept(bs, m, m')
  {
    forall j, w: nat | 0 <= j < |bs| && !bs[j].free && bs[j].addr + HEADER <= w < End(bs[j])
      ensures Load(m', w) == Load(m, w)
    {
      Apart(bs, start, brk, j, k);
    }
  }

  lemma InsideMissesPayloads(m: Memory, m': Memory, bs: seq<Block>, start: nat, brk: nat, k: nat, a: nat)
    requires Tiled(bs, start, brk) && k < |bs| && bs[k].free && OnlyHeader(m, m', a)
    requires bs[k].addr <= a && a + HEADER <= End(bs[k])
    ensures PayloadsKept(bs, m, m')
  {
    forall j, w: nat | 0 <= j < |bs| && !bs[j].free && bs[j].addr + HEADER <= w < End(bs[j])
      ensures Load(m', w) == Load(m, w)
    {
      Apart(bs, start, brk, j, k);
    }
  }

  // A write elsewhere than at block k leaves its header as it is.
  lemma KeptHeader(m: Memory, m': Memory, bs: seq<Block>, start: nat, brk: nat, i: nat, a: nat, h: Header, k: nat)
    requires Tiled(bs, start, brk) && i < |bs| && k < |bs| && Wrote(m, m', a, h)
    requires bs[i].addr <= a && a + HEADER <= End(bs[i]) && (k == i ==> a >= bs[i].addr + HEADER)
    ensures HeaderAt(m', bs[k].addr) == HeaderAt(m, bs[k].addr)
  {
    Apart(bs, start, brk, i, k);
    HeaderMissed(m, m', a, h, bs[k].addr);
  }

  // As expected, except that block j points back at a.
  ghost predicate LinkedBack(m: Memory, bs: seq<Block>, k: nat, j: nat, a: nat)
    requires k < |bs|
  {
    HeaderAt(m, bs[k].addr) == if k == j then Expected(bs, k).(prev := a) else Expected(bs, k)
  }

  ghost predicate AllLinkedBack(m: Memory, bs: seq<Block>, x: nat, j: nat, a: nat) {
    forall k: nat | k < |bs| && k != x :: LinkedBack(m, bs, k, j, a)
  }

  // The write of a back pointer into block j, if there is one; block x may be out of date.
  ghost predicate WroteBack(m: Memory, m': Memory, bs: seq<Block>, j: nat, a: nat) {
    if j < |bs| then Wrote(m, m', bs[j].addr, HeaderAt(m, bs[j].addr).(prev := a)) else m' == m
  }

  lemma Relink(m: Memory, m': Memory, bs: seq<Block>, start: nat, brk: nat, j: nat, a: nat, x: nat)
    requires Tiled(bs, start, brk) && x != j && WroteBack(m, m', bs, j, a)
    requires forall k: nat | k < |bs| && k != x :: RepAt(m, bs, k)
    ensures AllLinkedBack(m', bs, x, j, a)
    ensures x < |bs| ==> HeaderAt(m', bs[x].addr) == HeaderAt(m, bs[x].addr)
  {
    forall k: nat | k < |bs| && k != j && j < |bs| ensures HeaderAt(m', bs[k].addr) == HeaderAt(m, bs[k].addr) {
      KeptHeader(m, m', bs, start, brk, j, bs[j].addr, HeaderAt(m, bs[j].addr).(prev := a), k);
    }
    forall k: nat | k < |bs| && k != x ensures LinkedBack(m', bs, k, j, a) {
      assert RepAt(m, bs, k);
    }
  }

  // The three writes of a split, in the order they are made.
  ghost predicate SplitWrites(m: Memory, m1: Memory, m2: Memory, m3: Memory, bs: seq<Block>, i: nat, n: nat)
    requires i < |bs| && n + HEADER <= bs[i].size
  {
    var a := bs[i].addr + HEADER + n;
    && Wrote(m, m1, a, Header(bs[i].size - n - HEADER, 1, Expected(bs, i).next, bs[i].addr))
    && WroteBack(m1, m2, bs, i + 1, a)
    && Wrote(m2, m3, bs[i].addr, HeaderAt(m2, bs[i].addr).(size := n, next := a))
  }

  lemma SplitRep(m: Memory, m1: Memory, m2: Memory, m3: Memory, bs: seq<Block>, start: nat, brk: nat, i: nat, n: nat)
    requires Tiled(bs, start, brk) && Rep(m, bs) && i < |bs| && n % 8 == 0 && n + HEADER <= bs[i].size
    requires SplitWrites(m, m1, m2, m3, bs, i, n)
    ensures Rep(m3, Split(bs, i, n))
  {
    var a, j := bs[i].addr + HEADER + n, i + 1;
    forall k: nat | k < |bs| ensures RepAt(m1, bs, k) {
      assert RepAt(m, bs, k);
      KeptHeader(m, m1, bs, start, brk, i, a, Header(bs[i].size - n - HEADER, 1, Expected(bs, i).next, bs[i].addr), k);
    }
    Relink(m1, m2, bs, start, brk, j, a, |bs| + j);
    assert LinkedBack(m2, bs, i, j, a);
    var h := HeaderAt(m2, bs[i].addr).(size := n, next := a);
    forall k: nat | k < |bs| && k != i ensures LinkedBack(m3, bs, k, j, a) {
      assert LinkedBack(m2, bs, k, j, a);
      KeptHeader(m2, m3, bs, start, brk, i, bs[i].addr, h, k);
    }
    SplitNew(m1, m2, m3, bs, start, brk, i, n, h);
    SplitAll(m3, bs, i, n);
  }

  lemma SplitNew(m1: Memory, m2: Memory, m3: Memory, bs: seq<Block>, start: nat, brk: nat, i: nat, n: nat, h: Header)
    requires Tiled(bs, start, brk) && i < |bs| && n + HEADER <= bs[i].size
    requires WroteBack(m1, m2, bs, i + 1, bs[i].addr + HEADER + n) && Wrote(m2, m3, bs[i].addr, h)
    ensures HeaderAt(m3, bs[i].addr + HEADER + n) == HeaderAt(m1, bs[i].addr + HEADER + n)
  {
    var a := bs[i].addr + HEADER + n;
    if i + 1 < |bs| {
      Apart(bs, start, brk, i, i + 1);
      HeaderMissed(m1, m2, bs[i + 1].addr, HeaderAt(m1, bs[i + 1].addr).(prev := a), a);
    }
    HeaderMissed(m2, m3, bs[i].addr, h, a);
  }

  lemma SplitAll(m: Memory, bs: seq<Block>, i: nat, n: nat)
    requires i < |bs| && n + HEADER <= bs[i].size
    requires var a := bs[i].addr + HEADER + n;
             && HeaderAt(m, a) == Header(bs[i].size - n - HEADER, 1, Expected(bs, i).next, bs[i].addr)
             && HeaderAt(m, bs[i].addr) == Expected(bs, i).(size := n, next := a)
             && AllLinkedBack(m, bs, i, i + 1, a)
    ensures Rep(m, Split(bs, i, n))
  {
    var a, bs' := bs[i].addr + HEADER + n, Split(bs, i, n);
    forall k: nat | k < |bs'| ensures RepAt(m, bs', k) {
      if k < i {
        assert bs'[k] == bs[k] && LinkedBack(m, bs, k, i + 1, a);
      } else if k > i + 1 {
        assert bs'[k] == bs[k - 1] && LinkedBack(m, bs, k - 1, i + 1, a);
      }
    }
  }

  ghost predicate MergeWrites(m: Memory, m1: Memory, m2: Memory, bs: seq<Block>, i: nat)
    requires i + 1 < |bs|
  {
    var a := bs[i].addr;
    && Wrote(m, m1, a, HeaderAt(m, a).(size := bs[i].size + HEADER + bs[i + 1].size, next := Expected(bs, i + 1).next))
    && WroteBack(m1, m2, bs, i + 2, a)
  }

  lemma MergeRep(m: Memory, m1: Memory, m2: Memory, bs: seq<Block>, start: nat, brk: nat, i: nat)
    requires Tiled(bs, start, brk) && Rep(m, bs) && i + 1 < |bs| && MergeWrites(m, m1, m2, bs, i)
    ensures Rep(m2, Merge(bs, i))
  {
    var a, j := bs[i].addr, i + 2;
    var h := HeaderAt(m, a).(size := bs[i].size + HEADER + bs[i + 1].size, next := Expected(bs, i + 1).next);
    assert RepAt(m, bs, i);
    forall k: nat | k < |bs| && k != i ensures RepAt(m1, bs, k) {
      assert RepAt(m, bs, k);
      KeptHeader(m, m1, bs, start, brk, i, a, h, k);
    }
    Relink(m1, m2, bs, start, brk, j, a, i);
    MergeAll(m2, bs, i);
  }

  lemma MergeAll(m: Memory, bs: seq<Block>, i: nat)
    requires i + 1 < |bs|
    requires HeaderAt(m, bs[i].addr) == Expected(bs, i).(size := bs[i].size + HEADER + bs[i + 1].size, next := Expected(bs, i + 1).next)
    requires AllLinkedBack(m, bs, i, i + 2, bs[i].addr)
    ensures Rep(m, Merge(bs, i))
  {
    var a, bs' := bs[i].addr, Merge(bs, i);
    forall k: nat | k < |bs'| ensures RepAt(m, bs', k) {
      if k < i {
        assert bs'[k] == bs[k] && LinkedBack(m, bs, k, i + 2, a);
      } else if k > i {
        assert bs'[k] == bs[k + 1] && LinkedBack(m, bs, k + 1, i + 2, a);
      }
    }
  }
}
