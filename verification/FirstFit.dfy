// The first-fit heap: blocks linked through headers in the heap's own memory.
module FirstFit {
  import opened Prelude
  import opened HeapBlocks

  // Rounding a 32-bit request up to 8 wraps to 0 for the last seven sizes.
  function Align8(size: nat): nat {
    var w := (size + 7) % WORD;
    w - w % 8
  }

  lemma AlignExact(size: nat)
    requires size < WORD
    ensures Align8(size) % 8 == 0
    ensures Align8(size) >= size <==> size <= 0xFFFF_FFF8
    ensures size > 0xFFFF_FFF8 ==> Align8(size) == 0
    ensures Align8(size) < size + 8
  {
  }

  // ---- what the operations do to the tiling ----

  predicate Fits(b: Block, n: nat) {
    b.free && b.size >= n
  }

  // Block i is the first that fits; i is the number of blocks if none does.
  ghost predicate FirstFitAt(bs: seq<Block>, n: nat, i: nat) {
    i <= |bs| && (forall k | 0 <= k < i :: !Fits(bs[k], n)) && (i < |bs| ==> Fits(bs[i], n))
  }

  const SPLIT_OVER: nat := HEADER + 8

  function AllocBlocks(bs: seq<Block>, i: nat, n: nat): seq<Block>
    requires i < |bs| && n <= bs[i].size
  {
    Mark(if bs[i].size - n > SPLIT_OVER then Split(bs, i, n) else bs, i, false)
  }

  predicate NextFree(bs: seq<Block>, i: nat) {
    i + 1 < |bs| && bs[i + 1].free
  }

  function MergedForward(bs: seq<Block>, i: nat): seq<Block>
    requires i < |bs|
  {
    if NextFree(bs, i) then Merge(bs, i) else bs
  }

  function MergedBackward(bs: seq<Block>, i: nat): seq<Block>
    requires i < |bs|
  {
    if i > 0 && bs[i - 1].free then Merge(bs, i - 1) else bs
  }

  function FreeBlocks(bs: seq<Block>, i: nat): seq<Block>
    requires i < |bs|
  {
    MergedBackward(MergedForward(Mark(bs, i, true), i), i)
  }

  // ---- what that means ----

  datatype Payload = Payload(ptr: nat, size: nat)

  function PayloadOf(b: Block): Payload {
    Payload(b.addr + HEADER, b.size)
  }

  ghost function Live(bs: seq<Block>): set<Payload> {
    set i | 0 <= i < |bs| && !bs[i].free :: PayloadOf(bs[i])
  }

  ghost predicate Good(bs: seq<Block>, start: nat, brk: nat) {
    Tiled(bs, start, brk) && Coalesced(bs)
  }

  // Live payloads are aligned, inside the heap and pairwise disjoint.
  lemma LiveDisjoint(bs: seq<Block>, start: nat, brk: nat, i: nat, j: nat)
    requires Good(bs, start, brk) && i < j < |bs|
    ensures var p, q := PayloadOf(bs[i]), PayloadOf(bs[j]);
            && p.ptr % 8 == 0 && q.ptr % 8 == 0
            && start + HEADER <= p.ptr && p.ptr + p.size + HEADER <= q.ptr && q.ptr + q.size <= brk
  {
    Aligned(bs, start, brk, i);
    Aligned(bs, start, brk, j);
    InOrder(bs, start, brk, i, j);
  }

  // Block i is handed out for n bytes. If it is more than 24 bytes larger than that, the rest
  // becomes a free block after it, less a header; otherwise it is handed out whole. All other
  // blocks stay as they are.
  ghost predicate Handed(bs: seq<Block>, bs': seq<Block>, i: nat, n: nat) {
    && i < |bs| && i < |bs'| && bs'[..i] == bs[..i] && bs'[i].addr == bs[i].addr && !bs'[i].free
    && if bs[i].size > n + 24 then
         && bs'[i].size == n && |bs'| == |bs| + 1
         && bs'[i + 1] == Block(bs[i].addr + 16 + n, bs[i].size - n - 16, true) && bs'[i + 2..] == bs[i + 1..]
       else
         bs'[i].size == bs[i].size && bs'[i + 1..] == bs[i + 1..]
  }

  // Allocation adds exactly one payload, taken from a free block and big enough.
  lemma AllocMeans(bs: seq<Block>, start: nat, brk: nat, i: nat, n: nat)
    requires Good(bs, start, brk) && i < |bs| && Fits(bs[i], n) && n % 8 == 0
    ensures var bs' := AllocBlocks(bs, i, n);
            && Good(bs', start, brk)
            && Handed(bs, bs', i, n) && n <= bs'[i].size <= n + 24
            && Live(bs') == Live(bs) + {PayloadOf(bs'[i])} && PayloadOf(bs'[i]) !in Live(bs)
  {
    if bs[i].size - n > SPLIT_OVER {
      SplitTiled(bs, start, brk, i, n);
      MarkTiled(Split(bs, i, n), start, brk, i, false);
      SplitCoalesced(bs, i, n);
    } else {
      MarkTiled(bs, start, brk, i, false);
    }
    AllocLive(bs, i, n);
    FreeNotLive(bs, start, brk, i, PayloadOf(AllocBlocks(bs, i, n)[i]));
  }

  lemma SplitCoalesced(bs: seq<Block>, i: nat, n: nat)
    requires Coalesced(bs) && i < |bs| && bs[i].free && n + HEADER <= bs[i].size
    ensures Coalesced(Mark(Split(bs, i, n), i, false))
  {
    var bs' := Mark(Split(bs, i, n), i, false);
    forall k, j | 0 <= k < |bs'| && j == k + 1 < |bs'| ensures !(bs'[k].free && bs'[j].free) {
      if k < i {
        assert j < i ==> bs'[k] == bs[k] && bs'[j] == bs[j];
      } else if k == i + 1 {
        assert bs'[j] == bs[i + 1];
      } else if k > i + 1 {
        assert bs'[k] == bs[k - 1] && bs'[j] == bs[j - 1];
      }
    }
  }

  lemma FreeNotLive(bs: seq<Block>, start: nat, brk: nat, i: nat, p: Payload)
    requires Tiled(bs, start, brk) && i < |bs| && bs[i].free && p.ptr == bs[i].addr + HEADER
    ensures p !in Live(bs)
  {
    if p in Live(bs) {
      var k :| 0 <= k < |bs| && !bs[k].free && PayloadOf(bs[k]) == p;
      Apart(bs, start, brk, i, k);
    }
  }

  lemma AllocLive(bs: seq<Block>, i: nat, n: nat)
    requires i < |bs| && Fits(bs[i], n)
    ensures var bs' := AllocBlocks(bs, i, n); Live(bs') == Live(bs) + {PayloadOf(bs'[i])}
  {
    var bs' := AllocBlocks(bs, i, n);
    var d := |bs'| - |bs|;
    forall p | p in Live(bs) ensures p in Live(bs') {
      var k :| 0 <= k < |bs| && !bs[k].free && PayloadOf(bs[k]) == p;
      assert bs'[if k < i then k else k + d] == bs[k];
    }
    forall p | p in Live(bs') ensures p in Live(bs) || p == PayloadOf(bs'[i]) {
      var k :| 0 <= k < |bs'| && !bs'[k].free && PayloadOf(bs'[k]) == p;
      if k != i {
        assert k < i || k > i + d;
        assert bs[if k < i then k else k - d] == bs'[k];
      }
    }
    assert !bs'[i].free;
  }

  lemma MergeLive(bs: seq<Block>, i: nat)
    requires i + 1 < |bs| && bs[i].free && bs[i + 1].free
    ensures Live(Merge(bs, i)) == Live(bs)
  {
    var bs' := Merge(bs, i);
    forall p | p in Live(bs) ensures p in Live(bs') {
      var k :| 0 <= k < |bs| && !bs[k].free && PayloadOf(bs[k]) == p;
      assert bs'[if k < i then k else k - 1] == bs[k];
    }
    forall p | p in Live(bs') ensures p in Live(bs) {
      var k :| 0 <= k < |bs'| && !bs'[k].free && PayloadOf(bs'[k]) == p;
      assert bs[if k < i then k else k + 1] == bs'[k];
    }
  }

  lemma MarkLive(bs: seq<Block>, start: nat, brk: nat, i: nat)
    requires Tiled(bs, start, brk) && i < |bs| && !bs[i].free
    ensures Live(Mark(bs, i, true)) == Live(bs) - {PayloadOf(bs[i])}
  {
    var bs' := Mark(bs, i, true);
    forall p | p in Live(bs) && p != PayloadOf(bs[i]) ensures p in Live(bs') {
      var k :| 0 <= k < |bs| && !bs[k].free && PayloadOf(bs[k]) == p;
      assert bs'[k] == bs[k];
    }
    forall p | p in Live(bs') ensures p in Live(bs) && p != PayloadOf(bs[i]) {
      var k :| 0 <= k < |bs'| && !bs'[k].free && PayloadOf(bs'[k]) == p;
      Apart(bs, start, brk, i, k);
    }
  }

  // Neighbours both free only around block i.
  ghost predicate CoalescedBut(bs: seq<Block>, i: nat) {
    forall k, j | 0 <= k < |bs| && j == k + 1 < |bs| && k != i && j != i :: !(bs[k].free && bs[j].free)
  }

  // Freeing removes exactly that payload and leaves no two free neighbours.
  lemma FreeMeans(bs: seq<Block>, start: nat, brk: nat, i: nat)
    requires Good(bs, start, brk) && i < |bs| && !bs[i].free
    ensures Good(FreeBlocks(bs, i), start, brk)
    ensures Live(FreeBlocks(bs, i)) == Live(bs) - {PayloadOf(bs[i])}
  {
    var b1 := Mark(bs, i, true);
    MarkTiled(bs, start, brk, i, true);
    MarkLive(bs, start, brk, i);
    ForwardMeans(b1, start, brk, i);
    BackwardMeans(MergedForward(b1, i), start, brk, i);
  }

  lemma ForwardMeans(bs: seq<Block>, start: nat, brk: nat, i: nat)
    requires Tiled(bs, start, brk) && i < |bs| && bs[i].free && CoalescedBut(bs, i)
    ensures var bs' := MergedForward(bs, i);
            && Tiled(bs', start, brk) && i < |bs'| && bs'[i].free && bs'[i].addr == bs[i].addr
            && CoalescedBut(bs', i) && !NextFree(bs', i) && Live(bs') == Live(bs)
  {
    if NextFree(bs, i) {
      MergeTiled(bs, start, brk, i);
      MergeLive(bs, i);
      var bs' := Merge(bs, i);
      assert forall k | i < k < |bs'| :: bs'[k] == bs[k + 1];
    }
  }

  lemma BackwardMeans(bs: seq<Block>, start: nat, brk: nat, i: nat)
    requires Tiled(bs, start, brk) && i < |bs| && bs[i].free && CoalescedBut(bs, i) && !NextFree(bs, i)
    ensures var bs' := MergedBackward(bs, i); Good(bs', start, brk) && Live(bs') == Live(bs)
  {
    if i > 0 && bs[i - 1].free {
      MergeTiled(bs, start, brk, i - 1);
      MergeLive(bs, i - 1);
      var bs' := Merge(bs, i - 1);
      assert forall k | i <= k < |bs'| :: bs'[k] == bs[k + 1];
    }
  }

  lemma InLive(bs: seq<Block>, i: nat)
    requires i < |bs|
    ensures !bs[i].free ==> PayloadOf(bs[i]) in Live(bs)
    ensures Coalesced(bs) && i + 1 < |bs| ==> !(bs[i].free && bs[i + 1].free)
  {
  }

  // With nothing live the heap is one free block.
  lemma NothingLive(bs: seq<Block>, start: nat, brk: nat)
    requires Good(bs, start, brk) && Live(bs) == {}
    ensures |bs| == 1 && bs[0].free && bs[0].addr == start && bs[0].size + HEADER == brk - start
  {
    InLive(bs, 0);
    if |bs| > 1 {
      InLive(bs, 1);
    }
  }

  // ---- accounting ----

  function UsedBytes(bs: seq<Block>): nat {
    if bs == [] then 0 else UsedBytes(bs[..|bs| - 1]) + if bs[|bs| - 1].free then 0 else bs[|bs| - 1].size + HEADER
  }

  function FreeBytes(bs: seq<Block>): nat {
    if bs == [] then 0 else FreeBytes(bs[..|bs| - 1]) + if bs[|bs| - 1].free then bs[|bs| - 1].size else 0
  }

  function FreeCount(bs: seq<Block>): nat {
    if bs == [] then 0 else FreeCount(bs[..|bs| - 1]) + if bs[|bs| - 1].free then 1 else 0
  }

  // Every byte is used, free, or the header of a free block.
  lemma {:induction false} BytesConserved(bs: seq<Block>, start: nat, brk: nat, n: nat)
    requires Tiled(bs, start, brk) && 0 < n <= |bs|
    ensures UsedBytes(bs[..n]) + FreeBytes(bs[..n]) + HEADER * FreeCount(bs[..n]) == End(bs[n - 1]) - start
    decreases n
  {
    assert bs[..n][..n - 1] == bs[..n - 1];
    if n == 1 {
      assert bs[..0] == [];
    } else {
      BytesConserved(bs, start, brk, n - 1);
      assert End(bs[n - 2]) == bs[n - 1].addr;
    }
  }

  // ---- the same, as sets of payloads ----

  ghost function Gaps(bs: seq<Block>): set<Payload> {
    set i | 0 <= i < |bs| && bs[i].free :: PayloadOf(bs[i])
  }

  ghost function Bytes(S: set<Payload>): nat {
    if S == {} then 0 else var p :| p in S; p.size + Bytes(S - {p})
  }

  lemma {:induction false} BytesMore(S: set<Payload>, p: Payload)
    requires p !in S
    ensures Bytes(S + {p}) == Bytes(S) + p.size
  {
    var T := S + {p};
    var q :| q in T && Bytes(T) == q.size + Bytes(T - {q});
    if q == p {
      assert T - {q} == S;
    } else {
      assert T - {q} == S - {q} + {p};
      BytesMore(S - {q}, p);
      BytesMore(S - {q}, q);
      assert S - {q} + {q} == S;
    }
  }

  // The sums count the live payloads with a header each, and the free ones without.
  lemma {:induction false} SumsOf(bs: seq<Block>, start: nat, brk: nat, n: nat)
    requires Tiled(bs, start, brk) && n <= |bs|
    ensures UsedBytes(bs[..n]) == Bytes(Live(bs[..n])) + 16 * |Live(bs[..n])|
    ensures FreeBytes(bs[..n]) == Bytes(Gaps(bs[..n])) && FreeCount(bs[..n]) == |Gaps(bs[..n])|
    ensures |Live(bs[..n])| + |Gaps(bs[..n])| == n
  {
    if n == 0 {
      assert Live(bs[..0]) == {} && Gaps(bs[..0]) == {};
    } else {
      SumsOf(bs, start, brk, n - 1);
      SumsUnfold(bs, n);
      OneMoreBlock(bs, start, brk, n - 1);
      SumStep(Live(bs[..n - 1]), Gaps(bs[..n - 1]), Live(bs[..n]), Gaps(bs[..n]), bs[n - 1]);
    }
  }

  lemma SumStep(L: set<Payload>, G: set<Payload>, L': set<Payload>, G': set<Payload>, b: Block)
    requires PayloadOf(b) !in L && PayloadOf(b) !in G
    requires L' == if b.free then L else L + {PayloadOf(b)}
    requires G' == if b.free then G + {PayloadOf(b)} else G
    ensures Bytes(L') + 16 * |L'| == Bytes(L) + 16 * |L| + if b.free then 0 else b.size + HEADER
    ensures Bytes(G') == Bytes(G) + (if b.free then b.size else 0) && |G'| == |G| + (if b.free then 1 else 0)
    ensures |L'| + |G'| == |L| + |G| + 1
  {
    var p, S := PayloadOf(b), if b.free then G else L;
    OneMore(S, p);
    BytesMore(S, p);
    assert p.size == b.size;
    assert if b.free then G' == S + {p} else L' == S + {p};
  }

  lemma SumsUnfold(bs: seq<Block>, n: nat)
    requires 0 < n <= |bs|
    ensures UsedBytes(bs[..n]) == UsedBytes(bs[..n - 1]) + if bs[n - 1].free then 0 else bs[n - 1].size + HEADER
    ensures FreeBytes(bs[..n]) == FreeBytes(bs[..n - 1]) + if bs[n - 1].free then bs[n - 1].size else 0
    ensures FreeCount(bs[..n]) == FreeCount(bs[..n - 1]) + if bs[n - 1].free then 1 else 0
  {
    assert bs[..n][..n - 1] == bs[..n - 1];
  }

  lemma OneMoreBlock(bs: seq<Block>, start: nat, brk: nat, n: nat)
    requires Tiled(bs, start, brk) && n < |bs|
    ensures var p := PayloadOf(bs[n]);
            && p !in Live(bs[..n]) && p !in Gaps(bs[..n])
            && Live(bs[..n + 1]) == (if bs[n].free then Live(bs[..n]) else Live(bs[..n]) + {p})
            && Gaps(bs[..n + 1]) == (if bs[n].free then Gaps(bs[..n]) + {p} else Gaps(bs[..n]))
  {
    var s, t := bs[..n], bs[..n + 1];
    assert t == s + [bs[n]];
    forall k | 0 <= k < n ensures PayloadOf(s[k]) != PayloadOf(bs[n]) {
      InOrder(bs, start, brk, k, n);
    }
    forall k | 0 <= k < n ensures t[k] == s[k] {
    }
    assert t[n] == bs[n];
  }

  // The layout is a function of the live payloads alone.
  lemma SameLiveSameBlocks(a: seq<Block>, b: seq<Block>, start: nat, brk: nat)
    requires Good(a, start, brk) && Good(b, start, brk) && Live(a) == Live(b)
    ensures a == b
  {
    SamePrefix(a, b, start, brk, |a|);
    SamePrefix(b, a, start, brk, |b|);
  }

  lemma {:induction false} SamePrefix(a: seq<Block>, b: seq<Block>, start: nat, brk: nat, n: nat)
    requires Good(a, start, brk) && Good(b, start, brk) && Live(a) == Live(b) && n <= |a|
    ensures n <= |b| && a[..n] == b[..n]
  {
    if n > 0 {
      var i := n - 1;
      SamePrefix(a, b, start, brk, i);
      SameStart(a, b, start, brk, i);
      NoSmaller(a, b, start, brk, i);
      NoSmaller(b, a, start, brk, i);
      assert a[..n] == a[..i] + [a[i]] && b[..n] == b[..i] + [b[i]];
    }
  }

  lemma SameStart(a: seq<Block>, b: seq<Block>, start: nat, brk: nat, i: nat)
    requires Good(a, start, brk) && Good(b, start, brk) && i < |a| && i <= |b| && a[..i] == b[..i]
    ensures i < |b| && a[i].addr == b[i].addr
  {
    if i > 0 {
      assert a[i - 1] == a[..i][i - 1] == b[..i][i - 1] == b[i - 1];
      assert End(a[i - 1]) == a[i].addr;
      Aligned(a, start, brk, i);
      if i < |b| {
        assert End(b[i - 1]) == b[i].addr;
      }
    }
  }

  // A block that starts where another one does is as long and as free, or longer.
  lemma NoSmaller(a: seq<Block>, b: seq<Block>, start: nat, brk: nat, i: nat)
    requires Good(a, start, brk) && Good(b, start, brk) && Live(a) == Live(b)
    requires i < |a| && i < |b| && a[i].addr == b[i].addr
    ensures a[i].size >= b[i].size && (!a[i].free ==> a[i] == b[i])
  {
    if !a[i].free {
      LiveBlock(a, b, start, brk, i, i);
    } else if !b[i].free {
      LiveBlock(b, a, start, brk, i, i);
    } else if a[i].size < b[i].size {
      Aligned(b, start, brk, i);
      assert End(a[i]) < brk && i + 1 < |a|;
      assert End(a[i]) == a[i + 1].addr;
      InLive(a, i);
      var k := LiveIndex(a, b, i + 1);
      if k < i {
        InOrder(b, start, brk, k, i);
      } else if k > i {
        InOrder(b, start, brk, i, k);
      }
    }
  }

  lemma LiveIndex(a: seq<Block>, b: seq<Block>, i: nat) returns (k: nat)
    requires Live(a) == Live(b) && i < |a| && !a[i].free
    ensures k < |b| && b[k] == a[i]
  {
    assert PayloadOf(a[i]) in Live(b);
    k :| 0 <= k < |b| && !b[k].free && PayloadOf(b[k]) == PayloadOf(a[i]);
  }

  lemma LiveBlock(a: seq<Block>, b: seq<Block>, start: nat, brk: nat, i: nat, j: nat)
    requires Tiled(b, start, brk) && Live(a) == Live(b) && i < |a| && !a[i].free && j < |b| && b[j].addr == a[i].addr
    ensures b[j] == a[i]
  {
    var k := LiveIndex(a, b, i);
    if k < j {
      InOrder(b, start, brk, k, j);
    } else if j < k {
      InOrder(b, start, brk, j, k);
    }
  }

  datatype Stats = Stats(heapSize: nat, usedBytes: nat, freeBytes: nat, allocCount: nat, freeCount: nat)

  // ---- the heap ----

  class Heap {
    var mem: Memory
    const start: nat
    const brk: nat
    ghost var blocks: seq<Block>     // what the headers in memory say

    ghost predicate Valid()
      reads this
    {
      Good(blocks, start, brk) && Rep(mem, blocks)
    }

    // Address of block k; the list ends in NULL.
    ghost function AddressOf(k: nat): nat
      reads this
    {
      if k < |blocks| then blocks[k].addr else NULL
    }

    constructor (base: nat, size: nat)
      requires 0 < base && base % 8 == 0 && size % 8 == 0 && HEADER <= size && base + size + HEADER <= WORD
      ensures Valid() && start == base && brk == base + size && Live(blocks) == {}
    {
      start, brk := base, base + size;
      mem := WithHeader(map[], base, Header(size - HEADER, 1, NULL, NULL));
      blocks := [Block(base, size - HEADER, true)];
      new;
      WithHeaderWrote(map[], base, Header(size - HEADER, 1, NULL, NULL));
    }

    method PutHeader(a: nat, h: Header)
      modifies this`mem
      ensures Wrote(old(mem), mem, a, h)
    {
      mem := WithHeader(mem, a, h);
      WithHeaderWrote(old(mem), a, h);
    }

    // `block.next.prev := a`, when there is a next block.
    method PutBack(next: nat, a: nat, ghost j: nat)
      requires next == AddressOf(j) && (j < |blocks| ==> next != NULL)
      modifies this`mem
      ensures WroteBack(old(mem), mem, blocks, j, a)
    {
      if next != NULL {
        PutHeader(next, HeaderAt(mem, next).(prev := a));
      }
    }

    method SetFree(a: nat, free: bool, ghost i: nat)
      requires Tiled(blocks, start, brk) && Rep(mem, blocks) && i < |blocks| && a == blocks[i].addr
      modifies this
      ensures blocks == Mark(old(blocks), i, free) && Rep(mem, blocks) && Tiled(blocks, start, brk)
      ensures PayloadsKept(old(blocks), old(mem), mem)
    {
      PutHeader(a, HeaderAt(mem, a).(isFree := if free then 1 else 0));
      MarkRep(old(mem), mem, blocks, start, brk, i, free);
      MarkTiled(blocks, start, brk, i, free);
      HeaderMissesPayloads(old(mem), mem, blocks, start, brk, i);
      blocks := Mark(blocks, i, free);
    }

    method SplitAt(a: nat, n: nat, ghost i: nat)
      requires Tiled(blocks, start, brk) && Rep(mem, blocks) && i < |blocks| && a == blocks[i].addr
      requires blocks[i].free && n % 8 == 0 && n + HEADER <= blocks[i].size
      modifies this
      ensures blocks == Split(old(blocks), i, n) && Rep(mem, blocks) && Tiled(blocks, start, brk)
      ensures PayloadsKept(old(blocks), old(mem), mem)
    {
      assert RepAt(mem, blocks, i);
      Positive(blocks, start, brk, i + 1);
      var h := HeaderAt(mem, a);
      var rest := a + HEADER + n;
      PutHeader(rest, Header(h.size - n - HEADER, 1, h.next, a));
      ghost var m1 := mem;
      PutBack(h.next, rest, i + 1);
      ghost var m2 := mem;
      PutHeader(a, HeaderAt(mem, a).(size := n, next := rest));
      SplitRep(old(mem), m1, m2, mem, blocks, start, brk, i, n);
      SplitTiled(blocks, start, brk, i, n);
      SplitKeeps(old(mem), m1, m2, mem, blocks, start, brk, i, n);
      blocks := Split(blocks, i, n);
    }

    // The block swallows the next one.
    method MergeWithNext(a: nat, ghost i: nat)
      requires Tiled(blocks, start, brk) && Rep(mem, blocks) && i + 1 < |blocks| && a == blocks[i].addr
      modifies this
      ensures blocks == Merge(old(blocks), i) && Rep(mem, blocks) && Tiled(blocks, start, brk)
      ensures PayloadsKept(old(blocks), old(mem), mem)
    {
      assert RepAt(mem, blocks, i) && RepAt(mem, blocks, i + 1);
      Positive(blocks, start, brk, i + 2);
      var h := HeaderAt(mem, a);
      var victim := HeaderAt(mem, h.next);
      PutHeader(a, h.(size := h.size + HEADER + victim.size, next := victim.next));
      ghost var m1 := mem;
      PutBack(victim.next, a, i + 2);
      MergeRep(old(mem), m1, mem, blocks, start, brk, i);
      MergeTiled(blocks, start, brk, i);
      MergeKeeps(old(mem), m1, mem, blocks, start, brk, i);
      blocks := Merge(blocks, i);
    }

    // Walks the list to the first block that fits.
    method FindFit(n: nat) returns (curr: nat, ghost i: nat)
      requires Valid()
      ensures FirstFitAt(blocks, n, i) && curr == AddressOf(i) && (curr == NULL <==> i == |blocks|)
      ensures curr == NULL <==> forall k | 0 <= k < |blocks| :: !Fits(blocks[k], n)
    {
      Positive(blocks, start, brk, 0);
      curr, i := start, 0;
      while curr != NULL
        invariant i <= |blocks| && curr == AddressOf(i) && (curr == NULL <==> i == |blocks|)
        invariant forall k | 0 <= k < i :: !Fits(blocks[k], n)
        decreases |blocks| - i
      {
        assert RepAt(mem, blocks, i);
        var h := HeaderAt(mem, curr);
        if h.isFree != 0 && h.size >= n {
          return;
        }
        Positive(blocks, start, brk, i + 1);
        curr, i := h.next, i + 1;
      }
    }

    // Hands out a block that fits, split when more than a header and 8 bytes are left.
    method TakeFit(a: nat, n: nat, ghost i: nat)
      requires Valid() && i < |blocks| && a == blocks[i].addr && Fits(blocks[i], n) && n % 8 == 0
      modifies this
      ensures Valid() && blocks == AllocBlocks(old(blocks), i, n)
      ensures Live(blocks) == Live(old(blocks)) + {Payload(a + HEADER, blocks[i].size)}
      ensures Payload(a + HEADER, blocks[i].size) !in Live(old(blocks))
      ensures LiveKept(Live(old(blocks)), old(mem), mem)
    {
      AllocMeans(blocks, start, brk, i, n);
      SplitIfLarge(a, n, i);
      ghost var m, bs := mem, blocks;
      SetFree(a, false, i);
      KeptIsLiveKept(bs, m, mem);
      LiveKeptTwice(Live(bs), old(mem), m, mem);
    }

    method SplitIfLarge(a: nat, n: nat, ghost i: nat)
      requires Valid() && i < |blocks| && a == blocks[i].addr && Fits(blocks[i], n) && n % 8 == 0
      modifies this
      ensures blocks == if old(blocks)[i].size - n > SPLIT_OVER then Split(old(blocks), i, n) else old(blocks)
      ensures Rep(mem, blocks) && Tiled(blocks, start, brk) && Live(blocks) == Live(old(blocks))
      ensures LiveKept(Live(old(blocks)), old(mem), mem)
    {
      assert RepAt(mem, blocks, i);
      if HeaderAt(mem, a).size - n > SPLIT_OVER {
        SplitLive(blocks, i, n);
        SplitAt(a, n, i);
        KeptIsLiveKept(old(blocks), old(mem), mem);
      }
    }

    method Alloc(size: nat) returns (ptr: nat, ghost i: nat)
      requires Valid() && size < WORD
      modifies this
      ensures Valid() && FirstFitAt(old(blocks), Align8(size), i)
      ensures i == |old(blocks)| ==> ptr == 0 && blocks == old(blocks) && mem == old(mem)
      ensures i < |old(blocks)| ==>
        && ptr == old(blocks)[i].addr + HEADER && blocks == AllocBlocks(old(blocks), i, Align8(size))
        && i < |blocks| && Live(blocks) == Live(old(blocks)) + {Payload(ptr, blocks[i].size)}
        && Payload(ptr, blocks[i].size) !in Live(old(blocks))
        && Handed(old(blocks), blocks, i, Align8(size))
        && (size <= blocks[i].size <==> size <= 0xFFFF_FFF8) && blocks[i].size < size + 32
      ensures LiveKept(Live(old(blocks)), old(mem), mem)
    {
      AlignExact(size);
      var n := Align8(size);
      ptr := NULL;
      var curr;
      curr, i := FindFit(n);
      if curr != NULL {
        TakeFit(curr, n, i);
        ptr := curr + HEADER;
      }
    }

    // Marks the block free and swallows the next block while that is free too.
    method MergeForward(a: nat, ghost i: nat)
      requires Tiled(blocks, start, brk) && Rep(mem, blocks) && i < |blocks| && a == blocks[i].addr
      requires blocks[i].free && CoalescedBut(blocks, i)
      modifies this
      ensures blocks == MergedForward(old(blocks), i) && Rep(mem, blocks) && Tiled(blocks, start, brk)
      ensures LiveKept(Live(old(blocks)), old(mem), mem)
    {
      ForwardMeans(blocks, start, brk, i);
      ghost var b1 := blocks;
      assert RepAt(mem, blocks, i);
      var next := HeaderAt(mem, a).next;
      Positive(blocks, start, brk, i + 1);
      ghost var merged := false;
      while next != NULL && HeaderAt(mem, next).isFree != 0
        invariant i < |blocks| && next == AddressOf(i + 1) && (next == NULL <==> i + 1 >= |blocks|)
        invariant Rep(mem, blocks) && Tiled(blocks, start, brk) && blocks[i].addr == a
        invariant blocks == if merged then MergedForward(b1, i) else b1
        invariant LiveKept(Live(b1), old(mem), mem)
        decreases !merged
        modifies this
      {
        assert RepAt(mem, blocks, i + 1);
        ghost var m := mem;
        MergeWithNext(a, i);
        KeptIsLiveKept(b1, m, mem);
        LiveKeptTwice(Live(b1), old(mem), m, mem);
        merged := true;
        assert RepAt(mem, blocks, i);
        Positive(blocks, start, brk, i + 1);
        next := HeaderAt(mem, a).next;
      }
      if i + 1 < |blocks| {
        assert RepAt(mem, blocks, i + 1);
      }
    }

    method MergeBackward(a: nat, ghost i: nat)
      requires Tiled(blocks, start, brk) && Rep(mem, blocks) && i < |blocks| && a == blocks[i].addr
      modifies this
      ensures blocks == MergedBackward(old(blocks), i) && Rep(mem, blocks)
      ensures LiveKept(Live(old(blocks)), old(mem), mem)
    {
      assert RepAt(mem, blocks, i);
      var prev := HeaderAt(mem, a).prev;
      if i > 0 {
        Positive(blocks, start, brk, i - 1);
        assert RepAt(mem, blocks, i - 1);
      }
      if prev != NULL && HeaderAt(mem, prev).isFree != 0 {
        MergeWithNext(prev, i - 1);
        KeptIsLiveKept(old(blocks), old(mem), mem);
      }
    }

    method FreeAt(a: nat, ghost i: nat)
      requires Valid() && i < |blocks| && a == blocks[i].addr && !blocks[i].free
      modifies this
      ensures Valid() && blocks == FreeBlocks(old(blocks), i)
      ensures Live(blocks) == Live(old(blocks)) - {Payload(a + HEADER, old(blocks)[i].size)}
      ensures LiveKept(Live(blocks), old(mem), mem)
    {
      ghost var bs := blocks;
      FreeMeans(bs, start, brk, i);
      MarkLive(bs, start, brk, i);
      SetFree(a, true, i);
      KeptIsLiveKept(bs, old(mem), mem);
      ghost var b1, m1 := blocks, mem;
      ForwardMeans(b1, start, brk, i);
      MergeForward(a, i);
      ghost var m2 := mem;
      BackwardMeans(blocks, start, brk, i);
      MergeBackward(a, i);
      LiveKeptTwice(Live(b1), old(mem), m1, m2);
      LiveKeptTwice(Live(b1), old(mem), m2, mem);
    }

    // Frees a live payload; NULL and pointers whose header lies outside the heap are ignored.
    method Free(ptr: nat) returns (ghost i: nat)
      requires Valid() && ptr < WORD
      requires start + HEADER <= ptr < brk + HEADER ==> HasPtr(Live(blocks), ptr)
      modifies this
      ensures Valid() && i <= |old(blocks)|
      ensures i < |old(blocks)| <==> start + HEADER <= ptr < brk + HEADER
      ensures i == |old(blocks)| ==> blocks == old(blocks) && mem == old(mem)
      ensures i < |old(blocks)| ==>
        && ptr == old(blocks)[i].addr + HEADER && !old(blocks)[i].free && blocks == FreeBlocks(old(blocks), i)
        && Live(blocks) == Live(old(blocks)) - {Payload(ptr, old(blocks)[i].size)}
      ensures LiveKept(Live(blocks), old(mem), mem)
    {
      i := |blocks|;
      if ptr == NULL {
        return;
      }
      var block := (ptr + WORD - HEADER) % WORD;
      if block < start || block >= brk {
        return;
      }
      i := IndexOf(blocks, ptr);
      FreeAt(block, i);
    }

    method Statistics() returns (out: Stats)
      requires Valid()
      ensures out.heapSize == brk - start
      ensures out.allocCount == |Live(blocks)| && out.usedBytes == Bytes(Live(blocks)) + 16 * |Live(blocks)|
      ensures out.freeCount == |Gaps(blocks)| && out.freeBytes == Bytes(Gaps(blocks))
      ensures out.usedBytes + out.freeBytes + 16 * out.freeCount == out.heapSize
    {
      Aligned(blocks, start, brk, 0);
      out := Stats(brk - start, 0, 0, 0, 0);
      ghost var k: nat := 0;
      Positive(blocks, start, brk, 0);
      var curr := start;
      while curr != NULL
        invariant k <= |blocks| && curr == AddressOf(k) && (curr == NULL <==> k == |blocks|)
        invariant out.heapSize == brk - start && out.allocCount + out.freeCount == k
        invariant out.usedBytes == UsedBytes(blocks[..k]) && out.freeBytes == FreeBytes(blocks[..k])
        invariant out.freeCount == FreeCount(blocks[..k])
        decreases |blocks| - k
      {
        assert RepAt(mem, blocks, k);
        assert blocks[..k + 1][..k] == blocks[..k];
        Positive(blocks, start, brk, k + 1);
        var h := HeaderAt(mem, curr);
        if h.isFree != 0 {
          out := out.(freeBytes := out.freeBytes + h.size, freeCount := out.freeCount + 1);
        } else {
          out := out.(usedBytes := out.usedBytes + h.size + HEADER, allocCount := out.allocCount + 1);
        }
        curr, k := h.next, k + 1;
      }
      assert blocks[..k] == blocks;
      BytesConserved(blocks, start, brk, k);
      SumsOf(blocks, start, brk, k);
    }

    // Freeing every live payload, in any order, leaves one free block of the whole heap.
    method FreeEach(ptrs: seq<nat>)
      requires Valid() && forall i, j | 0 <= i < j < |ptrs| :: ptrs[i] != ptrs[j]
      requires forall a: nat :: a in ptrs <==> HasPtr(Live(blocks), a)
      modifies this
      ensures Valid() && |blocks| == 1 && blocks[0].free && blocks[0].addr == start && blocks[0].size + HEADER == brk - start
    {
      var n := 0;
      while n < |ptrs|
        invariant n <= |ptrs| && Valid()
        invariant forall a: nat :: a in ptrs[n..] <==> HasPtr(Live(blocks), a)
        modifies this
      {
        FreeNext(ptrs, n);
        n := n + 1;
      }
      assert ptrs[n..] == [];
      NothingLeft(Live(blocks));
      NothingLive(blocks, start, brk);
    }

    method FreeNext(ptrs: seq<nat>, n: nat)
      requires Valid() && n < |ptrs| && forall i, j | 0 <= i < j < |ptrs| :: ptrs[i] != ptrs[j]
      requires forall a: nat :: a in ptrs[n..] <==> HasPtr(Live(blocks), a)
      modifies this
      ensures Valid() && forall a: nat :: a in ptrs[n + 1..] <==> HasPtr(Live(blocks), a)
    {
      ghost var bs := blocks;
      assert ptrs[n..] == [ptrs[n]] + ptrs[n + 1..];
      LiveInHeap(bs, start, brk, ptrs[n]);
      var i := Free(ptrs[n]);
      forall a: nat ensures a in ptrs[n + 1..] <==> HasPtr(Live(blocks), a) {
        OnePayload(bs, start, brk, i, a);
      }
    }
  }

  ghost predicate HasPtr(live: set<Payload>, a: nat) {
    exists p <- live :: p.ptr == a
  }

  // Every word of the given payloads is as before.
  ghost predicate LiveKept(live: set<Payload>, m: Memory, m': Memory) {
    forall p <- live, w: nat | p.ptr <= w < p.ptr + p.size :: Load(m', w) == Load(m, w)
  }

  lemma KeptIsLiveKept(bs: seq<Block>, m: Memory, m': Memory)
    requires PayloadsKept(bs, m, m')
    ensures LiveKept(Live(bs), m, m')
  {
  }

  lemma LiveKeptTwice(live: set<Payload>, m: Memory, m1: Memory, m2: Memory)
    requires LiveKept(live, m, m1) && LiveKept(live, m1, m2)
    ensures LiveKept(live, m, m2)
  {
  }

  lemma SplitLive(bs: seq<Block>, i: nat, n: nat)
    requires i < |bs| && bs[i].free && n + HEADER <= bs[i].size
    ensures Live(Split(bs, i, n)) == Live(bs)
  {
    var bs' := Split(bs, i, n);
    forall p | p in Live(bs) ensures p in Live(bs') {
      var k :| 0 <= k < |bs| && !bs[k].free && PayloadOf(bs[k]) == p;
      assert bs'[if k < i then k else k + 1] == bs[k];
    }
    forall p | p in Live(bs') ensures p in Live(bs) {
      var k :| 0 <= k < |bs'| && !bs'[k].free && PayloadOf(bs'[k]) == p;
      assert bs[if k < i then k else k - 1] == bs'[k];
    }
  }

  lemma Positive(bs: seq<Block>, start: nat, brk: nat, i: nat)
    requires Tiled(bs, start, brk)
    ensures i < |bs| ==> bs[i].addr != NULL
  {
    if i < |bs| {
      Aligned(bs, start, brk, i);
    }
  }

  lemma KeptTwice(bs: seq<Block>, m: Memory, m1: Memory, m2: Memory)
    requires PayloadsKept(bs, m, m1) && PayloadsKept(bs, m1, m2)
    ensures PayloadsKept(bs, m, m2)
  {
  }

  lemma BackKeeps(m: Memory, m': Memory, bs: seq<Block>, start: nat, brk: nat, j: nat, a: nat)
    requires Tiled(bs, start, brk) && WroteBack(m, m', bs, j, a)
    ensures PayloadsKept(bs, m, m')
  {
    if j < |bs| {
      HeaderMissesPayloads(m, m', bs, start, brk, j);
    }
  }

  lemma SplitKeeps(m: Memory, m1: Memory, m2: Memory, m3: Memory, bs: seq<Block>, start: nat, brk: nat, i: nat, n: nat)
    requires Tiled(bs, start, brk) && i < |bs| && bs[i].free && n + HEADER <= bs[i].size
    requires SplitWrites(m, m1, m2, m3, bs, i, n)
    ensures PayloadsKept(bs, m, m3)
  {
    var a := bs[i].addr + HEADER + n;
    InsideMissesPayloads(m, m1, bs, start, brk, i, a);
    BackKeeps(m1, m2, bs, start, brk, i + 1, a);
    HeaderMissesPayloads(m2, m3, bs, start, brk, i);
    KeptTwice(bs, m, m1, m2);
    KeptTwice(bs, m, m2, m3);
  }

  lemma MergeKeeps(m: Memory, m1: Memory, m2: Memory, bs: seq<Block>, start: nat, brk: nat, i: nat)
    requires Tiled(bs, start, brk) && i + 1 < |bs| && MergeWrites(m, m1, m2, bs, i)
    ensures PayloadsKept(bs, m, m2)
  {
    HeaderMissesPayloads(m, m1, bs, start, brk, i);
    BackKeeps(m1, m2, bs, start, brk, i + 2, bs[i].addr);
    KeptTwice(bs, m, m1, m2);
  }

  lemma IndexOf(bs: seq<Block>, ptr: nat) returns (i: nat)
    requires HasPtr(Live(bs), ptr)
    ensures i < |bs| && !bs[i].free && bs[i].addr + HEADER == ptr
  {
    var p :| p in Live(bs) && p.ptr == ptr;
    i :| i < |bs| && !bs[i].free && PayloadOf(bs[i]) == p;
  }

  lemma NothingLeft(live: set<Payload>)
    requires forall a: nat :: !HasPtr(live, a)
    ensures live == {}
  {
    if p :| p in live {
      assert HasPtr(live, p.ptr);
    }
  }

  lemma LiveInHeap(bs: seq<Block>, start: nat, brk: nat, ptr: nat)
    requires Tiled(bs, start, brk) && HasPtr(Live(bs), ptr)
    ensures start + HEADER <= ptr < brk + HEADER && ptr < WORD
  {
    var i := IndexOf(bs, ptr);
    Aligned(bs, start, brk, i);
  }

  // Block i alone has its pointer.
  lemma OnePayload(bs: seq<Block>, start: nat, brk: nat, i: nat, a: nat)
    requires Tiled(bs, start, brk) && i < |bs| && !bs[i].free
    ensures HasPtr(Live(bs) - {PayloadOf(bs[i])}, a) <==> HasPtr(Live(bs), a) && a != bs[i].addr + HEADER
  {
    var rest := Live(bs) - {PayloadOf(bs[i])};
    if p :| p in rest && p.ptr == a {
      var k :| 0 <= k < |bs| && !bs[k].free && PayloadOf(bs[k]) == p;
      Apart(bs, start, brk, i, k);
    }
    if p :| p in Live(bs) && p.ptr == a && a != bs[i].addr + HEADER {
      assert p in rest;
    }
  }
}
