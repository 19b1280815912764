// One slab: a page with a header, a bitmap of free slots and equal objects after it.
module SlabPage {
  import opened Prelude
  import opened Arithmetic

  const HEADER_SIZE: nat := 40      // 36 bytes of fields, rounded up to 8
  const NUM_CACHES: nat := 7
  const SIZES: seq<nat> := [32, 64, 128, 256, 512, 1024, 2048]
  const NULL: nat := 0

  // A 32-bit word is the sequence of its bits, lowest first.
  type Word = w: seq<bool> | |w| == 32 witness Zero()

  function Zero(): seq<bool> {
    seq(32, _ => false)
  }

  // ---- slabs ----

  datatype Slab = Slab(next: nat, cacheIdx: nat, objSize: nat, capacity: nat, freeCount: nat, bitmap: seq<Word>) {

    predicate Free(i: nat)
      requires i / 32 < |bitmap|
    {
      bitmap[i / 32][i % 32]
    }

    ghost function FreeSlots(): set<nat> {
      set i: nat | i < capacity && i / 32 < |bitmap| && Free(i)
    }

    ghost predicate Sized() {
      && cacheIdx < NUM_CACHES && objSize == SIZES[cacheIdx] && capacity == Capacity(objSize) <= 128
      && |bitmap| == 4
    }

    // The count is that of the set bits below the capacity.
    ghost predicate Valid() {
      Sized() && freeCount == |FreeSlots()|
    }

    function WithBit(i: nat): Slab
      requires i / 32 < |bitmap|
    {
      this.(bitmap := bitmap[i / 32 := bitmap[i / 32][i % 32 := true]])
    }

    function WithoutBit(i: nat): Slab
      requires i / 32 < |bitmap|
    {
      this.(bitmap := bitmap[i / 32 := bitmap[i / 32][i % 32 := false]])
    }
  }

  // As many objects as fit after the header, at most one per bitmap bit.
  function Capacity(objSize: nat): (n: nat)
    requires objSize > 0
    ensures 40 + n * objSize <= 4096 && n <= 128
    ensures n == 128 || 40 + (n + 1) * objSize > 4096
  {
    var c := (PAGE_SIZE - HEADER_SIZE) / objSize;
    QuotientRemainder(PAGE_SIZE - HEADER_SIZE, objSize);
    Products(c, 128, objSize);
    if c > 128 then 128 else c
  }

  lemma Products(a: nat, b: nat, n: nat)
    ensures a >= b ==> a * n >= b * n
    ensures (a + 1) * n == a * n + n
  {
  }

  // The classes are the powers of two from 32 to 2048 bytes.
  lemma CapacityFits(c: nat)
    requires c < NUM_CACHES
    ensures SIZES[c] == [32, 64, 128, 256, 512, 1024, 2048][c] && Capacity(SIZES[c]) == [126, 63, 31, 15, 7, 3, 1][c]
    ensures 0 < Capacity(SIZES[c]) <= 126 && HEADER_SIZE + Capacity(SIZES[c]) * SIZES[c] <= PAGE_SIZE
    ensures SIZES[c] % 8 == 0 && NUM_CACHES == 7
  {
    if c == 0 {
      assert Capacity(32) == 126;
    } else if c == 1 {
      assert Capacity(64) == 63;
    } else if c == 2 {
      assert Capacity(128) == 31;
    } else if c == 3 {
      assert Capacity(256) == 15;
    } else if c == 4 {
      assert Capacity(512) == 7;
    } else if c == 5 {
      assert Capacity(1024) == 3;
    } else {
      assert Capacity(2048) == 1;
    }
  }

  lemma SetFree(s: Slab, i: nat)
    requires |s.bitmap| == 4 && s.capacity <= 128 && i < s.capacity
    ensures s.WithBit(i).FreeSlots() == s.FreeSlots() + {i}
  {
    forall j: nat | j < s.capacity ensures s.WithBit(i).Free(j) <==> j == i || s.Free(j) {
      assert j / 32 == i / 32 && j % 32 == i % 32 ==> j == i;
    }
  }

  lemma ClearFree(s: Slab, i: nat)
    requires |s.bitmap| == 4 && s.capacity <= 128 && i < s.capacity
    ensures s.WithoutBit(i).FreeSlots() == s.FreeSlots() - {i}
  {
    forall j: nat | j < s.capacity ensures s.WithoutBit(i).Free(j) <==> j != i && s.Free(j) {
      assert j / 32 == i / 32 && j % 32 == i % 32 ==> j == i;
    }
  }

  // A slot taken or given back, with its count.
  function Taken(s: Slab, i: nat): Slab
    requires i / 32 < |s.bitmap| && s.freeCount > 0
  {
    s.WithoutBit(i).(freeCount := s.freeCount - 1)
  }

  function Given(s: Slab, i: nat): Slab
    requires i / 32 < |s.bitmap|
  {
    s.WithBit(i).(freeCount := s.freeCount + 1)
  }

  lemma TakeSlot(s: Slab, i: nat)
    requires s.Valid() && i in s.FreeSlots()
    ensures s.freeCount > 0 && Taken(s, i).Valid() && Taken(s, i).FreeSlots() == s.FreeSlots() - {i}
  {
    ClearFree(s, i);
    assert Taken(s, i).FreeSlots() == s.WithoutBit(i).FreeSlots();
  }

  lemma GiveSlot(s: Slab, i: nat)
    requires s.Valid() && i < s.capacity && i !in s.FreeSlots()
    ensures Given(s, i).Valid() && Given(s, i).FreeSlots() == s.FreeSlots() + {i}
  {
    SetFree(s, i);
    assert Given(s, i).FreeSlots() == s.WithBit(i).FreeSlots();
  }

  // First free slot, word by word and then bit by bit.
  method FindFirstSet(s: Slab) returns (found: bool, idx: nat)
    requires |s.bitmap| == 4 && s.capacity <= 128
    ensures found ==> idx in s.FreeSlots() && forall i <- s.FreeSlots() :: idx <= i
    ensures !found ==> s.FreeSlots() == {}
  {
    var w: nat := 0;
    while w < (s.capacity + 31) / 32
      invariant w <= (s.capacity + 31) / 32
      invariant forall i <- s.FreeSlots() :: 32 * w <= i
    {
      if s.bitmap[w] == Zero() {
        SkipEmptyWord(s, w);
      } else {
        var b: nat := 0;
        while b < 32
          invariant b <= 32
          invariant forall i <- s.FreeSlots() :: 32 * w + b <= i
        {
          idx := 32 * w + b;
          if idx >= s.capacity {
            return false, 0;
          }
          if s.Free(idx) {
            return true, idx;
          }
          b := b + 1;
        }
      }
      w := w + 1;
    }
    found, idx := false, 0;
  }

  lemma SkipEmptyWord(s: Slab, w: nat)
    requires w < |s.bitmap| && s.bitmap[w] == Zero()
    requires forall i <- s.FreeSlots() :: 32 * w <= i
    ensures forall i <- s.FreeSlots() :: 32 * (w + 1) <= i
  {
    forall i | i in s.FreeSlots() ensures 32 * (w + 1) <= i {
      assert i / 32 != w;
    }
  }

  // An empty slab: all bits clear, then one set for each slot.
  method NewSlab(cacheIdx: nat) returns (s: Slab)
    requires cacheIdx < NUM_CACHES
    ensures s.Valid() && s.next == NULL && s.cacheIdx == cacheIdx && s.freeCount == s.capacity > 0
    ensures forall i: nat :: i in s.FreeSlots() <==> i < s.capacity
  {
    CapacityFits(cacheIdx);
    var capacity := Capacity(SIZES[cacheIdx]);
    s := Slab(NULL, cacheIdx, SIZES[cacheIdx], capacity, capacity, [Zero(), Zero(), Zero(), Zero()]);
    ghost var slots: set<nat> := {};
    ClearAll(s);
    var i: nat := 0;
    while i < capacity
      invariant i <= capacity && |slots| == i && s.FreeSlots() == slots && s.Sized()
      invariant s.next == NULL && s.cacheIdx == cacheIdx && s.capacity == s.freeCount == capacity
      invariant forall j: nat :: j in slots <==> j < i
    {
      SetFree(s, i);
      s := s.WithBit(i);
      slots := slots + {i};
      i := i + 1;
    }
  }

  lemma ClearAll(s: Slab)
    requires forall w | 0 <= w < |s.bitmap| :: s.bitmap[w] == Zero()
    ensures s.FreeSlots() == {}
  {
  }

  // ---- addresses ----

  function ObjectAt(page: nat, objSize: nat, slot: nat): (a: nat)
    ensures a >= page + HEADER_SIZE
  {
    page + HEADER_SIZE + slot * objSize
  }

  // An object lies in its page past the header, aligned, and its slot and page can be read
  // back from any object's address.
  lemma ObjectPlace(page: nat, c: nat, slot: nat)
    requires page % PAGE_SIZE == 0 && c < NUM_CACHES && slot < Capacity(SIZES[c])
    ensures var a := ObjectAt(page, SIZES[c], slot);
            && page + HEADER_SIZE <= a && a + SIZES[c] <= page + PAGE_SIZE
            && a - a % PAGE_SIZE == page && (a % PAGE_SIZE - HEADER_SIZE) / SIZES[c] == slot
  {
    CapacityFits(c);
    var n, z := Capacity(SIZES[c]), SIZES[c];
    Multiples(slot, n, z);
    var a := ObjectAt(page, z, slot);
    InPage(page, HEADER_SIZE + slot * z);
    DivideBack(slot, z);
  }

  lemma InPage(page: nat, d: nat)
    requires page % PAGE_SIZE == 0 && d < PAGE_SIZE
    ensures (page + d) % PAGE_SIZE == d && page + d - (page + d) % PAGE_SIZE == page
  {
  }

  lemma DivideBack(q: nat, z: nat)
    requires z > 0
    ensures q * z / z == q
  {
    QuotientRemainder(q * z, z);
    QuotientUnique(q, 0, q * z / z, q * z % z, z);
  }

  // Objects in different slots of one slab do not overlap.
  lemma ObjectsApart(page: nat, z: nat, i: nat, j: nat)
    requires i < j
    ensures ObjectAt(page, z, i) + z <= ObjectAt(page, z, j)
  {
    Multiples(i, j, z);
  }
}
