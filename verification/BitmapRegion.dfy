// One region of the bitmap allocator: a bit per page, set when the page is in use.
module BitmapRegion {
  import opened Prelude

  // ---- bytes ----

  function Mask(b: nat): bv8
    requires b < 8
  {
    (1 as bv8) << b
  }

  predicate Bit(v: bv8, b: nat)
    requires b < 8
  {
    v & Mask(b) != 0
  }

  lemma SetBits(v: bv8, b: nat, c: nat)
    requires b < 8 && c < 8
    ensures Bit(v | Mask(b), c) <==> b == c || Bit(v, c)
  {
  }

  lemma ClearBits(v: bv8, b: nat, c: nat)
    requires b < 8 && c < 8
    ensures Bit(v & !Mask(b), c) <==> b != c && Bit(v, c)
  {
  }

  lemma FullByte(b: nat)
    requires b < 8
    ensures Bit(0xff, b)
  {
  }

  // The record of one region; `bitmap` is the buffer kept in the region's first pages.
  datatype Region = Region(base: nat, pages: nat, bitmapPages: nat, bitmap: seq<bv8>, free: nat) {

    predicate Used(i: nat)
      requires i / 8 < |bitmap|
    {
      Bit(bitmap[i / 8], i % 8)
    }

    ghost predicate Sized() {
      && base > 0 && base % PAGE_SIZE == 0 && base + pages * PAGE_SIZE < WORD
      && bitmapPages < pages && (pages + 7) / 8 <= |bitmap|
    }

    // Page indices whose bit is clear.
    ghost function FreeSet(): set<nat> {
      set i: nat | i < pages && i / 8 < |bitmap| && !Used(i)
    }

    // The cached count is exact and the bitmap's own pages are never free.
    ghost predicate Valid() {
      Sized() && free == |FreeSet()| && forall i <- FreeSet() :: bitmapPages <= i
    }

    function Set(i: nat): Region
      requires i / 8 < |bitmap|
    {
      this.(bitmap := bitmap[i / 8 := bitmap[i / 8] | Mask(i % 8)])
    }

    function Clear(i: nat): Region
      requires i / 8 < |bitmap|
    {
      this.(bitmap := bitmap[i / 8 := bitmap[i / 8] & !Mask(i % 8)])
    }
  }

  lemma SetFree(r: Region, i: nat)
    requires r.Sized() && i < r.pages
    ensures r.Set(i).FreeSet() == r.FreeSet() - {i}
  {
    forall j: nat | j < r.pages ensures r.Set(i).Used(j) <==> j == i || r.Used(j) {
      if j / 8 == i / 8 {
        SetBits(r.bitmap[i / 8], i % 8, j % 8);
      }
    }
  }

  lemma ClearFree(r: Region, i: nat)
    requires r.Sized() && i < r.pages
    ensures r.Clear(i).FreeSet() == r.FreeSet() + {i}
  {
    forall j: nat | j < r.pages ensures r.Clear(i).Used(j) <==> j != i && r.Used(j) {
      if j / 8 == i / 8 {
        ClearBits(r.bitmap[i / 8], i % 8, j % 8);
      }
    }
  }

  // A page taken or given back, with the count of free pages.
  function Taken(r: Region, i: nat): Region
    requires i / 8 < |r.bitmap| && r.free > 0
  {
    r.Set(i).(free := r.free - 1)
  }

  function Given(r: Region, i: nat): Region
    requires i / 8 < |r.bitmap|
  {
    r.Clear(i).(free := r.free + 1)
  }

  lemma TakeOne(r: Region, i: nat)
    requires r.Valid() && i in r.FreeSet()
    ensures r.free > 0
    ensures var r' := Taken(r, i); r'.Valid() && r'.FreeSet() == r.FreeSet() - {i}
  {
    SetFree(r, i);
    var r' := Taken(r, i);
    assert r'.FreeSet() == r.Set(i).FreeSet();
  }

  lemma GiveOne(r: Region, i: nat)
    requires r.Valid() && r.bitmapPages <= i < r.pages && i !in r.FreeSet()
    ensures var r' := Given(r, i); r'.Valid() && r'.FreeSet() == r.FreeSet() + {i}
  {
    ClearFree(r, i);
    var r' := Given(r, i);
    assert r'.FreeSet() == r.Clear(i).FreeSet();
  }

  lemma AllUsed(r: Region)
    requires forall j | 0 <= j < |r.bitmap| :: r.bitmap[j] == 0xff
    ensures r.FreeSet() == {}
  {
    forall i: nat | i < r.pages && i / 8 < |r.bitmap| ensures r.Used(i) {
      FullByte(i % 8);
    }
  }

  // The pages after the bitmap are free up to page i, and no others.
  ghost predicate FreedTo(r: Region, base: nat, pages: nat, storagePages: nat, i: nat) {
    && r.Valid() && r.base == base && r.pages == pages && r.bitmapPages == storagePages
    && forall j: nat :: j in r.FreeSet() <==> storagePages <= j < i
  }

  lemma FreeNext(r: Region, base: nat, pages: nat, storagePages: nat, i: nat)
    requires FreedTo(r, base, pages, storagePages, i) && storagePages <= i < pages
    ensures FreedTo(Given(r, i), base, pages, storagePages, i + 1)
  {
    GiveOne(r, i);
  }

  // Everything used to begin with; then the pages after the bitmap are cleared one by one.
  method InitAndFreeTail(base: nat, pages: nat, storagePages: nat) returns (r: Region)
    requires base > 0 && base % PAGE_SIZE == 0 && base + pages * PAGE_SIZE < WORD
    requires storagePages < pages && (pages + 7) / 8 <= storagePages * PAGE_SIZE
    ensures FreedTo(r, base, pages, storagePages, pages)
  {
    r := Region(base, pages, storagePages, seq(storagePages * PAGE_SIZE, _ => 0xff), 0);
    AllUsed(r);
    var i := storagePages;
    while i < pages
      invariant storagePages <= i <= pages && FreedTo(r, base, pages, storagePages, i)
    {
      FreeNext(r, base, pages, storagePages, i);
      r := Given(r, i);
      i := i + 1;
    }
  }

  // Recomputes the cached count from the bits.
  method Recount(r: Region) returns (n: nat)
    requires r.Sized()
    ensures n == |r.FreeSet()|
  {
    n := 0;
    var i: nat := 0;
    ghost var seen := {};
    while i < r.pages
      invariant i <= r.pages && n == |seen|
      invariant forall j: nat :: j in seen <==> j < i && j in r.FreeSet()
    {
      if !r.Used(i) {
        n := n + 1;
        seen := seen + {i};
      }
      i := i + 1;
    }
    assert seen == r.FreeSet();
  }

  // Lowest free page, by bytes and then by bits.
  method FindFreeIndex(r: Region) returns (found: bool, idx: nat)
    requires r.Sized()
    ensures found ==> idx in r.FreeSet() && forall i <- r.FreeSet() :: idx <= i
    ensures !found ==> r.FreeSet() == {}
  {
    var byte: nat := 0;
    while byte < (r.pages + 7) / 8
      invariant byte <= (r.pages + 7) / 8
      invariant forall i <- r.FreeSet() :: 8 * byte <= i
    {
      var v := r.bitmap[byte];
      if v == 0xff {
        SkipFullByte(r, byte);
      } else {
        var bit: nat := 0;
        while bit < 8
          invariant bit <= 8
          invariant forall i <- r.FreeSet() :: 8 * byte + bit <= i
        {
          idx := 8 * byte + bit;
          if idx >= r.pages {
            break;
          }
          if !r.Used(idx) {
            return true, idx;
          }
          bit := bit + 1;
        }
      }
      byte := byte + 1;
    }
    found, idx := false, 0;
  }

  lemma SkipFullByte(r: Region, byte: nat)
    requires byte < |r.bitmap| && r.bitmap[byte] == 0xff
    requires forall i <- r.FreeSet() :: 8 * byte <= i
    ensures forall i <- r.FreeSet() :: 8 * (byte + 1) <= i
  {
    forall i <- r.FreeSet() ensures 8 * (byte + 1) <= i {
      FullByte(i % 8);
    }
  }
}
