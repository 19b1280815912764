// The sorted-array VMA store: binary search and shifting in a fixed array.
module SortedArray {
  import opened Prelude
  import opened VmaSpec

  class Store {
    const areas: array<Area>
    var count: nat

    ghost predicate Valid()
      reads this, areas
    {
      areas.Length == CAPACITY && count <= CAPACITY && Ordered(areas[..count])
    }

    ghost function Listing(): seq<Area>
      requires count <= areas.Length
      reads this, areas
    {
      areas[..count]
    }

    ghost function Contents(): set<Area>
      requires count <= areas.Length
      reads this, areas
    {
      Elems(Listing())
    }

    constructor ()
      ensures Valid() && fresh(areas) && Contents() == {} && count == 0
    {
      areas := new Area[CAPACITY](_ => Area(0, 0, 0, 0));
      count := 0;
    }

    // First index whose range starts at or after `target`.
    method LowerBound(target: u32) returns (left: nat)
      requires Valid()
      ensures left <= count
      ensures forall i | 0 <= i < left :: areas[i].start < target
      ensures forall i | left <= i < count :: target <= areas[i].start
    {
      left := 0;
      var right := count;
      Ascending();
      while left < right
        invariant left <= right <= count
        invariant forall i | 0 <= i < left :: areas[i].start < target
        invariant forall i | right <= i < count :: target <= areas[i].start
      {
        var mid := left + (right - left) / 2;
        if areas[mid].start < target {
          left := mid + 1;
        } else {
          right := mid;
        }
      }
    }

    // First index whose range starts after `target`.
    method UpperBound(target: u32) returns (left: nat)
      requires Valid()
      ensures left <= count
      ensures forall i | 0 <= i < left :: areas[i].start <= target
      ensures forall i | left <= i < count :: target < areas[i].start
    {
      left := 0;
      var right := count;
      Ascending();
      while left < right
        invariant left <= right <= count
        invariant forall i | 0 <= i < left :: areas[i].start <= target
        invariant forall i | right <= i < count :: target < areas[i].start
      {
        var mid := left + (right - left) / 2;
        if areas[mid].start <= target {
          left := mid + 1;
        } else {
          right := mid;
        }
      }
    }

    lemma Ascending()
      requires Valid()
      ensures forall i, j | 0 <= i < j < count :: areas[i].start < areas[i].end <= areas[j].start
    {
      var s := areas[..count];
      assert forall i | 0 <= i < count :: s[i] == areas[i];
    }

    method Count() returns (n: nat)
      requires Valid()
      ensures n == |Contents()| == |Listing()|
    {
      OrderedCount(Listing());
      n := count;
    }

    method Find(addr: u32) returns (r: Option<Area>)
      requires Valid()
      ensures IsHit(Contents(), addr, r)
    {
      if count == 0 {
        return None;
      }
      var idx := UpperBound(addr);
      Ascending();
      if idx == 0 {
        return None;
      }
      var candidate := areas[idx - 1];
      r := if addr < candidate.end then Some(candidate) else None;
    }

    method Add(start: u32, end: u32, flags: u32, name: u32) returns (code: int)
      requires Valid()
      modifies this, areas
      ensures Valid()
      ensures (Contents(), Status(code)) == Step(old(Contents()), VmaSpec.Add(start, end, flags, name))
    {
      OrderedCount(Listing());
      if count >= CAPACITY {
        return -1;
      }
      if start >= end {
        return -1;
      }
      if start % PAGE_SIZE != 0 || end % PAGE_SIZE != 0 {
        return -1;
      }
      var i := 0;
      while i < count
        invariant i <= count
        invariant forall j | 0 <= j < i :: !Overlap(start, end, areas[j])
        modifies {}
      {
        if start < areas[i].end && areas[i].start < end {
          assert areas[i] in Contents();
          return -1;
        }
        i := i + 1;
      }
      var pos := LowerBound(start);
      InsertFits(areas[..count], pos, Area(start, end, flags, name));
      InsertAt(pos, Area(start, end, flags, name));
      code := 0;
    }

    // Shifting the tail up by one and writing the new element.
    method InsertAt(pos: nat, a: Area)
      requires areas.Length == CAPACITY && pos <= count < CAPACITY
      modifies this`count, areas
      ensures count == old(count) + 1
      ensures areas[..count] == old(areas[..count])[..pos] + [a] + old(areas[..count])[pos..]
    {
      ghost var s := areas[..count];
      var i := count;
      while i > pos
        invariant pos <= i <= count == old(count)
        invariant forall j | 0 <= j < i :: areas[j] == s[j]
        invariant forall j | i <= j < count :: areas[j + 1] == s[j]
        modifies areas
      {
        areas[i] := areas[i - 1];
        i := i - 1;
      }
      areas[pos] := a;
      count := count + 1;
      Shifted(s, areas[..count], pos, a);
    }

    method Remove(start: u32) returns (code: int)
      requires Valid()
      modifies this, areas
      ensures Valid()
      ensures (Contents(), Status(code)) == Step(old(Contents()), VmaSpec.Remove(start))
    {
      var pos := LowerBound(start);
      if pos == count || areas[pos].start != start {
        Ascending();
        assert forall a <- Contents() :: a.start != start;
        return -1;
      }
      ghost var pre, a, post := areas[..pos], areas[pos], areas[pos + 1..count];
      assert areas[..count] == pre + [a] + post;
      OrderedDelete(pre, a, post);
      RemoveAt(pos);
      code := 0;
    }

    // Shifting the tail down by one over the removed element.
    method RemoveAt(pos: nat)
      requires areas.Length == CAPACITY && pos < count <= CAPACITY
      modifies this`count, areas
      ensures count == old(count) - 1
      ensures areas[..count] == old(areas[..pos]) + old(areas[pos + 1..count])
    {
      var i := pos;
      while i < count - 1
        invariant pos <= i <= count - 1 && count == old(count)
        invariant forall j | 0 <= j < pos :: areas[j] == old(areas[j])
        invariant forall j | pos <= j < i :: areas[j] == old(areas[j + 1])
        invariant forall j | i < j < count :: areas[j] == old(areas[j])
        modifies areas
      {
        areas[i] := areas[i + 1];
        i := i + 1;
      }
      count := count - 1;
      Closed(old(areas[..count]), areas[..count], pos);
      assert old(areas[..count])[pos + 1..] == old(areas[pos + 1..count]);
      assert old(areas[..count])[..pos] == old(areas[..pos]);
    }
  }

  lemma Closed(s: seq<Area>, s': seq<Area>, pos: nat)
    requires pos < |s| && |s'| == |s| - 1
    requires forall j | 0 <= j < pos :: s'[j] == s[j]
    requires forall j | pos <= j < |s'| :: s'[j] == s[j + 1]
    ensures s' == s[..pos] + s[pos + 1..]
  {
  }

  lemma Shifted(s: seq<Area>, s': seq<Area>, pos: nat, a: Area)
    requires pos <= |s| && |s'| == |s| + 1 && s'[pos] == a
    requires forall j | 0 <= j < pos :: s'[j] == s[j]
    requires forall j | pos <= j < |s| :: s'[j + 1] == s[j]
    ensures s' == s[..pos] + [a] + s[pos..]
  {
    forall j | pos < j < |s'| ensures s'[j] == s[j - 1] {
      assert s'[j - 1 + 1] == s[j - 1];
    }
  }

  // Neighbours that do not overlap the new range leave room for it at `pos`.
  lemma InsertFits(s: seq<Area>, pos: nat, a: Area)
    requires Ordered(s) && pos <= |s| && ValidRange(a.start, a.end)
    requires forall j | 0 <= j < |s| :: !Overlap(a.start, a.end, s[j])
    requires forall j | 0 <= j < pos :: s[j].start < a.start
    requires forall j | pos <= j < |s| :: a.start <= s[j].start
    ensures var s' := s[..pos] + [a] + s[pos..];
            Ordered(s') && Elems(s') == Elems(s) + {a}
    ensures forall b <- Elems(s) :: !Overlap(a.start, a.end, b)
  {
    var pre, post := s[..pos], s[pos..];
    assert s == pre + post;
    forall j | 0 <= j < |s| ensures ValidRange(s[j].start, s[j].end) {
    }
    OrderedInsert(pre, a, post);
  }
}
