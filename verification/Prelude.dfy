// What several components share: the machine's sizes, optional results, and a few facts
// about sequences, sets and powers of two.
module Prelude {

  const PAGE_SIZE: nat := 4096
  const WORD: nat := 0x1_0000_0000      // 32-bit values are below this

  // The kernel heap's window of virtual addresses: its first page, the page after its last
  // one, and their addresses.
  const HEAP_FIRST: nat := 0xE_0000
  const HEAP_LAST: nat := 0xF_0000
  const KHEAP_START: nat := HEAP_FIRST * PAGE_SIZE
  const KHEAP_END: nat := HEAP_LAST * PAGE_SIZE

  datatype Option<+T> = None | Some(value: T)

  ghost function Elems<T>(s: seq<T>): set<T> {
    set x | x in s
  }

  function Without<T>(s: seq<T>, j: nat): seq<T>
    requires j < |s|
  {
    s[..j] + s[j + 1..]
  }

  lemma WithoutAt<T>(s: seq<T>, j: nat)
    requires j < |s|
    ensures |Without(s, j)| == |s| - 1
    ensures forall i | 0 <= i < |s| - 1 :: Without(s, j)[i] == s[if i < j then i else i + 1]
  {
  }

  lemma Subset<T>(a: set<T>, b: set<T>)
    requires a <= b
    ensures |a| <= |b|
  {
    assert b == a + (b - a);
  }

  lemma OneMore<T>(S: set<T>, x: T)
    ensures |S + {x}| == if x in S then |S| else |S| + 1
  {
    assert x in S ==> S + {x} == S;
  }

  function Pow2(k: nat): nat {
    if k == 0 then 1 else 2 * Pow2(k - 1)
  }

  lemma {:induction false} PowPositive(k: nat)
    ensures Pow2(k) > 0
  {
    if k > 0 {
      PowPositive(k - 1);
    }
  }

  lemma {:induction false} Pow2Add(a: nat, b: nat)
    ensures Pow2(a + b) == Pow2(a) * Pow2(b)
  {
    if a > 0 {
      Pow2Add(a - 1, b);
      assert Pow2(a + b) == 2 * Pow2(a - 1 + b);
    }
  }

  lemma {:induction false} Pow2Monotone(a: nat, b: nat)
    requires a <= b
    ensures Pow2(a) <= Pow2(b)
  {
    if a < b {
      Pow2Monotone(a, b - 1);
    }
  }
}
