// Power-of-two blocks of pages. Block (q, k) holds the pages whose k-fold halving is q;
// its buddy is the other half of its parent (q / 2, k + 1).
module BuddyBlocks {
  import opened Prelude
  import opened Arithmetic

  const MAX_ORDER: nat := 10

  function Up(p: nat, k: nat): nat {
    if k == 0 then p else Up(p, k - 1) / 2
  }

  // First page of block (q, k).
  function Head(q: nat, k: nat): nat
    decreases k
  {
    if k == 0 then q else Head(2 * q, k - 1)
  }

  function Buddy(q: nat): nat {
    if q % 2 == 0 then q + 1 else q - 1
  }

  lemma {:induction false} HeadStep(q: nat, k: nat)
    ensures Head(q + 1, k) == Head(q, k) + Pow2(k)
    decreases k
  {
    if k > 0 {
      HeadStep(2 * q, k - 1);
      HeadStep(2 * q + 1, k - 1);
    }
  }

  lemma {:induction false} HeadIsMultiple(q: nat, k: nat)
    ensures Head(q, k) == q * Pow2(k)
    decreases k
  {
    if k > 0 {
      HeadIsMultiple(2 * q, k - 1);
    }
  }

  // Block (q, k) is the range of Pow2(k) pages that starts at its head.
  lemma {:induction false} BlockIsRange(p: nat, k: nat)
    ensures Head(Up(p, k), k) <= p < Head(Up(p, k), k) + Pow2(k)
  {
    if k > 0 {
      BlockIsRange(p, k - 1);
      HeadStep(2 * Up(p, k), k - 1);
    }
  }

  lemma {:induction false} UpOfRange(q: nat, k: nat, p: nat)
    requires Head(q, k) <= p < Head(q, k) + Pow2(k)
    ensures Up(p, k) == q
    decreases k
  {
    if k > 0 {
      HeadStep(2 * q, k - 1);
      UpOfRange(if p < Head(2 * q + 1, k - 1) then 2 * q else 2 * q + 1, k - 1, p);
    }
  }

  lemma UpOfHead(q: nat, k: nat)
    ensures Up(Head(q, k), k) == q
  {
    PowPositive(k);
    UpOfRange(q, k, Head(q, k));
  }

  // Pages that share a block share every larger block.
  lemma {:induction false} UpNested(p: nat, r: nat, j: nat, k: nat)
    requires Up(p, j) == Up(r, j) && j <= k
    ensures Up(p, k) == Up(r, k)
    decreases k
  {
    if j < k {
      UpNested(p, r, j, k - 1);
    }
  }

  predicate Aligned(i: nat, k: nat) {
    i == Head(Up(i, k), k)
  }

  // The source tests alignment with a mask; that is divisibility by the block size.
  lemma AlignedIsMultiple(i: nat, k: nat)
    ensures Pow2(k) > 0 && (Aligned(i, k) <==> i % Pow2(k) == 0)
  {
    PowPositive(k);
    BlockIsRange(i, k);
    HeadIsMultiple(Up(i, k), k);
    RemainderOf(i, Up(i, k), i - Head(Up(i, k), k), Pow2(k));
  }

  // ---- maximal free blocks ----

  ghost predicate Full(F: set<nat>, q: nat, k: nat) {
    forall p: nat | Up(p, k) == q :: p in F
  }

  // A block of free pages that is not half of a larger block of free pages.
  ghost predicate Maximal(F: set<nat>, q: nat, k: nat) {
    k <= MAX_ORDER && Full(F, q, k) && (k < MAX_ORDER ==> !Full(F, q / 2, k + 1))
  }

  ghost predicate FreeBlock(F: set<nat>, i: nat, k: nat) {
    Aligned(i, k) && Maximal(F, Up(i, k), k)
  }

  lemma {:induction false} FullShrinks(F: set<nat>, p: nat, j: nat, k: nat)
    requires j <= k && Full(F, Up(p, k), k)
    ensures Full(F, Up(p, j), j)
  {
    forall r: nat | Up(r, j) == Up(p, j) ensures r in F {
      UpNested(r, p, j, k);
    }
  }

  lemma {:induction false} MaximalIsLargest(F: set<nat>, p: nat, j: nat, k: nat)
    requires Maximal(F, Up(p, j), j) && Full(F, Up(p, k), k) && k <= MAX_ORDER
    ensures k <= j
  {
    if j < k {
      assert Up(p, j + 1) == Up(p, j) / 2;
      FullShrinks(F, p, j + 1, k);
    }
  }

  // No page lies in two maximal blocks.
  lemma MaximalUnique(F: set<nat>, p: nat, j: nat, k: nat)
    requires Maximal(F, Up(p, j), j) && Maximal(F, Up(p, k), k)
    ensures j == k
  {
    MaximalIsLargest(F, p, j, k);
    MaximalIsLargest(F, p, k, j);
  }

  // Every free page lies in one.
  lemma {:induction false} MaximalExists(F: set<nat>, p: nat, j: nat) returns (k: nat)
    requires j <= MAX_ORDER && Full(F, Up(p, j), j)
    ensures j <= k && Maximal(F, Up(p, k), k)
    decreases MAX_ORDER - j
  {
    if j == MAX_ORDER || !Full(F, Up(p, j + 1), j + 1) {
      k := j;
    } else {
      k := MaximalExists(F, p, j + 1);
    }
  }

  lemma PageInBlock(F: set<nat>, p: nat) returns (k: nat)
    requires p in F
    ensures Maximal(F, Up(p, k), k) && FreeBlock(F, Head(Up(p, k), k), k)
  {
    k := MaximalExists(F, p, 0);
    UpOfHead(Up(p, k), k);
  }

  // Some maximal block has order k or more exactly when some block of order k is full.
  lemma RoomExact(F: set<nat>, order: nat)
    requires order <= MAX_ORDER
    ensures (forall k: nat, i: nat | order <= k :: !FreeBlock(F, i, k)) <==> forall q: nat :: !Full(F, q, order)
  {
    if q: nat :| Full(F, q, order) {
      UpOfHead(q, order);
      var p := Head(q, order);
      var k := MaximalExists(F, p, order);
      UpOfHead(Up(p, k), k);
      assert FreeBlock(F, Head(Up(p, k), k), k);
    }
    if k: nat, i: nat :| order <= k && FreeBlock(F, i, k) {
      FullShrinks(F, i, order, k);
    }
  }

  // The block (r, j) lies strictly inside the block (q, k).
  ghost predicate Inside(r: nat, j: nat, q: nat, k: nat) {
    j < k && Up(Head(r, j), k) == q
  }

  lemma InsidePage(p: nat, j: nat, q: nat, k: nat)
    requires j < k
    ensures Inside(Up(p, j), j, q, k) <==> Up(p, k) == q
  {
    UpOfHead(Up(p, j), j);
    UpNested(Head(Up(p, j), j), p, j, k);
  }

  // The n pages from page a on.
  function Range(a: nat, n: nat): (s: set<nat>)
    ensures forall x: nat :: x in s <==> a <= x < a + n
    ensures |s| == n
  {
    if n == 0 then {} else Range(a, n - 1) + {a + n - 1}
  }

  function Pages(n: nat): (s: set<nat>)
    ensures forall p: nat :: p in s <==> p < n
    ensures |s| == n
  {
    Range(0, n)
  }

  // The pages of block (q, k).
  function Block(q: nat, k: nat): (s: set<nat>)
    ensures |s| == Pow2(k)
  {
    Range(Head(q, k), Pow2(k))
  }

  lemma InBlock(q: nat, k: nat, x: nat)
    ensures x in Block(q, k) <==> Up(x, k) == q
  {
    BlockIsRange(x, k);
    if x in Block(q, k) {
      UpOfRange(q, k, x);
    }
  }

  // The block of order o around p has no page in F.
  ghost predicate Outside(F: set<nat>, p: nat, o: nat) {
    forall x: nat | Up(x, o) == Up(p, o) :: x !in F
  }

  // G is F with the block of order o around p.
  ghost predicate Joins(F: set<nat>, p: nat, o: nat, G: set<nat>) {
    Outside(F, p, o) && forall x: nat :: x in G <==> x in F || Up(x, o) == Up(p, o)
  }

  // Two blocks share a page exactly when the smaller lies in the larger.
  ghost predicate Meets(r: nat, j: nat, p: nat, o: nat) {
    if j >= o then Up(p, j) == r else Up(Head(r, j), o) == Up(p, o)
  }

  lemma MeetsWhole(r: nat, j: nat, p: nat, o: nat, x: nat)
    requires Up(x, j) == r && Up(x, o) == Up(p, o)
    ensures Meets(r, j, p, o)
  {
    UpOfHead(r, j);
    if j >= o {
      UpNested(x, p, o, j);
    } else {
      UpNested(x, Head(r, j), j, o);
    }
  }

  lemma FullApart(F: set<nat>, p: nat, o: nat, G: set<nat>, r: nat, j: nat)
    requires Joins(F, p, o, G) && !Meets(r, j, p, o)
    ensures Full(G, r, j) <==> Full(F, r, j)
  {
    forall x: nat | Up(x, j) == r ensures x in G <==> x in F {
      if Up(x, o) == Up(p, o) {
        MeetsWhole(r, j, p, o, x);
      }
    }
  }

  lemma MeetsNotFull(F: set<nat>, p: nat, o: nat, r: nat, j: nat)
    requires Outside(F, p, o) && Meets(r, j, p, o)
    ensures !Full(F, r, j)
  {
    UpOfHead(r, j);
    var x := if j >= o then p else Head(r, j);
    assert x !in F;
  }

  // A block within the new one is no maximal block.
  lemma PartNotMaximal(F: set<nat>, p: nat, o: nat, G: set<nat>, r: nat, j: nat)
    requires Joins(F, p, o, G) && o <= MAX_ORDER && j < o && Meets(r, j, p, o)
    ensures !Maximal(G, r, j)
  {
    var h := Head(r, j);
    UpOfHead(r, j);
    assert Full(G, Up(h, o), o);
    FullShrinks(G, h, j + 1, o);
    assert Up(h, j + 1) == r / 2;
  }

  // Adding a block of order o, which completes the block (q, k): that block absorbs the
  // maximal blocks inside it and every other maximal block stays as it is.
  lemma AddBlock(F: set<nat>, p: nat, o: nat, G: set<nat>, k: nat, r: nat, j: nat)
    requires Joins(F, p, o, G) && o <= k && Maximal(G, Up(p, k), k)
    ensures Maximal(G, r, j) <==>
            (r == Up(p, k) && j == k) || (Maximal(F, r, j) && !Inside(r, j, Up(p, k), k))
  {
    if Meets(r, j, p, o) {
      MeetsNotFull(F, p, o, r, j);
      if j < o {
        PartNotMaximal(F, p, o, G, r, j);
      } else if Maximal(G, r, j) {
        MaximalUnique(G, p, j, k);
      }
    } else {
      FullApart(F, p, o, G, r, j);
      if Maximal(G, r, j) {
        StaysMaximal(F, G, p, k, r, j);
      }
      if Maximal(F, r, j) && j < MAX_ORDER && Full(G, r / 2, j + 1) {
        Absorbed(F, p, o, G, k, r, j);
      }
    }
  }

  lemma StaysMaximal(F: set<nat>, G: set<nat>, p: nat, k: nat, r: nat, j: nat)
    requires F <= G && Maximal(G, Up(p, k), k) && Maximal(G, r, j) && Full(F, r, j)
    ensures Maximal(F, r, j) && !Inside(r, j, Up(p, k), k)
  {
    UpOfHead(r, j);
    if Up(Head(r, j), k) == Up(p, k) {
      MaximalUnique(G, Head(r, j), j, k);
    }
    if Full(F, r / 2, j + 1) {
      assert Full(G, r / 2, j + 1);
    }
  }

  // A maximal block whose parent the new pages complete lies inside the block they complete.
  lemma Absorbed(F: set<nat>, p: nat, o: nat, G: set<nat>, k: nat, r: nat, j: nat)
    requires Joins(F, p, o, G) && Maximal(G, Up(p, k), k) && !Meets(r, j, p, o)
    requires Maximal(F, r, j) && j < MAX_ORDER && Full(G, r / 2, j + 1)
    ensures Inside(r, j, Up(p, k), k)
  {
    if !Meets(r / 2, j + 1, p, o) {
      FullApart(F, p, o, G, r / 2, j + 1);
    }
    ParentMeets(r, j, p, o);
    UpOfHead(r, j);
    SameParent(G, Head(r, j), p, j, k);
  }

  // The parent of a block apart from the new one meets it exactly when the new one lies in
  // the block's buddy.
  lemma ParentMeets(r: nat, j: nat, p: nat, o: nat)
    requires !Meets(r, j, p, o)
    ensures Meets(r / 2, j + 1, p, o) <==> o <= j && r == Buddy(Up(p, j))
    ensures Meets(r / 2, j + 1, p, o) ==> Up(p, j + 1) == r / 2
  {
    UpOfHead(r, j);
    UpOfHead(r / 2, j + 1);
    if j < o {
      UpNested(Head(r, j), Head(r / 2, j + 1), j + 1, o);
    }
  }

  lemma SameParent(F: set<nat>, h: nat, p: nat, j: nat, k: nat)
    requires Up(h, j + 1) == Up(p, j + 1) && j < MAX_ORDER
    requires Maximal(F, Up(p, k), k) && Full(F, Up(p, j + 1), j + 1)
    ensures j < k && Up(h, k) == Up(p, k)
  {
    MaximalIsLargest(F, p, k, j + 1);
    UpNested(h, p, j + 1, k);
  }

  // Taking a block of order o out of the maximal block (q, k) leaves, inside it, exactly the
  // buddies of the blocks that hold it.
  lemma TakeBlock(F: set<nat>, p: nat, o: nat, G: set<nat>, k: nat, r: nat, j: nat)
    requires Joins(F, p, o, G) && o <= k && Maximal(G, Up(p, k), k)
    ensures Maximal(F, r, j) <==>
            (Maximal(G, r, j) && !(r == Up(p, k) && j == k)) || (o <= j < k && r == Buddy(Up(p, j)))
  {
    AddBlock(F, p, o, G, k, r, j);
    if Meets(r, j, p, o) {
      MeetsNotFull(F, p, o, r, j);
    } else if j < k {
      BuddyInside(r, j, p, o, k);
      if Inside(r, j, Up(p, k), k) {
        LeftInside(F, p, o, G, k, r, j);
      }
    }
  }

  // Inside the block taken from, a block apart from the pages taken is maximal exactly when
  // its buddy holds them.
  lemma LeftInside(F: set<nat>, p: nat, o: nat, G: set<nat>, k: nat, r: nat, j: nat)
    requires Joins(F, p, o, G) && Maximal(G, Up(p, k), k) && !Meets(r, j, p, o)
    requires Inside(r, j, Up(p, k), k)
    ensures Maximal(F, r, j) <==> o <= j && r == Buddy(Up(p, j))
  {
    FullInside(G, r, j, Up(p, k), k);
    FullApart(F, p, o, G, r, j);
    ParentMeets(r, j, p, o);
    if Meets(r / 2, j + 1, p, o) {
      MeetsNotFull(F, p, o, r / 2, j + 1);
    } else {
      FullApart(F, p, o, G, r / 2, j + 1);
    }
  }

  // A block inside a full one is full, and so is its parent.
  lemma FullInside(G: set<nat>, r: nat, j: nat, q: nat, k: nat)
    requires Full(G, q, k) && Inside(r, j, q, k)
    ensures Full(G, r, j) && Full(G, r / 2, j + 1)
  {
    UpOfHead(r, j);
    FullShrinks(G, Head(r, j), j, k);
    FullShrinks(G, Head(r, j), j + 1, k);
    assert Up(Head(r, j), j + 1) == r / 2;
  }

  lemma BuddyInside(r: nat, j: nat, p: nat, o: nat, k: nat)
    requires j < k
    ensures o <= j && r == Buddy(Up(p, j)) ==> Inside(r, j, Up(p, k), k)
  {
    UpOfHead(r, j);
    if r == Buddy(Up(p, j)) {
      UpNested(Head(r, j), p, j + 1, k);
    }
  }

  // No two buddies below the largest order are both maximal.
  lemma BuddiesNotBothFree(F: set<nat>, q: nat, k: nat)
    requires Maximal(F, q, k) && k < MAX_ORDER
    ensures !Full(F, Buddy(q), k)
  {
    assert forall p: nat | Up(p, k + 1) == q / 2 :: Up(p, k) == q || Up(p, k) == Buddy(q);
  }

  // ---- index arithmetic of the source ----

  // Bitwise exclusive or, and `a & ~b`, by binary digits.
  function BitXor(a: nat, b: nat): nat {
    if a == 0 && b == 0 then 0 else 2 * BitXor(a / 2, b / 2) + (a % 2 + b % 2) % 2
  }

  function BitAndNot(a: nat, b: nat): nat {
    if a == 0 then 0 else 2 * BitAndNot(a / 2, b / 2) + if b % 2 == 0 then a % 2 else 0
  }

  lemma {:induction false} ZeroMask(a: nat)
    ensures BitXor(a, 0) == a && BitAndNot(a, 0) == a
  {
    if a > 0 {
      ZeroMask(a / 2);
    }
  }

  lemma {:induction false} UpShift(i: nat, k: nat)
    ensures Up(i, k + 1) == Up(i / 2, k)
  {
    if k > 0 {
      UpShift(i, k - 1);
    }
  }

  lemma DoubledMask(i: nat, b: nat)
    requires b > 0
    ensures BitXor(i, 2 * b) == 2 * BitXor(i / 2, b) + i % 2
    ensures BitAndNot(i, 2 * b) == 2 * BitAndNot(i / 2, b) + i % 2
  {
    var c := 2 * b;
    assert c / 2 == b && c % 2 == 0;
    assert BitXor(i, c) == 2 * BitXor(i / 2, c / 2) + (i % 2 + c % 2) % 2;
  }

  // Masking with a single bit adds or subtracts it, by the parity of the k-fold halving.
  lemma {:induction false} SingleBitXor(i: nat, k: nat)
    ensures BitXor(i, Pow2(k)) == if Up(i, k) % 2 == 0 then i + Pow2(k) else i - Pow2(k)
    decreases k
  {
    if k == 0 {
      ZeroMask(i / 2);
    } else {
      PowPositive(k - 1);
      SingleBitXor(i / 2, k - 1);
      UpShift(i, k - 1);
      DoubledMask(i, Pow2(k - 1));
      assert i == 2 * (i / 2) + i % 2;
    }
  }

  lemma {:induction false} SingleBitAndNot(i: nat, k: nat)
    ensures BitAndNot(i, Pow2(k)) == if Up(i, k) % 2 == 0 then i else i - Pow2(k)
    decreases k
  {
    if k == 0 {
      ZeroMask(i / 2);
    } else {
      PowPositive(k - 1);
      SingleBitAndNot(i / 2, k - 1);
      UpShift(i, k - 1);
      DoubledMask(i, Pow2(k - 1));
      assert i == 2 * (i / 2) + i % 2;
    }
  }

  lemma BuddyAndParent(i: nat, k: nat)
    requires Aligned(i, k)
    ensures var b := BitXor(i, Pow2(k)); b == Head(Buddy(Up(i, k)), k) && Up(b, k) == Buddy(Up(i, k))
    ensures var p := BitAndNot(i, Pow2(k)); p == Head(Up(i, k) / 2, k + 1) && Up(p, k + 1) == Up(i, k) / 2
  {
    var q := Up(i, k);
    SingleBitXor(i, k);
    SingleBitAndNot(i, k);
    HeadStep(q, k);
    if q % 2 == 1 {
      HeadStep(q - 1, k);
    }
    UpOfHead(Buddy(q), k);
    UpOfHead(q / 2, k + 1);
  }

  // Every smaller block at the same head is aligned too, and is a left half.
  lemma {:induction false} AlignedBelow(i: nat, k: nat, j: nat)
    requires Aligned(i, k) && j <= k
    ensures Aligned(i, j) && (j < k ==> Up(i, j) % 2 == 0)
    decreases k - j
  {
    if j < k {
      AlignedBelow(i, k, j + 1);
      UpOfHead(2 * Up(i, j + 1), j);
    }
  }
}
