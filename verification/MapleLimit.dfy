// A node is declared with nine pivots, but a leaf uses one for each of its ten slots. Here
// is what the declared layout does with the tenth, and when a leaf comes to that.
module MapleLimit {
  import opened Prelude
  import opened VmaSpec
  import opened MapleNodes
  import opened MapleSplit
  import opened MapleCount
  import opened MapleCascade

  // ---- the first words of a node as declared ----

  // Nine pivots, then a word with the entry count in its lowest byte and the leaf flag in
  // the next one.
  const HEAD_WORDS: nat := MAX_PIVOTS + 1

  function CountByte(w: nat): nat {
    w % 256
  }

  function LeafByte(w: nat): nat {
    w / 256 % 256
  }

  // The count and the flag are read back from a word made of them and of two more bytes.
  lemma CountWord(count: nat, leaf: nat, rest: nat)
    requires count < 256 && leaf < 256
    ensures CountByte(count + 256 * leaf + 65536 * rest) == count
    ensures LeafByte(count + 256 * leaf + 65536 * rest) == leaf
  {
    LowByte(leaf + 256 * rest, count);
    LowByte(rest, leaf);
  }

  // The words of a leaf with at most nine entries.
  ghost predicate Represents(w: seq<nat>, n: Node) {
    && |w| == 10 && n.isLeaf && |n.pivots| <= MAX_PIVOTS
    && w[..|n.pivots|] == n.pivots && CountByte(w[MAX_PIVOTS]) == |n.pivots| && LeafByte(w[MAX_PIVOTS]) == 1
  }

  function Increment(w: nat): nat {
    w - w % 256 + (w % 256 + 1) % 256
  }

  lemma IncrementBytes(w: nat)
    ensures CountByte(Increment(w)) == (CountByte(w) + 1) % 256 && LeafByte(Increment(w)) == LeafByte(w)
  {
    var q, c := w / 256, (w % 256 + 1) % 256;
    assert Increment(w) == 256 * q + c;
    LowByte(q, c);
  }

  lemma LowByte(q: nat, c: nat)
    requires c < 256
    ensures (256 * q + c) % 256 == c && (256 * q + c) / 256 == q
  {
  }

  // Page-aligned values have a zero lowest byte.
  lemma AlignedCount(w: nat)
    requires w % PAGE_SIZE == 0
    ensures CountByte(w) == 0
  {
    var q := w / PAGE_SIZE;
    assert w == 256 * (16 * q);
  }

  // The pivots with a new one at pos.
  function WithPivot(before: seq<nat>, n: nat, pos: nat, start: nat): (s: seq<nat>)
    requires pos <= n <= |before|
    ensures |s| == n + 1
  {
    before[..pos] + [start] + before[pos..n]
  }

  // The words after an insertion. With nine entries the last pivot lands in the word of the
  // count, which is then incremented.
  ghost predicate Written(before: seq<nat>, after: seq<nat>, pos: nat, start: nat) {
    && |before| == |after| == HEAD_WORDS && pos <= CountByte(before[MAX_PIVOTS]) <= MAX_PIVOTS
    && var n := CountByte(before[MAX_PIVOTS]);
       var pivots := WithPivot(before, n, pos, start);
       if n < MAX_PIVOTS then
         after[..n + 1] == pivots && after[MAX_PIVOTS] == Increment(before[MAX_PIVOTS])
       else
         after[..MAX_PIVOTS] == pivots[..MAX_PIVOTS] && after[MAX_PIVOTS] == Increment(pivots[MAX_PIVOTS])
  }

  // Inserting a pivot: the word past the pivots is the one a tenth pivot is written to.
  method InsertWord(w: array<nat>, pos: nat, start: nat)
    requires w.Length == HEAD_WORDS && pos <= CountByte(w[MAX_PIVOTS]) <= MAX_PIVOTS
    modifies w
    ensures Written(old(w[..]), w[..], pos, start)
  {
    ghost var before := w[..];
    var n := CountByte(w[MAX_PIVOTS]);
    var i := n;
    while i > pos
      invariant pos <= i <= n
      invariant forall j | 0 <= j < i :: w[j] == before[j]
      invariant forall j, k | i <= j < n && k == j + 1 :: w[k] == before[j]
      invariant n < MAX_PIVOTS ==> w[MAX_PIVOTS] == before[MAX_PIVOTS]
    {
      w[i] := w[i - 1];
      i := i - 1;
    }
    w[pos] := start;
    Shifted(before, w[..], pos, n, start);
    ghost var shifted := w[..];
    w[MAX_PIVOTS] := Increment(w[MAX_PIVOTS]);
    assert w[..MAX_PIVOTS] == shifted[..MAX_PIVOTS];
  }

  lemma Shifted(before: seq<nat>, after: seq<nat>, pos: nat, n: nat, start: nat)
    requires |before| == |after| && pos <= n < |after| && after[pos] == start
    requires forall j | 0 <= j < pos :: after[j] == before[j]
    requires forall j, k | pos <= j < n && k == j + 1 :: after[k] == before[j]
    ensures after[..n + 1] == WithPivot(before, n, pos, start)
  {
    var want := WithPivot(before, n, pos, start);
    forall k | 0 <= k < n + 1 ensures after[k] == want[k] {
      if k > pos {
        assert after[k] == before[k - 1];
      }
    }
  }

  // With page-aligned pivots the words go on representing the leaf exactly while it has at
  // most eight entries before; after the tenth insertion they say it has one, and the leaf
  // flag is a byte of an address.
  method InsertIntoLeaf(w: array<nat>, ghost n: Node, pos: nat, ghost a: Area, start: nat)
    requires w.Length == HEAD_WORDS && Represents(w[..], n) && pos <= |n.pivots| == |n.slots| && start == a.start
    requires start % PAGE_SIZE == 0 && forall p <- n.pivots :: p % PAGE_SIZE == 0
    modifies w
    ensures Written(old(w[..]), w[..], pos, start)
    ensures Represents(w[..], LeafInsert(n, pos, a)) <==> |n.pivots| < MAX_PIVOTS
    ensures CountByte(w[MAX_PIVOTS]) == if |n.pivots| < MAX_PIVOTS then |n.pivots| + 1 else 1
    ensures |n.pivots| == MAX_PIVOTS ==>
      LeafByte(w[MAX_PIVOTS]) == LeafByte(if pos == MAX_PIVOTS then start else n.pivots[MAX_PIVOTS - 1])
  {
    ghost var before := w[..];
    InsertWord(w, pos, start);
    if |n.pivots| < MAX_PIVOTS {
      WordsFit(before, w[..], n, pos, a);
    } else {
      WordsOverrun(before, w[..], n, pos, a);
    }
  }

  lemma WordsFit(before: seq<nat>, after: seq<nat>, n: Node, pos: nat, a: Area)
    requires Represents(before, n) && pos <= |n.pivots| == |n.slots| < MAX_PIVOTS && |after| == HEAD_WORDS
    requires Written(before, after, pos, a.start)
    ensures Represents(after, LeafInsert(n, pos, a)) && CountByte(after[MAX_PIVOTS]) == |n.pivots| + 1
  {
    IncrementBytes(before[MAX_PIVOTS]);
    assert before[..pos] == before[..|n.pivots|][..pos];
    assert before[pos..|n.pivots|] == before[..|n.pivots|][pos..];
  }

  lemma WordsOverrun(before: seq<nat>, after: seq<nat>, n: Node, pos: nat, a: Area)
    requires Represents(before, n) && pos <= |n.pivots| == |n.slots| == MAX_PIVOTS && |after| == HEAD_WORDS
    requires a.start % PAGE_SIZE == 0 && forall p <- n.pivots :: p % PAGE_SIZE == 0
    requires Written(before, after, pos, a.start)
    ensures !Represents(after, LeafInsert(n, pos, a)) && CountByte(after[MAX_PIVOTS]) == 1
    ensures LeafByte(after[MAX_PIVOTS]) == LeafByte(if pos == MAX_PIVOTS then a.start else n.pivots[MAX_PIVOTS - 1])
  {
    assert before[..MAX_PIVOTS][MAX_PIVOTS - 1] == n.pivots[MAX_PIVOTS - 1];
    var v := if pos == MAX_PIVOTS then a.start else n.pivots[MAX_PIVOTS - 1];
    assert n.pivots[MAX_PIVOTS - 1] in n.pivots;
    AlignedCount(v);
    IncrementBytes(v);
  }

  // ---- when a leaf comes to its tenth entry ----

  // The leaf that an addition at `start` goes into already has nine entries. (A full leaf is
  // split first, so its halves have room.)
  ghost predicate Overruns(s: Tree, start: nat)
    requires Sized(s)
  {
    exists x: nat :: x < s.used && s.m[x].isLeaf && s.g[x].lo <= start < s.g[x].hi && |s.m[x].slots| == MAX_PIVOTS
  }

  // With fewer than ten areas the tree is one leaf that holds them all.
  lemma OneLeaf(s: Tree, S: set<Area>, n: nat)
    requires Resting(s, S, n) && n <= MAX_PIVOTS
    ensures s.used == 1 && s.root == 0 && s.m[0].isLeaf && |s.m[0].slots| == n
    ensures s.g[0].lo == 0 && s.g[0].hi == TOP
  {
    var N, E, o := NodeCounts(s), EntryCounts(s), OrphanCounts(s, s.used);
    ProfileOf(s, n, s.used);
    FewAreFlat(N, E, o, n);
    AllLevels(s);
    assert LocalOk(s, 0);
    assert EntriesOn(s, 0) == [Entries(s.m[0])];
    SumAppend([], Entries(s.m[0]));
    assert [] + [Entries(s.m[0])] == [Entries(s.m[0])];
  }

  lemma FewAreFlat(N: seq<nat>, E: seq<nat>, o: seq<nat>, n: nat)
    requires Profile(N, E, o, n) && n <= MAX_PIVOTS && forall i | 0 <= i < |o| :: o[i] == 0
    ensures |N| == 1 && N[0] == 1
  {
    var h := |N| - 1;
    if h > 0 {
      Rung(N, E, o, n, h - 1);
      WidestBelow(N, E, o, n, h - 1);
      Rung(N, E, o, n, 0);
    }
  }

  // In every store with fewer than ten areas: the next addition writes past the declared
  // pivots exactly when there are nine.
  lemma OverrunsAtNine(s: Tree, S: set<Area>, n: nat, start: nat)
    requires Resting(s, S, n) && n <= MAX_PIVOTS && start < TOP
    ensures Overruns(s, start) <==> n == MAX_PIVOTS
  {
    OneLeaf(s, S, n);
    if n == MAX_PIVOTS {
      assert s.m[0].isLeaf && s.g[0].lo <= start < s.g[0].hi && |s.m[0].slots| == MAX_PIVOTS;
    }
  }

  // Whatever the tree, an insertion stays inside the array exactly when its leaf has at most
  // eight entries; the halves of a split leaf always have.
  lemma PivotsAfter(n: Node, pos: nat, a: Area)
    requires n.isLeaf && pos <= |n.pivots| == |n.slots|
    ensures |LeafInsert(n, pos, a).pivots| <= MAX_PIVOTS <==> |n.slots| < MAX_PIVOTS
    ensures FullNode(n) ==> |LeftHalf(n).slots| < MAX_PIVOTS && |RightHalf(n).slots| < MAX_PIVOTS
  {
  }
}
