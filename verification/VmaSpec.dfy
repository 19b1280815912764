// The contract shared by every VMA backend: a finite set of disjoint, page-aligned,
// half-open address ranges, with at most 256 members.
module VmaSpec {
  import opened Prelude

  const CAPACITY: nat := 256

  type u32 = x: int | 0 <= x < WORD

  // `name` is the pointer the source stores without copying the string behind it.
  datatype Area = Area(start: u32, end: u32, flags: u32, name: u32)

  datatype Op =
    | Add(start: u32, end: u32, flags: u32, name: u32)
    | Remove(start: u32)
    | Find(addr: u32)
    | Count

  datatype Out = Status(code: int) | Found(area: Option<Area>) | Total(n: nat)

  predicate ValidRange(start: u32, end: u32) {
    start < end && start % PAGE_SIZE == 0 && end % PAGE_SIZE == 0
  }

  predicate Overlap(start: u32, end: u32, a: Area) {
    start < a.end && a.start < end
  }

  predicate Contains(a: Area, addr: u32) {
    a.start <= addr < a.end
  }

  ghost predicate DisjointSet(S: set<Area>) {
    && (forall a <- S :: ValidRange(a.start, a.end))
    && (forall a <- S, b <- S :: a != b ==> !Overlap(a.start, a.end, b))
  }

  ghost predicate CanAdd(S: set<Area>, start: u32, end: u32) {
    && |S| < 256
    && ValidRange(start, end)
    && forall a <- S :: !Overlap(start, end, a)
  }

  ghost function Starting(S: set<Area>, start: u32): set<Area> {
    set a <- S | a.start == start
  }

  ghost predicate IsHit(S: set<Area>, addr: u32, r: Option<Area>) {
    match r
    case Some(a) => a in S && Contains(a, addr)
    case None => forall a <- S :: !Contains(a, addr)
  }

  ghost function HitOf(S: set<Area>, addr: u32): (r: Option<Area>)
    ensures IsHit(S, addr, r)
  {
    if exists a :: a in S && Contains(a, addr) then
      var a :| a in S && Contains(a, addr);
      Some(a)
    else None
  }

  // One operation of the abstract store: the next state and the caller-visible result.
  ghost function Step(S: set<Area>, op: Op): (set<Area>, Out) {
    match op
    case Add(start, end, flags, name) =>
      if CanAdd(S, start, end) then (S + {Area(start, end, flags, name)}, Status(0)) else (S, Status(-1))
    case Remove(start) =>
      if Starting(S, start) != {} then (S - Starting(S, start), Status(0)) else (S, Status(-1))
    case Find(addr) => (S, Found(HitOf(S, addr)))
    case Count => (S, Total(|S|))
  }

  // The abstract store driven by a whole sequence of operations.
  ghost function Run(S: set<Area>, ops: seq<Op>): (set<Area>, seq<Out>)
    decreases |ops|
  {
    if ops == [] then (S, [])
    else
      var (S1, outs) := Run(S, ops[..|ops| - 1]);
      var (S2, out) := Step(S1, ops[|ops| - 1]);
      (S2, outs + [out])
  }

  // Every operation keeps the ranges valid and pairwise disjoint.
  lemma StepKeepsDisjoint(S: set<Area>, op: Op)
    requires DisjointSet(S)
    ensures DisjointSet(Step(S, op).0)
  {
  }

  // In a disjoint set the range holding an address is unique, so any hit is the hit.
  lemma HitUnique(S: set<Area>, addr: u32, r: Option<Area>)
    requires DisjointSet(S) && IsHit(S, addr, r)
    ensures r == HitOf(S, addr)
  {
    var h := HitOf(S, addr);
    if r.Some? && h.Some? && r != h {
      assert Overlap(r.value.start, r.value.end, h.value);
    }
  }

  // Address-ordered listings of the set: what the array stores and the trees traverse.

  ghost predicate Ordered(s: seq<Area>) {
    && (forall i | 0 <= i < |s| :: ValidRange(s[i].start, s[i].end))
    && (forall i, j | 0 <= i < j < |s| :: s[i].end <= s[j].start)
  }

  lemma OrderedIsDisjoint(s: seq<Area>)
    requires Ordered(s)
    ensures DisjointSet(Elems(s))
  {
  }

  lemma {:induction false} OrderedCount(s: seq<Area>)
    requires Ordered(s)
    ensures |Elems(s)| == |s|
  {
    if s != [] {
      var t := s[..|s| - 1];
      assert s == t + [s[|s| - 1]];
      OrderedSplit(t, [s[|s| - 1]]);
      OrderedCount(t);
      assert Elems(s) == Elems(t) + {s[|s| - 1]};
      assert s[|s| - 1] !in Elems(t);
    }
  }

  // A set of ranges has only one address-ordered listing.
  lemma {:induction false} OrderedUnique(s: seq<Area>, t: seq<Area>)
    requires Ordered(s) && Ordered(t) && Elems(s) == Elems(t)
    ensures s == t
    decreases |s|
  {
    OrderedCount(s);
    OrderedCount(t);
    if s != [] {
      var n := |s| - 1;
      LastIsGreatest(s, t);
      LastIsGreatest(t, s);
      assert s[n] == t[n];
      assert Elems(s[..n]) == Elems(s) - {s[n]};
      assert Elems(t[..n]) == Elems(t) - {t[n]};
      OrderedUnique(s[..n], t[..n]);
      assert s == s[..n] + [s[n]] && t == t[..n] + [t[n]];
    }
  }

  lemma LastIsGreatest(s: seq<Area>, t: seq<Area>)
    requires Ordered(s) && Ordered(t) && Elems(s) == Elems(t) && |s| == |t| > 0
    ensures s[|s| - 1].start <= t[|t| - 1].start
    ensures s[|s| - 1].start == t[|t| - 1].start ==> s[|s| - 1] == t[|t| - 1]
  {
    assert s[|s| - 1] in Elems(t);
    var k :| 0 <= k < |t| && t[k] == s[|s| - 1];
  }

  // Inserting between the ranges that end before `a` and those that start after it.
  lemma OrderedInsert(pre: seq<Area>, a: Area, post: seq<Area>)
    requires Ordered(pre + post) && ValidRange(a.start, a.end)
    requires forall i | 0 <= i < |pre| :: pre[i].end <= a.start
    requires forall i | 0 <= i < |post| :: a.end <= post[i].start
    ensures Ordered(pre + [a] + post)
    ensures Elems(pre + [a] + post) == Elems(pre + post) + {a}
    ensures forall b <- Elems(pre + post) :: !Overlap(a.start, a.end, b)
  {
    OrderedSplit(pre, post);
    OrderedJoin(pre, [a]);
    OrderedJoin(pre + [a], post);
    assert Elems(pre + [a] + post) == Elems(pre + post) + {a};
  }

  lemma OrderedSplit(s: seq<Area>, t: seq<Area>)
    requires Ordered(s + t)
    ensures Ordered(s) && Ordered(t)
    ensures forall i, j | 0 <= i < |s| && 0 <= j < |t| :: s[i].end <= t[j].start
  {
    var u := s + t;
    assert forall i | 0 <= i < |s| :: u[i] == s[i];
    assert forall j | 0 <= j < |t| :: u[|s| + j] == t[j];
  }

  lemma OrderedJoin(s: seq<Area>, t: seq<Area>)
    requires Ordered(s) && Ordered(t)
    requires forall i, j | 0 <= i < |s| && 0 <= j < |t| :: s[i].end <= t[j].start
    ensures Ordered(s + t)
  {
  }

  lemma OrderedDelete(pre: seq<Area>, a: Area, post: seq<Area>)
    requires Ordered(pre + [a] + post)
    ensures Ordered(pre + post)
    ensures Elems(pre + post) == Elems(pre + [a] + post) - {a}
    ensures Starting(Elems(pre + [a] + post), a.start) == {a}
  {
    Around(pre, a, post);
    OrderedJoin(pre, post);
    var s, t := pre + post, pre + [a] + post;
    assert forall b :: b in t <==> b in s || b == a;
    forall b | b in s ensures b.start != a.start {
      assert b in pre || b in post;
    }
  }

  lemma Around(pre: seq<Area>, a: Area, post: seq<Area>)
    requires Ordered(pre + [a] + post)
    ensures Ordered(pre) && Ordered(post) && ValidRange(a.start, a.end)
    ensures forall i | 0 <= i < |pre| :: pre[i].end <= a.start && pre[i].start < a.start
    ensures forall j | 0 <= j < |post| :: a.end <= post[j].start && a.start < post[j].start
    ensures forall i, j | 0 <= i < |pre| && 0 <= j < |post| :: pre[i].end <= post[j].start
  {
    OrderedSplit(pre + [a], post);
    OrderedSplit(pre, [a]);
    assert [a][0] == a && (pre + [a])[|pre|] == a;
    forall i, j | 0 <= i < |pre| && 0 <= j < |post| ensures pre[i].end <= post[j].start {
      assert (pre + [a])[i] == pre[i];
    }
  }
}
