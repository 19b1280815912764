// The tree and the array, driven by the same operations, answer alike at every step and list
// the same ranges in the same order; the maple tree joins them on runs that only add ranges
// disjoint from one another.
module VmaEquivalence {
  import opened Prelude
  import opened VmaSpec
  import RbTree
  import SortedArray
  import Maple
  import MapleCascade

  method ExecTree(s: RbTree.Store, op: Op) returns (out: Out)
    requires s.Valid()
    modifies s, s.mem, s.mem.pool
    ensures s.Valid() && (s.Contents(), out) == Step(old(s.Contents()), op)
  {
    match op
    case Add(start, end, flags, name) =>
      var code := s.Add(start, end, flags, name);
      out := Status(code);
    case Remove(start) =>
      var code := s.Remove(start);
      out := Status(code);
    case Find(addr) =>
      var r, _, _, _ := s.Find(addr);
      OrderedIsDisjoint(s.Listing());
      HitUnique(s.Contents(), addr, r);
      out := Found(r);
    case Count =>
      var n := s.Count();
      out := Total(n);
  }

  method ExecArray(s: SortedArray.Store, op: Op) returns (out: Out)
    requires s.Valid()
    modifies s, s.areas
    ensures s.Valid() && (s.Contents(), out) == Step(old(s.Contents()), op)
  {
    match op
    case Add(start, end, flags, name) =>
      var code := s.Add(start, end, flags, name);
      out := Status(code);
    case Remove(start) =>
      var code := s.Remove(start);
      out := Status(code);
    case Find(addr) =>
      var r := s.Find(addr);
      OrderedIsDisjoint(s.Listing());
      HitUnique(s.Contents(), addr, r);
      out := Found(r);
    case Count =>
      var n := s.Count();
      out := Total(n);
  }

  // Any run of operations from initialisation: the red-black tree and the sorted array give
  // the same answers, those of the abstract set, and end with the same ordered listing.
  method RunBoth(ops: seq<Op>)
    returns (treeOuts: seq<Out>, arrayOuts: seq<Out>, ghost treeListing: seq<Area>, ghost arrayListing: seq<Area>)
    ensures treeOuts == arrayOuts == Run({}, ops).1
    ensures treeListing == arrayListing && Ordered(treeListing) && Elems(treeListing) == Run({}, ops).0
  {
    var tree := new RbTree.Store();
    var sorted := new SortedArray.Store();
    treeOuts, arrayOuts := [], [];
    var i := 0;
    assert ops[..0] == [];
    while i < |ops|
      invariant i <= |ops|
      invariant fresh(tree) && fresh(tree.mem) && fresh(tree.mem.pool) && fresh(sorted) && fresh(sorted.areas)
      invariant tree.Valid() && sorted.Valid()
      invariant (tree.Contents(), treeOuts) == Run({}, ops[..i])
      invariant (sorted.Contents(), arrayOuts) == Run({}, ops[..i])
    {
      assert ops[..i + 1][..i] == ops[..i];
      var out := ExecTree(tree, ops[i]);
      treeOuts := treeOuts + [out];
      out := ExecArray(sorted, ops[i]);
      arrayOuts := arrayOuts + [out];
      i := i + 1;
    }
    assert ops[..i] == ops;
    treeListing, arrayListing := tree.Listing(), sorted.Listing();
    OrderedUnique(treeListing, arrayListing);
  }

  // ---- the maple tree, without removals ----

  function RangeOf(op: Op): Area
    requires op.Add?
  {
    Area(op.start, op.end, op.flags, op.name)
  }

  predicate ValidAdd(op: Op) {
    op.Add? && ValidRange(op.start, op.end)
  }

  // No removals, and no two ranges to be added overlap.
  predicate AddOnly(ops: seq<Op>) {
    && (forall i | 0 <= i < |ops| :: !ops[i].Remove?)
    && (forall i, j | 0 <= i < j < |ops| && ValidAdd(ops[i]) && ValidAdd(ops[j]) ::
          !Overlap(ops[j].start, ops[j].end, RangeOf(ops[i])))
  }

  // Everything stored was added by one of the operations.
  ghost predicate AddedBy(S: set<Area>, ops: seq<Op>) {
    forall a <- S :: WasAdded(a, ops)
  }

  ghost predicate WasAdded(a: Area, ops: seq<Op>) {
    exists i :: 0 <= i < |ops| && ValidAdd(ops[i]) && a == RangeOf(ops[i])
  }

  method ExecMaple(s: Maple.Store, op: Op) returns (out: Out)
    requires s.Valid() && DisjointSet(s.Contents()) && !op.Remove?
    requires ValidAdd(op) ==> forall a <- s.Contents() :: !Overlap(op.start, op.end, a)
    modifies s, s.nodes
    ensures s.Valid() && (s.Contents(), out) == Step(old(s.Contents()), op)
  {
    match op
    case Add(start, end, flags, name) =>
      if ValidRange(start, end) {
        MapleCascade.DisjointSeen(s.Shown(), s.stored, start, end);
      }
      var code := s.Add(start, end, flags, name);
      out := Status(code);
    case Find(addr) =>
      var r := s.Find(addr);
      HitUnique(s.Contents(), addr, r);
      out := Found(r);
    case Count =>
      var n := s.Count();
      out := Total(n);
  }

  lemma NewRangeApart(S: set<Area>, ops: seq<Op>, i: nat)
    requires AddOnly(ops) && i < |ops| && AddedBy(S, ops[..i]) && ValidAdd(ops[i])
    ensures forall a <- S :: !Overlap(ops[i].start, ops[i].end, a)
  {
  }

  lemma AddedNext(S: set<Area>, ops: seq<Op>, i: nat)
    requires i < |ops| && AddedBy(S, ops[..i]) && !ops[i].Remove?
    ensures AddedBy(Step(S, ops[i]).0, ops[..i + 1])
  {
    var before, after := ops[..i], ops[..i + 1];
    forall a | a in Step(S, ops[i]).0 ensures WasAdded(a, after) {
      if a in S {
        var j :| 0 <= j < i && ValidAdd(before[j]) && a == RangeOf(before[j]);
        assert after[j] == before[j];
      } else {
        assert after[i] == ops[i];
      }
    }
  }

  // On runs that only add disjoint ranges, and look up and count, the maple tree too answers
  // as the abstract set does, hence as the other two stores do.
  method RunMaple(ops: seq<Op>) returns (outs: seq<Out>)
    requires AddOnly(ops)
    ensures outs == Run({}, ops).1
  {
    var maple := new Maple.Store();
    outs := [];
    var i := 0;
    assert ops[..0] == [];
    while i < |ops|
      invariant i <= |ops| && fresh(maple) && fresh(maple.nodes) && maple.Valid()
      invariant (maple.Contents(), outs) == Run({}, ops[..i])
      invariant AddedBy(maple.Contents(), ops[..i]) && DisjointSet(maple.Contents())
    {
      assert ops[..i + 1][..i] == ops[..i];
      if ValidAdd(ops[i]) {
        NewRangeApart(maple.Contents(), ops, i);
      }
      AddedNext(maple.Contents(), ops, i);
      StepKeepsDisjoint(maple.Contents(), ops[i]);
      var out := ExecMaple(maple, ops[i]);
      outs := outs + [out];
      i := i + 1;
    }
    assert ops[..i] == ops;
  }
}
