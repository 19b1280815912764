// Circular doubly linked lists threaded through one array of links. A list is named by
// the index of its head; `s` is the sequence of members after the head.
module RingLists {
  import opened Prelude

  datatype Link = Link(prev: nat, next: nat)

  // Position 0 and position |s| + 1 are both the head.
  function Nth(h: nat, s: seq<nat>, i: nat): nat
    requires i <= |s| + 1
  {
    if 0 < i <= |s| then s[i - 1] else h
  }

  // a is followed by b.
  ghost predicate Joined(m: seq<Link>, a: nat, b: nat) {
    a < |m| && b < |m| && m[a].next == b && m[b].prev == a
  }

  ghost predicate Ring(m: seq<Link>, h: nat, s: seq<nat>) {
    forall i | 0 <= i <= |s| :: Joined(m, Nth(h, s, i), Nth(h, s, i + 1))
  }

  lemma RingInRange(m: seq<Link>, h: nat, s: seq<nat>)
    requires Ring(m, h, s)
    ensures h < |m| && forall i | 0 <= i < |s| :: s[i] < |m|
  {
    assert Joined(m, Nth(h, s, 0), Nth(h, s, 1));
    forall i | 0 <= i < |s| ensures s[i] < |m| {
      assert Joined(m, Nth(h, s, i), Nth(h, s, i + 1));
    }
  }

  ghost predicate NoDup(h: nat, s: seq<nat>) {
    && h !in s
    && forall i, j | 0 <= i < j < |s| :: s[i] != s[j]
  }

  lemma RingFrame(m: seq<Link>, m': seq<Link>, h: nat, s: seq<nat>)
    requires Ring(m, h, s) && |m| == |m'|
    requires forall x: nat | (x == h || x in s) && x < |m| :: m'[x] == m[x]
    ensures Ring(m', h, s)
  {
    RingInRange(m, h, s);
    forall i | 0 <= i <= |s| ensures Joined(m', Nth(h, s, i), Nth(h, s, i + 1)) {
      assert Joined(m, Nth(h, s, i), Nth(h, s, i + 1));
    }
  }

  method ListInit(links: array<Link>, head: nat)
    requires head < links.Length
    modifies links
    ensures Ring(links[..], head, []) && NoDup(head, [])
    ensures forall i | 0 <= i < links.Length && i != head :: links[i] == old(links[i])
  {
    links[head] := links[head].(prev := head);
    links[head] := links[head].(next := head);
  }

  method ListEmpty(links: array<Link>, head: nat, ghost s: seq<nat>) returns (b: bool)
    requires Ring(links[..], head, s) && NoDup(head, s)
    ensures b <==> s == []
  {
    RingInRange(links[..], head, s);
    assert Joined(links[..], Nth(head, s, 0), Nth(head, s, 1));
    b := links[head].next == head;
  }

  method ListAddTail(links: array<Link>, node: nat, head: nat, ghost s: seq<nat>)
    requires Ring(links[..], head, s) && NoDup(head, s)
    requires node < links.Length && node != head && node !in s
    modifies links
    ensures Ring(links[..], head, s + [node]) && NoDup(head, s + [node])
    ensures forall i | 0 <= i < links.Length && i != node && i != head && i !in s :: links[i] == old(links[i])
  {
    ghost var m, n := links[..], |s|;
    RingInRange(m, head, s);
    assert Joined(m, Nth(head, s, n), Nth(head, s, n + 1));
    links[node] := links[node].(prev := links[head].prev);
    links[node] := links[node].(next := head);
    var last := links[head].prev;
    links[last] := links[last].(next := node);
    links[head] := links[head].(prev := node);
    ghost var s' := s + [node];
    forall i | 0 <= i <= |s'| ensures Joined(links[..], Nth(head, s', i), Nth(head, s', i + 1)) {
      if i < n {
        assert Joined(m, Nth(head, s, i), Nth(head, s, i + 1));
      }
    }
  }

  method ListDel(links: array<Link>, node: nat, ghost head: nat, ghost s: seq<nat>, ghost j: nat)
    requires Ring(links[..], head, s) && NoDup(head, s) && j < |s| && s[j] == node
    modifies links
    ensures Ring(links[..], head, Without(s, j)) && NoDup(head, Without(s, j))
    ensures node < links.Length && links[node] == Link(node, node)
    ensures forall i | 0 <= i < links.Length && i != head && i !in s :: links[i] == old(links[i])
  {
    ghost var m, s' := links[..], Without(s, j);
    RingInRange(m, head, s);
    assert Joined(m, Nth(head, s, j), Nth(head, s, j + 1));
    assert Joined(m, Nth(head, s, j + 1), Nth(head, s, j + 2));
    var p := links[node].prev;
    links[p] := links[p].(next := links[node].next);
    var q := links[node].next;
    links[q] := links[q].(prev := links[node].prev);
    links[node] := links[node].(prev := node);
    links[node] := links[node].(next := node);
    forall i | 0 <= i <= |s'| ensures Joined(links[..], Nth(head, s', i), Nth(head, s', i + 1)) {
      var i' := if i < j then i else i + 1;
      assert Joined(m, Nth(head, s, i'), Nth(head, s, i' + 1));
    }
  }

  method ListPop(links: array<Link>, head: nat, ghost s: seq<nat>) returns (node: nat)
    requires Ring(links[..], head, s) && NoDup(head, s) && s != []
    modifies links
    ensures node == s[0] && Ring(links[..], head, s[1..]) && NoDup(head, s[1..])
    ensures forall i | 0 <= i < links.Length && i != head && i !in s :: links[i] == old(links[i])
  {
    RingInRange(links[..], head, s);
    assert Joined(links[..], Nth(head, s, 0), Nth(head, s, 1));
    node := links[head].next;
    ListDel(links, node, head, s, 0);
    assert Without(s, 0) == s[1..];
  }
}
