// The keyboard ring buffer: an interrupt handler puts, the main loop gets, and they share
// two indices without a lock. Every load and store of either side is one step, and a run
// is any interleaving of steps.
module KeyboardRing {

  const SIZE: nat := 128

  function Next(i: nat): nat {
    (i + 1) % SIZE
  }

  // Where each side stands between its loads and stores, with its local variables.
  datatype Producer =
    | Waiting
    | HeadLoaded(c: char, head: nat)
    | RoomSeen(c: char, head: nat)
    | SlotWritten(c: char, head: nat)

  datatype Consumer =
    | Idle
    | TailLoaded(tail: nat)
    | CharSeen(tail: nat)
    | CharLoaded(tail: nat, c: char)

  // `accepted` and `read` are the characters published and returned so far, in order.
  datatype State = State(buf: seq<char>, head: nat, tail: nat, prod: Producer, cons: Consumer,
                         accepted: seq<char>, read: seq<char>)

  // An event lets one side take its next step; `Key` also says which character a put that
  // starts now is for.
  datatype Event = Key(c: char) | MainLoop

  predicate Shaped(s: State) {
    && |s.buf| == SIZE && s.head < SIZE && s.tail < SIZE
    && (s.prod.HeadLoaded? || s.prod.RoomSeen? || s.prod.SlotWritten? ==> s.prod.head < SIZE)
    && (s.cons.TailLoaded? || s.cons.CharSeen? || s.cons.CharLoaded? ==> s.cons.tail < SIZE)
  }

  function ProducerStep(s: State, c: char): (s': State)
    requires Shaped(s)
    ensures Shaped(s') && s'.tail == s.tail && s'.cons == s.cons && s'.read == s.read
  {
    match s.prod
    case Waiting => s.(prod := HeadLoaded(c, s.head))
    case HeadLoaded(d, h) => s.(prod := if Next(h) == s.tail then Waiting else RoomSeen(d, h))
    case RoomSeen(d, h) => s.(buf := s.buf[h := d], prod := SlotWritten(d, h))
    case SlotWritten(d, h) => s.(head := Next(h), prod := Waiting, accepted := s.accepted + [d])
  }

  function ConsumerStep(s: State): (s': State)
    requires Shaped(s)
    ensures Shaped(s') && s'.head == s.head && s'.buf == s.buf && s'.prod == s.prod && s'.accepted == s.accepted
  {
    match s.cons
    case Idle => s.(cons := TailLoaded(s.tail))
    case TailLoaded(t) => s.(cons := if t == s.head then Idle else CharSeen(t))
    case CharSeen(t) => s.(cons := CharLoaded(t, s.buf[t]))
    case CharLoaded(t, c) => s.(tail := Next(t), cons := Idle, read := s.read + [c])
  }

  function Step(s: State, e: Event): (s': State)
    requires Shaped(s)
    ensures Shaped(s')
  {
    match e
    case Key(c) => ProducerStep(s, c)
    case MainLoop => ConsumerStep(s)
  }

  function Run(s: State, es: seq<Event>): (s': State)
    requires Shaped(s)
    ensures Shaped(s')
    decreases |es|
  {
    if es == [] then s else Run(Step(s, es[0]), es[1..])
  }

  const Start: State := State(seq(SIZE, _ => '\0'), 0, 0, Waiting, Idle, [], [])

  // ---- the invariant ----

  // Slot of the k-th character ever accepted.
  function Slot(k: nat): nat {
    k % SIZE
  }

  // Indices are the two counts modulo the size, at most 127 characters are pending, each
  // pending character is in its slot, and what each side holds in its locals is still true.
  ghost predicate Inv(s: State) {
    && Shaped(s)
    && |s.read| <= |s.accepted| < |s.read| + SIZE
    && s.head == Slot(|s.accepted|) && s.tail == Slot(|s.read|)
    && s.read == s.accepted[..|s.read|]
    && (forall k: nat | |s.read| <= k < |s.accepted| :: s.buf[Slot(k)] == s.accepted[k])
    && (!s.prod.Waiting? ==> s.prod.head == s.head)
    && (s.prod.RoomSeen? || s.prod.SlotWritten? ==> |s.accepted| + 1 < |s.read| + SIZE)
    && (s.prod.SlotWritten? ==> s.buf[s.head] == s.prod.c)
    && (!s.cons.Idle? ==> s.cons.tail == s.tail)
    && (s.cons.CharSeen? || s.cons.CharLoaded? ==> |s.read| < |s.accepted|)
    && (s.cons.CharLoaded? ==> s.cons.c == s.accepted[|s.read|])
  }

  lemma SlotsApart(j: nat, k: nat)
    requires j <= k < j + SIZE
    ensures Slot(j) == Slot(k) <==> j == k
    ensures Next(Slot(k)) == Slot(k + 1)
  {
  }

  // The producer's test recognises a full buffer exactly.
  lemma RoomTest(r: nat, a: nat)
    requires r <= a < r + SIZE
    ensures Next(Slot(a)) == Slot(r) <==> a + 1 == r + SIZE
  {
    SlotsApart(a, a);
    if a + 1 < r + SIZE {
      SlotsApart(r, a + 1);
    }
  }

  lemma ProducerKeeps(s: State, c: char)
    requires Inv(s)
    ensures Inv(ProducerStep(s, c))
  {
    var r, a := |s.read|, |s.accepted|;
    SlotsApart(r, a);
    match s.prod
    case Waiting =>
    case HeadLoaded(d, h) =>
      RoomTest(r, a);
    case RoomSeen(d, h) =>
      forall k: nat | r <= k < a ensures Slot(k) != h {
        SlotsApart(k, a);
      }
    case SlotWritten(d, h) =>
  }

  lemma ConsumerKeeps(s: State)
    requires Inv(s)
    ensures Inv(ConsumerStep(s))
  {
    SlotsApart(|s.read|, |s.accepted|);
    SlotsApart(|s.read|, |s.read|);
  }

  lemma {:induction false} RunKeeps(s: State, es: seq<Event>)
    requires Inv(s)
    ensures Inv(Run(s, es))
    decreases |es|
  {
    if es != [] {
      match es[0]
      case Key(c) => ProducerKeeps(s, c); RunKeeps(ProducerStep(s, c), es[1..]);
      case MainLoop => ConsumerKeeps(s); RunKeeps(ConsumerStep(s), es[1..]);
    }
  }

  // ---- results, for every interleaving from the empty buffer ----

  // What has been read is, in order, a prefix of what was accepted, with at most 127 pending.
  lemma Fifo(es: seq<Event>)
    ensures var s := Run(Start, es);
            s.read <= s.accepted && |s.accepted| - |s.read| <= 127
  {
    RunKeeps(Start, es);
  }

  // A step of the producer leaves every slot holding an unread character as it is.
  lemma UnreadKept(es: seq<Event>, c: char, k: nat)
    ensures var s := Run(Start, es);
            |s.read| <= k < |s.accepted| ==>
            ProducerStep(s, c).buf[Slot(k)] == s.buf[Slot(k)] == s.accepted[k]
  {
    RunKeeps(Start, es);
    var s := Run(Start, es);
    if |s.read| <= k < |s.accepted| {
      SlotsApart(k, |s.accepted|);
    }
  }

  // A character is dropped exactly when its check finds 127 pending, and a get comes back
  // empty exactly when its check finds nothing pending.
  lemma DropsAndMisses(es: seq<Event>, c: char)
    ensures var s := Run(Start, es);
            && (s.prod.HeadLoaded? ==> (ProducerStep(s, c).prod.Waiting? <==> |s.accepted| - |s.read| == 127))
            && (s.cons.TailLoaded? ==> (ConsumerStep(s).cons.Idle? <==> s.accepted == s.read))
  {
    RunKeeps(Start, es);
    var s := Run(Start, es);
    var r, a := |s.read|, |s.accepted|;
    SlotsApart(r, a);
    RoomTest(r, a);
  }

  // ---- which keys get through ----

  // The characters put, each at the event its put begins with.
  ghost function Offered(s: State, es: seq<Event>): seq<char>
    requires Shaped(s)
    decreases |es|
  {
    if es == [] then [] else
      (if es[0].Key? && s.prod.Waiting? then [es[0].c] else []) + Offered(Step(s, es[0]), es[1..])
  }

  // For each put that gets to its check, whether the check finds other than 127 pending.
  ghost function Verdicts(s: State, es: seq<Event>): seq<bool>
    requires Shaped(s)
    decreases |es|
  {
    if es == [] then [] else
      (if es[0].Key? && s.prod.HeadLoaded? then [|s.accepted| - |s.read| != 127] else []) + Verdicts(Step(s, es[0]), es[1..])
  }

  ghost function Kept(cs: seq<char>, vs: seq<bool>): seq<char>
    requires |vs| <= |cs|
  {
    if vs == [] then [] else (if vs[0] then [cs[0]] else []) + Kept(cs[1..], vs[1..])
  }

  // The character of a put before its check, and of one past its check and not yet published.
  function Unchecked(p: Producer): seq<char> {
    if p.HeadLoaded? then [p.c] else []
  }

  function Passed(p: Producer): seq<char> {
    if p.RoomSeen? || p.SlotWritten? then [p.c] else []
  }

  // What a run adds to the accepted characters: those put in it, without the ones whose check
  // found 127 pending.
  lemma {:induction false} RunAccepts(s: State, es: seq<Event>)
    requires Inv(s)
    ensures var s', cs, vs := Run(s, es), Unchecked(s.prod) + Offered(s, es), Verdicts(s, es);
            && |cs| == |vs| + |Unchecked(s'.prod)|
            && s.accepted + Passed(s.prod) + Kept(cs, vs) == s'.accepted + Passed(s'.prod)
    decreases |es|
  {
    if es != [] {
      var s1, rest := Step(s, es[0]), es[1..];
      if es[0].Key? {
        ProducerKeeps(s, es[0].c);
      } else {
        ConsumerKeeps(s);
      }
      RunAccepts(s1, rest);
      StepAccepts(s, es[0], Offered(s1, rest), Verdicts(s1, rest));
    }
  }

  lemma StepAccepts(s: State, e: Event, more: seq<char>, vs: seq<bool>)
    requires Inv(s) && Inv(Step(s, e)) && |Unchecked(Step(s, e).prod) + more| >= |vs|
    ensures var s1 := Step(s, e);
            var cs := Unchecked(s.prod) + ((if e.Key? && s.prod.Waiting? then [e.c] else []) + more);
            var ws := (if e.Key? && s.prod.HeadLoaded? then [|s.accepted| - |s.read| != 127] else []) + vs;
            && |cs| - |ws| == |Unchecked(s1.prod) + more| - |vs|
            && s.accepted + Passed(s.prod) + Kept(cs, ws) ==
               s1.accepted + Passed(s1.prod) + Kept(Unchecked(s1.prod) + more, vs)
  {
    var s1 := Step(s, e);
    var cs := Unchecked(s.prod) + ((if e.Key? && s.prod.Waiting? then [e.c] else []) + more);
    var ws := (if e.Key? && s.prod.HeadLoaded? then [|s.accepted| - |s.read| != 127] else []) + vs;
    if e.Key? && s.prod.HeadLoaded? {
      RoomTest(|s.read|, |s.accepted|);
      assert ws[1..] == vs && cs[1..] == more == Unchecked(s1.prod) + more;
    } else {
      assert ws == vs && cs == Unchecked(s1.prod) + more;
    }
  }

  // From the empty buffer: the characters put whose check did not find 127 pending are, in
  // order, the ones accepted and then the one whose put is past its check. At most one put
  // has not got to its check.
  lemma KeysAccepted(es: seq<Event>)
    ensures var s, cs, vs := Run(Start, es), Offered(Start, es), Verdicts(Start, es);
            && |vs| <= |cs| <= |vs| + 1
            && Kept(cs, vs) == s.accepted + (if s.prod.RoomSeen? || s.prod.SlotWritten? then [s.prod.c] else [])
  {
    RunAccepts(Start, es);
    var cs, vs := Offered(Start, es), Verdicts(Start, es);
    assert Unchecked(Start.prod) + cs == cs;
    assert Start.accepted + Passed(Start.prod) + Kept(cs, vs) == Kept(cs, vs);
  }

  // With no more key presses the main loop reads everything accepted, four steps a character.
  lemma {:induction false} Drains(s: State, n: nat)
    requires Inv(s) && s.cons.Idle? && n == |s.accepted| - |s.read|
    ensures Run(s, seq(4 * n, _ => MainLoop)).read == s.accepted
    decreases n
  {
    var es := seq(4 * n, _ => MainLoop);
    if n > 0 {
      SlotsApart(|s.read|, |s.accepted|);
      ConsumerKeeps(s);
      var s1 := ConsumerStep(s);
      ConsumerKeeps(s1);
      var s2 := ConsumerStep(s1);
      ConsumerKeeps(s2);
      var s3 := ConsumerStep(s2);
      ConsumerKeeps(s3);
      var s4 := ConsumerStep(s3);
      assert s2.cons.CharSeen? && s3.cons.CharLoaded? && s4.cons.Idle?;
      FourSteps(s, n);
      Drains(s4, n - 1);
    }
  }

  lemma FourSteps(s: State, n: nat)
    requires Shaped(s) && n > 0
    ensures Run(s, seq(4 * n, _ => MainLoop)) ==
            Run(ConsumerStep(ConsumerStep(ConsumerStep(ConsumerStep(s)))), seq(4 * (n - 1), _ => MainLoop))
  {
    var e4 := seq(4 * n, _ => MainLoop);
    var e3, e2, e1 := e4[1..], e4[2..], e4[3..];
    var e0 := seq(4 * (n - 1), _ => MainLoop);
    assert e3[1..] == e2 && e2[1..] == e1 && e1[1..] == e0;
    var s1 := ConsumerStep(s);
    var s2 := ConsumerStep(s1);
    var s3 := ConsumerStep(s2);
    assert Run(s, e4) == Run(s1, e3);
    assert Run(s1, e3) == Run(s2, e2);
    assert Run(s2, e2) == Run(s3, e1);
    assert Run(s3, e1) == Run(ConsumerStep(s3), e0);
  }

  // ---- the buffer itself ----

  class Keyboard {
    const buf: array<char>
    var head: nat
    var tail: nat
    var prod: Producer            // the interrupt handler's position and locals
    var cons: Consumer            // the main loop's
    ghost var accepted: seq<char>
    ghost var read: seq<char>

    ghost function Snapshot(): State
      reads this, buf
    {
      State(buf[..], head, tail, prod, cons, accepted, read)
    }

    constructor ()
      ensures Snapshot() == Start && Inv(Snapshot()) && fresh(buf)
    {
      buf := new char[SIZE](_ => '\0');
      head, tail, prod, cons := 0, 0, Waiting, Idle;
      accepted, read := [], [];
      new;
      assert buf[..] == seq(SIZE, _ => '\0');
    }

    // The handler's next load or store.
    method HandlerStep(c: char)
      requires Inv(Snapshot())
      modifies this, buf
      ensures Snapshot() == ProducerStep(old(Snapshot()), c) && Inv(Snapshot())
      ensures tail == old(tail) && cons == old(cons) && read == old(read)
      ensures old(prod).Waiting? ==> prod.HeadLoaded? && prod.c == c
      ensures old(prod).HeadLoaded? ==>
        if |accepted| - |read| == 127 then prod.Waiting? else prod.RoomSeen? && prod.c == old(prod).c
      ensures old(prod).RoomSeen? ==>
        prod.SlotWritten? && prod.c == old(prod).c && buf[..] == old(buf[..])[|accepted| % 128 := prod.c]
      ensures old(prod).SlotWritten? ==> prod.Waiting? && accepted == old(accepted) + [old(prod).c]
      ensures !old(prod).RoomSeen? ==> buf[..] == old(buf[..])
      ensures !old(prod).SlotWritten? ==> accepted == old(accepted) && head == old(head)
    {
      ProducerKeeps(Snapshot(), c);
      RoomTest(|read|, |accepted|);
      match prod
      case Waiting => prod := HeadLoaded(c, head);
      case HeadLoaded(d, h) =>
        prod := if (h + 1) % SIZE == tail then Waiting else RoomSeen(d, h);
      case RoomSeen(d, h) =>
        prod := SlotWritten(d, h);
        buf[h] := d;
      case SlotWritten(d, h) =>
        head, prod := (h + 1) % SIZE, Waiting;
        accepted := accepted + [d];
    }

    // The main loop's next load or store; a character comes out when a get completes.
    method MainLoopStep() returns (got: seq<char>)
      requires Inv(Snapshot())
      modifies this
      ensures Snapshot() == ConsumerStep(old(Snapshot())) && Inv(Snapshot())
      ensures read == old(read) + got
      ensures head == old(head) && buf[..] == old(buf[..]) && prod == old(prod) && accepted == old(accepted)
      ensures old(cons).Idle? ==> cons.TailLoaded?
      ensures old(cons).TailLoaded? ==> (cons.Idle? <==> accepted == read) && (accepted != read ==> cons.CharSeen?)
      ensures old(cons).CharSeen? ==> cons.CharLoaded?
      ensures got == if old(cons).CharLoaded? then [accepted[|old(read)|]] else []
      ensures old(cons).CharLoaded? ==> cons.Idle?
    {
      ConsumerKeeps(Snapshot());
      SlotsApart(|read|, |accepted|);
      got := [];
      match cons
      case Idle => cons := TailLoaded(tail);
      case TailLoaded(t) => cons := if t == head then Idle else CharSeen(t);
      case CharSeen(t) => cons := CharLoaded(t, buf[t]);
      case CharLoaded(t, c) =>
        tail, cons := (t + 1) % SIZE, Idle;
        read, got := read + [c], [c];
    }
  }
}
