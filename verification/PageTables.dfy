// 32-bit two-level page tables as words: a directory, and tables kept in physical frames.
module PageTables {
  import opened Prelude

  const ENTRIES: nat := 1024
  const PAGES: nat := 0x10_0000      // virtual pages

  // ---- entries ----

  predicate Present(w: nat) { w % 2 == 1 }
  predicate Writable(w: nat) { w % 4 >= 2 }
  predicate User(w: nat) { w % 8 >= 4 }
  function Frame(w: nat): nat { w - w % PAGE_SIZE }
  function OrUser(w: nat): nat { if User(w) then w else w + 4 }

  const PRESENT_WRITABLE: nat := 3

  lemma NewEntry(f: nat)
    requires f % PAGE_SIZE == 0 && f < WORD
    ensures Present(f + 3) && Writable(f + 3) && !User(f + 3) && Frame(f + 3) == f && f + 3 < WORD
  {
    LowBits(f, 3);
    FrameWithFlags(f, 3);
  }

  lemma FrameWithFlags(f: nat, g: nat)
    requires f % PAGE_SIZE == 0 && f < WORD && g < PAGE_SIZE
    ensures Frame(f + g) == f && f + g < WORD
  {
    var q := f / PAGE_SIZE;
    assert f + g == PAGE_SIZE * q + g;
    assert q < 0x10_0000;
  }

  // Adding whole pages leaves the flag bits alone.
  lemma LowBits(a: nat, g: nat)
    requires a % PAGE_SIZE == 0
    ensures Present(a + g) == Present(g) && Writable(a + g) == Writable(g) && User(a + g) == User(g)
  {
    LowThree(a / PAGE_SIZE, g / 8, g % 8);
    SubBits(a + g);
    SubBits(g);
  }

  lemma LowThree(q: nat, b: nat, c: nat)
    requires c < 8
    ensures (4096 * q + 8 * b + c) % 8 == c
  {
    assert 4096 * q + 8 * b + c == 8 * (512 * q + b) + c;
  }

  lemma SubBits(w: nat)
    ensures w % 4 == w % 8 % 4 && w % 2 == w % 8 % 2
  {
    var q, s := w / 8, w % 8;
    LowTwo(2 * q + s / 4, s % 4);
    LowOne(4 * q + s / 2, s % 2);
    assert s == 4 * (s / 4) + s % 4 == 2 * (s / 2) + s % 2;
  }

  lemma LowTwo(q: nat, c: nat)
    requires c < 4
    ensures (4 * q + c) % 4 == c
  {
  }

  lemma LowOne(q: nat, c: nat)
    requires c < 2
    ensures (2 * q + c) % 2 == c
  {
  }

  lemma OrUserBits(w: nat)
    ensures User(OrUser(w)) && Present(OrUser(w)) == Present(w) && Writable(OrUser(w)) == Writable(w)
    ensures Frame(OrUser(w)) == Frame(w) && (w < WORD ==> OrUser(w) < WORD)
  {
    if !User(w) {
      FourFits(w);
      var q := w / PAGE_SIZE;
      assert w + 4 == 4096 * q + (w % PAGE_SIZE + 4);
    }
  }

  lemma FourFits(w: nat)
    requires !User(w)
    ensures w % PAGE_SIZE + 4 < PAGE_SIZE && User(w + 4) && Present(w + 4) == Present(w) && Writable(w + 4) == Writable(w)
  {
    var a, s := w / 8, w % 8;
    SubBits(w);
    LowThree(0, a, s + 4);
    assert w + 4 == 4096 * 0 + 8 * a + (s + 4);
    SubBits(w + 4);
    var q, r := a / 512, a % 512;
    InPage(q, 8 * r + s);
    assert w == 4096 * q + (8 * r + s);
  }

  lemma InPage(q: nat, c: nat)
    requires c < PAGE_SIZE
    ensures (4096 * q + c) % PAGE_SIZE == c
  {
  }

  lemma MadeEntry(phys: nat, flags: nat)
    requires phys % PAGE_SIZE == 0 && phys < WORD
    ensures var w := phys + flags % PAGE_SIZE;
            && w < WORD && Frame(w) == phys
            && Present(w) == Present(flags) && Writable(w) == Writable(flags) && User(w) == User(flags)
  {
    FrameWithFlags(phys, flags % PAGE_SIZE);
    LowBits(phys, flags % PAGE_SIZE);
    LowBits(Frame(flags), flags % PAGE_SIZE);
  }

  // ---- directory, tables and the flat map they stand for ----

  type Memory = map<nat, seq<nat>>

  function Put(mem: Memory, f: nat, j: nat, w: nat): Memory
    requires f in mem && j < |mem[f]|
  {
    var table: seq<nat> := mem[f][j := w];
    mem[f := table]
  }

  function Zeroed(mem: Memory, f: nat): Memory {
    mem[f := seq(ENTRIES, _ => 0)]
  }

  // A present directory entry names a table of its own, outside the free frames, gives
  // write access, and gives user access if any of its pages does.
  ghost predicate EntryOk(d: seq<nat>, mem: Memory, free: set<nat>, i: nat)
    requires i < |d|
  {
    d[i] < WORD &&
    (Present(d[i]) ==>
      && Writable(d[i]) && Frame(d[i]) !in free
      && Frame(d[i]) in mem && |mem[Frame(d[i])]| == ENTRIES
      && forall j: nat | j < ENTRIES :: mem[Frame(d[i])][j] < WORD && (User(mem[Frame(d[i])][j]) ==> User(d[i])))
  }

  ghost predicate Inv(d: seq<nat>, mem: Memory, free: set<nat>) {
    && |d| == ENTRIES
    && (forall i: nat | i < ENTRIES :: EntryOk(d, mem, free, i))
    && (forall i: nat, j: nat | i < j < ENTRIES && Present(d[i]) && Present(d[j]) :: Frame(d[i]) != Frame(d[j]))
  }

  // The page table entry of virtual page u; 0 where there is no table.
  ghost function Entry(d: seq<nat>, mem: Memory, free: set<nat>, u: nat): nat
    requires Inv(d, mem, free) && u < PAGES
  {
    if Present(d[u / ENTRIES]) then
      assert EntryOk(d, mem, free, u / ENTRIES);
      mem[Frame(d[u / ENTRIES])][u % ENTRIES]
    else 0
  }

  datatype Mapping = Mapping(frame: nat, writable: bool, user: bool)

  ghost function Decoded(w: nat): Option<Mapping> {
    if Present(w) then Some(Mapping(Frame(w), Writable(w), User(w))) else None
  }

  // The flat map from virtual pages to frames and rights.
  ghost function Flat(d: seq<nat>, mem: Memory, free: set<nat>): (m: seq<Option<Mapping>>)
    requires Inv(d, mem, free)
    ensures |m| == PAGES && forall u: nat | u < PAGES :: m[u] == Decoded(Entry(d, mem, free, u))
  {
    seq(PAGES, u requires 0 <= u < PAGES => Decoded(Entry(d, mem, free, u)))
  }

  // What the processor grants: rights must be given at both levels.
  ghost function Hardware(d: seq<nat>, mem: Memory, free: set<nat>, u: nat): Option<Mapping>
    requires Inv(d, mem, free) && u < PAGES
  {
    var pde, pte := d[u / ENTRIES], Entry(d, mem, free, u);
    if Present(pde) && Present(pte)
    then Some(Mapping(Frame(pte), Writable(pde) && Writable(pte), User(pde) && User(pte))) else None
  }

  // The rights the processor computes are those of the page's own entry.
  lemma RightsAreThePages(d: seq<nat>, mem: Memory, free: set<nat>, u: nat)
    requires Inv(d, mem, free) && u < PAGES
    ensures Hardware(d, mem, free, u) == Decoded(Entry(d, mem, free, u))
  {
    assert EntryOk(d, mem, free, u / ENTRIES);
  }

  // Frames holding page tables.
  ghost function Tables(d: seq<nat>): set<nat> {
    set i: nat | i < |d| && Present(d[i]) :: Frame(d[i])
  }

  // ---- what each write does ----

  ghost predicate SameMap(d: seq<nat>, mem: Memory, free: set<nat>, d': seq<nat>, mem': Memory, free': set<nat>) {
    Inv(d, mem, free) && Inv(d', mem', free') && Flat(d', mem', free') == Flat(d, mem, free)
  }

  lemma WriteEntry(d: seq<nat>, mem: Memory, free: set<nat>, v: nat, w: nat)
    requires Inv(d, mem, free) && v < PAGES && w < WORD
    requires Present(d[v / ENTRIES]) && (User(w) ==> User(d[v / ENTRIES]))
    ensures var f := Frame(d[v / ENTRIES]);
            && f in mem && |mem[f]| == ENTRIES
            && Inv(d, Put(mem, f, v % ENTRIES, w), free)
            && Flat(d, Put(mem, f, v % ENTRIES, w), free) == Flat(d, mem, free)[v := Decoded(w)]
  {
    var i, f := v / ENTRIES, Frame(d[v / ENTRIES]);
    assert EntryOk(d, mem, free, i);
    var mem' := Put(mem, f, v % ENTRIES, w);
    forall k: nat | k < ENTRIES ensures EntryOk(d, mem', free, k) {
      assert EntryOk(d, mem, free, k);
    }
    forall u: nat | u < PAGES ensures Entry(d, mem', free, u) == if u == v then w else Entry(d, mem, free, u) {
    }
  }

  lemma AddTable(d: seq<nat>, mem: Memory, free: set<nat>, i: nat, f: nat)
    requires Inv(d, mem, free) && i < ENTRIES && !Present(d[i]) && f in free && f % PAGE_SIZE == 0 && f < WORD
    ensures SameMap(d, mem, free, d[i := f + 3], Zeroed(mem, f), free - {f})
    ensures Tables(d[i := f + 3]) == Tables(d) + {f}
  {
    NewEntry(f);
    var d', mem' := d[i := f + 3], Zeroed(mem, f);
    forall k: nat | k < ENTRIES ensures EntryOk(d', mem', free - {f}, k) {
      assert EntryOk(d, mem, free, k);
    }
    forall k: nat | k < ENTRIES && k != i && Present(d'[k]) ensures Frame(d'[k]) != f {
      assert EntryOk(d, mem, free, k);
    }
    forall u: nat | u < PAGES ensures Entry(d', mem', free - {f}, u) == Entry(d, mem, free, u) {
      assert EntryOk(d, mem, free, u / ENTRIES);
    }
    assert Present(d'[i]);
    forall k: nat | k < ENTRIES && Present(d[k]) ensures Frame(d[k]) in Tables(d') {
      assert Present(d'[k]);
    }
  }

  lemma GrantUser(d: seq<nat>, mem: Memory, free: set<nat>, i: nat)
    requires Inv(d, mem, free) && i < ENTRIES
    ensures SameMap(d, mem, free, d[i := OrUser(d[i])], mem, free)
    ensures Tables(d[i := OrUser(d[i])]) == Tables(d)
  {
    OrUserBits(d[i]);
    var d' := d[i := OrUser(d[i])];
    forall k: nat | k < ENTRIES ensures EntryOk(d', mem, free, k) {
      assert EntryOk(d, mem, free, k);
    }
    forall k: nat | k < ENTRIES ensures Present(d'[k]) == Present(d[k]) && Frame(d'[k]) == Frame(d[k]) {
    }
  }

  lemma DropTable(d: seq<nat>, mem: Memory, free: set<nat>, i: nat)
    requires Inv(d, mem, free) && i < ENTRIES
    ensures var d' := d[i := 0];
            && Inv(d', mem, free)
            && forall u: nat | u < PAGES :: Flat(d', mem, free)[u] == if u / ENTRIES == i then None else Flat(d, mem, free)[u]
  {
    var d' := d[i := 0];
    forall k: nat | k < ENTRIES ensures EntryOk(d', mem, free, k) {
      assert EntryOk(d, mem, free, k);
    }
    forall u: nat | u < PAGES
      ensures Entry(d', mem, free, u) == if u / ENTRIES == i then 0 else Entry(d, mem, free, u)
    {
      assert EntryOk(d, mem, free, u / ENTRIES);
    }
  }

  // Taking a frame from the free set, or returning one that is no table, changes no entry.
  lemma FreeSetOnly(d: seq<nat>, mem: Memory, free: set<nat>, free': set<nat>)
    requires Inv(d, mem, free) && (forall f <- free' :: f in free || f !in Tables(d))
    ensures SameMap(d, mem, free, d, mem, free')
  {
    forall k: nat | k < ENTRIES ensures EntryOk(d, mem, free', k) {
      assert EntryOk(d, mem, free, k);
      assert Present(d[k]) ==> Frame(d[k]) in Tables(d);
    }
  }
}
