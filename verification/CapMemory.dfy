/** Capability tables in memory (src/capability.c:149-161): entries of 16 bytes by byte address, so that
    the table of an entry is found by masking its address. */
module CapMemory {
  import opened Pointers
  import opened Powers
  import opened Bitmap
  import opened Capability

  type Memory = map<Ptr, Entry>

  /** `table->entries + i` */
  function Address(t: Ptr, i: nat): Ptr {
    t + 16 * i
  }

  /** `p & ~(PAGE_SIZE - 1)`, in 32 bits. */
  function Mask(p: nat): nat {
    And(p, 0xffff_f000)
  }

  /** `p` without its lowest `n` binary digits. */
  function Down(p: nat, n: nat): nat {
    if n == 0 then p else 2 * Down(p / 2, n - 1)
  }

  lemma {:induction false} AndOnes(p: nat, w: nat)
    requires p < Pow2(w)
    ensures And(p, Pow2(w) - 1) == p
    decreases w
  {
    if w > 0 {
      AndHalf(p, Pow2(w) - 1);
      assert (Pow2(w) - 1) / 2 == Pow2(w - 1) - 1 && (Pow2(w) - 1) % 2 == 1;
      AndOnes(p / 2, w - 1);
    }
  }

  lemma AndTwice(p: nat, m: nat)
    ensures And(p, 2 * m) == 2 * And(p / 2, m)
  {
    AndHalf(p, 2 * m);
    assert 2 * m / 2 == m && 2 * m % 2 == 0;
  }

  lemma {:induction false} AndDown(p: nat, n: nat, w: nat)
    requires p < Pow2(w) && n <= w
    ensures Pow2(n) <= Pow2(w) && And(p, Pow2(w) - Pow2(n)) == Down(p, n)
    decreases n
  {
    Pow2Monotone(n, w);
    if n == 0 {
      AndOnes(p, w);
    } else {
      var a, b := Pow2(w - 1), Pow2(n - 1);
      assert Pow2(w) == 2 * a && Pow2(n) == 2 * b;
      AndDown(p / 2, n - 1, w - 1);
      AndTwice(p, a - b);
    }
  }

  lemma DownThree(p: nat, n: nat)
    ensures Down(p, n + 3) == 8 * Down(p / 8, n)
  {
    assert p / 2 / 2 / 2 == p / 8;
    assert Down(p, n + 3) == 2 * Down(p / 2, n + 2);
    assert Down(p / 2, n + 2) == 2 * Down(p / 2 / 2, n + 1);
    assert Down(p / 2 / 2, n + 1) == 2 * Down(p / 2 / 2 / 2, n);
  }

  /** Masking an address gives the page it is in. */
  lemma MaskPage(p: nat)
    requires p <= FULL
    ensures Mask(p) == p / 4096 * 4096
  {
    WordSize();
    assert Pow2(12) == 4096;
    AndDown(p, 12, BPS);
    DownThree(p, 9);
    DownThree(p / 8, 6);
    DownThree(p / 8 / 8, 3);
    DownThree(p / 8 / 8 / 8, 0);
    assert p / 8 / 8 / 8 / 8 == p / 4096;
  }

  /** A page, not the first, of a 32-bit address space. */
  predicate Page(t: Ptr) {
    0 < t && t % 4096 == 0 && t + 4096 <= FULL + 1
  }

  /** The table of an entry is the page that it is in (src/capability.c:149-157). */
  lemma EntryPage(t: Ptr, i: nat)
    requires Page(t) && i < ENTRIES
    ensures 0 < Address(t, i) <= FULL && Mask(Address(t, i)) == t
  {
    MaskPage(Address(t, i));
  }

  /** No two entries share an address. */
  lemma AddressesApart(t: Ptr, i: nat, u: Ptr, j: nat)
    requires Page(t) && Page(u) && i < ENTRIES && j < ENTRIES && Address(t, i) == Address(u, j)
    ensures t == u && i == j
  {
    EntryPage(t, i);
    EntryPage(u, j);
  }

  // ---------------------------------------------------------------- memory and tables

  ghost predicate InMemory(mem: Memory, c: Caps, t: Ptr, i: nat) {
    t in c.tables && i < |c.tables[t]| ==> Address(t, i) in mem && mem[Address(t, i)] == c.tables[t][i]
  }

  /** Memory holds the tables, each in a page. */
  ghost predicate Mirrors(mem: Memory, c: Caps) {
    && (forall t :: t in c.tables ==> Page(t) && |c.tables[t]| == ENTRIES)
    && (forall t, i :: InMemory(mem, c, t, i))
  }

  /** The same, looked into only where a proof says so. */
  ghost predicate Holds(mem: Memory, c: Caps) {
    forall z {:trigger Inside(z)} :: Inside(z) ==> Mirrors(mem, c)
  }

  function AddressOf(s: Option<Slot>): Ptr {
    if s.Some? then Address(s.value.table, s.value.index) else NULL
  }

  /** An entry of a table is read at its address, which leads back to the table. */
  lemma ReadEntry(mem: Memory, c: Caps, s: Slot)
    requires Holds(mem, c) && IsSlot(c, s)
    ensures var p := Address(s.table, s.index);
            p in mem && mem[p] == EntryAt(c, s) && 0 < p <= FULL && Mask(p) == s.table
  {
    assert Inside(0);
    assert InMemory(mem, c, s.table, s.index);
    EntryPage(s.table, s.index);
  }

  lemma TableStart(mem: Memory, c: Caps, t: Ptr)
    requires Holds(mem, c) && t in c.tables
    ensures t > 0 && |c.tables[t]| == ENTRIES
  {
    assert Inside(0);
  }

  /** Writing an entry at its address writes it in its table, and in no other. */
  lemma WriteEntry(mem: Memory, c: Caps, s: Slot, e: Entry)
    requires Holds(mem, c) && IsSlot(c, s)
    ensures Holds(mem[Address(s.table, s.index) := e], Write(c, s, e))
  {
    assert Inside(0);
    var mem', c' := mem[Address(s.table, s.index) := e], Write(c, s, e);
    forall t, i: nat ensures InMemory(mem', c', t, i) {
      assert InMemory(mem, c, t, i);
      if t in c.tables && i < ENTRIES && Address(t, i) == Address(s.table, s.index) {
        AddressesApart(t, i, s.table, s.index);
      }
    }
  }

  /** The entry at `p` may be changed: the table of the space that the first entry of its page names
      has CAP_MODIFY in its own first entry. */
  ghost predicate MayChange(mem: Memory, spaces: map<Ptr, Ptr>, p: Ptr) {
    && 0 < p <= FULL && p in mem && Mask(p) in mem && mem[Mask(p)].target in spaces
    && var root := spaces[mem[Mask(p)].target]; root in mem && Has(mem[root].permissions, MODIFY)
  }

  /** A page of zeroes. */
  ghost predicate Zeroed(mem: Memory, page: Ptr) {
    forall i: nat {:trigger Address(page, i)} :: i < ENTRIES ==>
        Address(page, i) in mem && mem[Address(page, i)] == Entry(NONE, 0, NULL)
  }

  /** A page of zeroes with its first entry written is a new table. */
  lemma NewPage(mem: Memory, c: Caps, space: Ptr, page: Ptr)
    requires Holds(mem, c) && Page(page) && Zeroed(mem, page) && space !in c.spaces && page !in c.tables
    ensures Address(page, 0) == page && Holds(mem[page := Entry(CAP_SPACE, ALL, space)], Create(c, space, page))
  {
    assert Inside(0);
    var mem', c' := mem[page := Entry(CAP_SPACE, ALL, space)], Create(c, space, page);
    forall t, i: nat ensures InMemory(mem', c', t, i) {
      assert InMemory(mem, c, t, i);
      if t in c.tables && i < ENTRIES && Address(t, i) == page { AddressesApart(t, i, page, 0); }
      if t == page && 0 < i < ENTRIES { assert Address(page, i) in mem; }
    }
  }

  /** Writing an entry of a table leaves a page that is no table as it was. */
  lemma StillZeroed(mem: Memory, c: Caps, t: Ptr, i: nat, e: Entry, page: Ptr)
    requires Holds(mem, c) && t in c.tables && page !in c.tables && Page(page) && Zeroed(mem, page) && i < ENTRIES
    ensures Zeroed(mem[Address(t, i) := e], page)
  {
    assert Inside(0);
    forall j: nat | j < ENTRIES ensures Address(page, j) in mem && Address(page, j) != Address(t, i) {
      if Address(page, j) == Address(t, i) { AddressesApart(page, j, t, i); }
    }
  }

  /** The words of a message that carries a capability (src/message.c:135-146, 363-369). */
  predicate Carries(data: seq<int>, e: Entry) {
    |data| >= 3 && data[0] == e.kind && data[1] == e.permissions && data[2] == e.target
  }
}
