/** Capability tables (src/capability.c): a table is a page of 256 entries, and a space names a table.
    An entry is known by its table and its index. */
module Capability {
  import opened Pointers
  import opened Powers
  import opened Bitmap

  // ---------------------------------------------------------------- entries

  const ENTRIES: nat := 256

  /** include/c4/capability.h:8-31 */
  const ACCESS: Word := 1
  const MODIFY: Word := 2
  const SHARE: Word := 4

  /** CAP_ACCESS | CAP_MODIFY | CAP_SHARE | CAP_MULTI_USE */
  const ALL: Word := 15

  /** CAP_MODIFY | CAP_SHARE */
  const MODIFY_SHARE: Word := 6

  const NONE: nat := 0
  const SYNC_ENDPOINT: nat := 1
  const CAP_SPACE: nat := 3
  const THREAD: nat := 5
  const RESERVED: nat := 8

  const INVALID_OBJECT: nat := 0

  datatype Entry = Entry(kind: nat, permissions: Word, target: Ptr)

  /** `p & flag`, as a condition. */
  predicate Has(p: Word, flag: Word) {
    And(p, flag) != 0
  }

  /** `(p & q) == q` */
  predicate Covers(p: Word, q: Word) {
    And(p, q) == q
  }

  /** The check says exactly that every permission in `q` is in `p`. */
  lemma CoversBits(p: Word, q: Word)
    ensures Covers(p, q) <==> forall o :: 0 <= o < BPS && Bit(q, o) ==> Bit(p, o)
  {
    WordSize();
    AndBound(p, q, BPS);
    forall o | 0 <= o < BPS ensures Bit(And(p, q), o) <==> Bit(p, o) && Bit(q, o) { AndBit(p, q, o); }
    if forall o :: 0 <= o < BPS && Bit(q, o) ==> Bit(p, o) { SameBits(And(p, q), q, BPS); }
  }

  lemma CoversTrans(p: Word, q: Word, r: Word)
    requires Covers(p, q) && Covers(q, r)
    ensures Covers(p, r)
  {
    CoversBits(p, q);
    CoversBits(q, r);
    CoversBits(p, r);
  }

  lemma CoversSelf(p: Word)
    ensures Covers(p, p) && Covers(p, 0)
  {
    CoversBits(p, p);
    CoversBits(p, 0);
    forall o | 0 <= o < BPS ensures !Bit(0, o) { ZeroBit(o); }
  }

  /** A flag that is one bit is there exactly if the bit is set. */
  lemma HasBit(p: Word, o: nat, flag: Word)
    requires o < BPS && flag == Pow2(o)
    ensures Has(p, flag) <==> Bit(p, o)
  {
    WordSize();
    AndBound(p, flag, BPS);
    forall j: nat | j < BPS ensures Bit(And(p, flag), j) <==> j == o && Bit(p, j) {
      AndBit(p, flag, j);
      Pow2Bit(o, j);
    }
    ZeroBit(o);
    if !Bit(p, o) {
      forall j | 0 <= j < BPS ensures !Bit(0, j) { ZeroBit(j); }
      SameBits(And(p, flag), 0, BPS);
    }
  }

  /** CAP_MODIFY is bit 1, CAP_SHARE is bit 2. */
  lemma HasFlags(p: Word)
    ensures Has(p, MODIFY) <==> Bit(p, 1)
    ensures Has(p, SHARE) <==> Bit(p, 2)
  {
    HasBit(p, 1, 2);
    HasBit(p, 2, 4);
  }

  /** What is covered together with CAP_SHARE is covered alone, and CAP_SHARE is there. */
  lemma CoversShared(p: Word, q: Word)
    requires Or(q, SHARE) <= FULL && Covers(p, Or(q, SHARE))
    ensures Covers(p, q) && Covers(p, SHARE)
  {
    CoversBits(p, Or(q, SHARE));
    CoversBits(p, q);
    CoversBits(p, SHARE);
    forall o | 0 <= o < BPS ensures Bit(Or(q, SHARE), o) <==> Bit(q, o) || Bit(SHARE, o) { OrBit(q, SHARE, o); }
  }

  // ---------------------------------------------------------------- tables

  datatype Slot = Slot(table: Ptr, index: nat)

  datatype Option<T> = Some(value: T) | None

  /** The tables by page address, and the table of each space. */
  datatype Caps = Caps(tables: map<Ptr, seq<Entry>>, spaces: map<Ptr, Ptr>)

  ghost predicate WfTable(c: Caps, t: Ptr) {
    t in c.tables ==> |c.tables[t]| == ENTRIES
  }

  /** Spaces have tables, and tables have 256 entries; no space is at NULL. */
  ghost predicate Wf(c: Caps) {
    && NULL !in c.spaces
    && (forall s :: s in c.spaces ==> c.spaces[s] in c.tables)
    && (forall t :: WfTable(c, t))
  }

  ghost predicate WholeTable(c: Caps, t: Ptr) {
    t in c.tables && |c.tables[t]| == ENTRIES ==>
      && c.tables[t][0].target in c.spaces
      && forall i :: 0 <= i < ENTRIES && c.tables[t][i].kind == CAP_SPACE ==> c.tables[t][i].target in c.spaces
  }

  /** Every pointer that the code may follow leads to a space: that of an entry of the type of a
      space, and that of the first entry of a table. */
  ghost predicate Whole(c: Caps) {
    forall t :: WholeTable(c, t)
  }

  ghost predicate IsSlot(c: Caps, s: Slot) {
    s.table in c.tables && s.index < ENTRIES && |c.tables[s.table]| == ENTRIES
  }

  function EntryAt(c: Caps, s: Slot): Entry
    requires IsSlot(c, s)
  {
    c.tables[s.table][s.index]
  }

  function Write(c: Caps, s: Slot, e: Entry): Caps
    requires IsSlot(c, s)
  {
    c.(tables := c.tables[s.table := c.tables[s.table][s.index := e]])
  }

  // ---------------------------------------------------------------- lookup

  /** src/capability.c:165-199.  Where the code follows a pointer to a space that is not one, it does
      not come back with an entry; Astray says when. */
  function Lookup(c: Caps, t: Ptr, address: nat): (r: Option<Slot>)
    requires Wf(c) && t in c.tables
    ensures r.Some? ==> IsSlot(c, r.value)
    decreases address
  {
    assert WfTable(c, t);
    var offset, rest := address % ENTRIES, address / ENTRIES;
    if rest == 0 && offset == 0 then Some(Slot(t, 0))
    else if c.tables[t][offset].kind == CAP_SPACE then
      if c.tables[t][offset].target in c.spaces then Lookup(c, c.spaces[c.tables[t][offset].target], rest) else None
    else if rest != 0 then None
    else Some(Slot(t, offset))
  }

  /** The lookup follows a pointer that does not lead to a space (src/capability.c:183-184). */
  predicate Astray(c: Caps, t: Ptr, address: nat)
    requires Wf(c) && t in c.tables
    decreases address
  {
    assert WfTable(c, t);
    var offset, rest := address % ENTRIES, address / ENTRIES;
    if rest == 0 && offset == 0 then false
    else if c.tables[t][offset].kind == CAP_SPACE then
      if c.tables[t][offset].target in c.spaces then Astray(c, c.spaces[c.tables[t][offset].target], rest) else true
    else false
  }

  /** The address spells a path to a slot that holds a space which is not one, and then goes on. */
  ghost predicate Misleads(c: Caps, t: Ptr, address: nat, path: seq<nat>, d: nat, rest: nat)
    requires Wf(c) && t in c.tables
  {
    && d < ENTRIES && (d != 0 || rest != 0) && address == Path(path, d + ENTRIES * rest)
    && Follow(c, t, path).Some?
    && var t' := Follow(c, t, path).value;
       && |c.tables[t']| == ENTRIES
       && c.tables[t'][d].kind == CAP_SPACE && c.tables[t'][d].target !in c.spaces
  }

  /** A lookup goes astray exactly if the address leads through such a slot. */
  lemma AstrayExactly(c: Caps, t: Ptr, address: nat)
    requires Wf(c) && t in c.tables
    ensures Astray(c, t, address) <==> exists path, d, rest :: Misleads(c, t, address, path, d, rest)
  {
    if Astray(c, t, address) {
      var path, d, rest := AstrayPath(c, t, address);
      assert Misleads(c, t, address, path, d, rest);
    }
    if exists path, d, rest :: Misleads(c, t, address, path, d, rest) {
      var path, d, rest :| Misleads(c, t, address, path, d, rest);
      MisleadsAstray(c, t, address, path, d, rest);
    }
  }

  lemma {:induction false} AstrayPath(c: Caps, t: Ptr, address: nat) returns (path: seq<nat>, d: nat, rest: nat)
    requires Wf(c) && t in c.tables && Astray(c, t, address)
    ensures Misleads(c, t, address, path, d, rest)
    decreases address
  {
    assert WfTable(c, t);
    var offset, tail := address % ENTRIES, address / ENTRIES;
    assert address == offset + ENTRIES * tail;
    if c.tables[t][offset].target in c.spaces {
      path, d, rest := AstrayPath(c, c.spaces[c.tables[t][offset].target], tail);
      var p := [offset] + path;
      assert p[1..] == path;
      path := p;
    } else {
      path, d, rest := [], offset, tail;
    }
  }

  lemma {:induction false} MisleadsAstray(c: Caps, t: Ptr, address: nat, path: seq<nat>, d: nat, rest: nat)
    requires Wf(c) && t in c.tables && Misleads(c, t, address, path, d, rest)
    ensures Astray(c, t, address)
    decreases |path|
  {
    assert WfTable(c, t);
    if path == [] {
      LowDigit(d, rest);
    } else {
      var tail := Path(path[1..], d + ENTRIES * rest);
      if tail == 0 { PathZero(path[1..], d + ENTRIES * rest); }
      LowDigit(path[0], tail);
      MisleadsAstray(c, c.spaces[c.tables[t][path[0]].target], tail, path[1..], d, rest);
    }
  }

  lemma {:induction false} WholeLookup(c: Caps, t: Ptr, address: nat)
    requires Wf(c) && Whole(c) && t in c.tables
    ensures !Astray(c, t, address)
    decreases address
  {
    assert WfTable(c, t) && WholeTable(c, t);
    var offset, rest := address % ENTRIES, address / ENTRIES;
    if (rest != 0 || offset != 0) && c.tables[t][offset].kind == CAP_SPACE {
      WholeLookup(c, c.spaces[c.tables[t][offset].target], rest);
    }
  }

  /** The table a path of slots leads to, each a space; None where one is not. */
  function Follow(c: Caps, t: Ptr, path: seq<nat>): (r: Option<Ptr>)
    requires Wf(c) && t in c.tables
    ensures r.Some? ==> r.value in c.tables
    decreases |path|
  {
    assert WfTable(c, t);
    if path == [] then Some(t)
    else if path[0] < ENTRIES && c.tables[t][path[0]].kind == CAP_SPACE && c.tables[t][path[0]].target in c.spaces then
      Follow(c, c.spaces[c.tables[t][path[0]].target], path[1..])
    else None
  }

  /** The address made of a path and an address in the space it leads to. */
  function Path(path: seq<nat>, address: nat): nat {
    if path == [] then address else path[0] + ENTRIES * Path(path[1..], address)
  }

  /** The first entry of every table names a space of that table. */
  ghost predicate SelfOk(c: Caps) {
    forall t :: t in c.tables ==> SelfEntry(c, t)
  }

  ghost predicate SelfEntry(c: Caps, t: Ptr) {
    && t in c.tables && |c.tables[t]| == ENTRIES
    && c.tables[t][0].kind == CAP_SPACE && c.tables[t][0].target in c.spaces && c.spaces[c.tables[t][0].target] == t
  }

  /** Lookup composes: an address that begins with a path to a space names what the rest of the
      address names there.  The path may run in circles. */
  lemma {:induction false} LookupComposes(c: Caps, t: Ptr, path: seq<nat>, address: nat)
    requires Wf(c) && t in c.tables && Follow(c, t, path).Some?
    requires path == [] || address != 0 || path[|path| - 1] != 0 || SelfOk(c)
    ensures Lookup(c, t, Path(path, address)) == Lookup(c, Follow(c, t, path).value, address)
    decreases |path|
  {
    if path != [] {
      assert WfTable(c, t);
      var d, tail := path[0], path[1..];
      var rest := Path(tail, address);
      var t' := c.spaces[c.tables[t][d].target];
      assert tail != [] ==> tail[|tail| - 1] == path[|path| - 1];
      LookupComposes(c, t', tail, address);
      if d == 0 && rest == 0 {
        PathZero(tail, address);
        assert SelfEntry(c, t);
      } else {
        LookupHop(c, t, d, rest);
      }
    }
  }

  /** One hop through the slot that the lowest digit names. */
  lemma LookupHop(c: Caps, t: Ptr, d: nat, rest: nat)
    requires Wf(c) && t in c.tables && d < ENTRIES && |c.tables[t]| == ENTRIES && (d != 0 || rest != 0)
    requires c.tables[t][d].kind == CAP_SPACE && c.tables[t][d].target in c.spaces
    ensures Lookup(c, t, d + ENTRIES * rest) == Lookup(c, c.spaces[c.tables[t][d].target], rest)
  {
    LowDigit(d, rest);
  }

  lemma LowDigit(d: nat, rest: nat)
    requires d < ENTRIES
    ensures (d + ENTRIES * rest) % ENTRIES == d && (d + ENTRIES * rest) / ENTRIES == rest
  {
  }

  /** A leading hop through the self entry changes nothing. */
  lemma SelfHop(c: Caps, t: Ptr, address: nat)
    requires Wf(c) && t in c.tables && SelfEntry(c, t)
    ensures Lookup(c, t, ENTRIES * address) == Lookup(c, t, address)
  {
    if address != 0 {
      assert Follow(c, t, [0]) == Follow(c, t, []);
      LookupComposes(c, t, [0], address);
    }
  }

  lemma {:induction false} PathZero(path: seq<nat>, address: nat)
    requires Path(path, address) == 0
    ensures address == 0 && (path != [] ==> path[|path| - 1] == 0)
    decreases |path|
  {
    if path != [] {
      PathZero(path[1..], address);
      if |path| > 1 { assert path[1..][|path[1..]| - 1] == path[|path| - 1]; }
    }
  }

  /** What lookup finds is at the end of the path that the address spells, and is the first entry
      of its table or not a space. */
  lemma {:induction false} LookupFinds(c: Caps, t: Ptr, address: nat) returns (path: seq<nat>)
    requires Wf(c) && t in c.tables && Lookup(c, t, address).Some?
    ensures var s := Lookup(c, t, address).value;
            && Follow(c, t, path) == Some(s.table) && address == Path(path, s.index)
            && (s.index == 0 || EntryAt(c, s).kind != CAP_SPACE)
            && (s.index == 0 ==> path == [] || path[|path| - 1] != 0)
    decreases address
  {
    assert WfTable(c, t);
    var offset, rest := address % ENTRIES, address / ENTRIES;
    if (rest != 0 || offset != 0) && c.tables[t][offset].kind == CAP_SPACE {
      var tail := LookupFinds(c, c.spaces[c.tables[t][offset].target], rest);
      path := [offset] + tail;
      assert path[1..] == tail;
      if tail != [] { assert path[|path| - 1] == tail[|tail| - 1]; }
    } else {
      path := [];
    }
  }

  /** The address spells the path `path` to the table of `s`, and then the slot.  A slot that holds a
      space is passed through, so that it is not the end of a path; the first slot of a table is the
      end of a path that does not go on with zeros. */
  ghost predicate Spells(c: Caps, t: Ptr, address: nat, s: Slot, path: seq<nat>)
    requires Wf(c) && t in c.tables
  {
    && IsSlot(c, s) && Follow(c, t, path) == Some(s.table) && address == Path(path, s.index)
    && (if s.index == 0 then path == [] || path[|path| - 1] != 0 else EntryAt(c, s).kind != CAP_SPACE)
  }

  ghost predicate Names(c: Caps, t: Ptr, address: nat, s: Slot)
    requires Wf(c) && t in c.tables
  {
    exists path :: Spells(c, t, address, s, path)
  }

  lemma SpelledFound(c: Caps, t: Ptr, address: nat, s: Slot, path: seq<nat>)
    requires Wf(c) && t in c.tables && Spells(c, t, address, s, path)
    ensures Lookup(c, t, address) == Some(s)
  {
    LookupComposes(c, t, path, s.index);
    assert s.index % ENTRIES == s.index && s.index / ENTRIES == 0;
    assert Lookup(c, s.table, s.index) == Some(Slot(s.table, s.index));
  }

  /** Lookup finds exactly the slot that the address names, whatever its entry is, even one without a
      type; and nothing exactly if the address names no slot. */
  lemma LookupExactly(c: Caps, t: Ptr, address: nat)
    requires Wf(c) && t in c.tables
    ensures forall s :: Lookup(c, t, address) == Some(s) <==> Names(c, t, address, s)
    ensures Lookup(c, t, address) == None <==> forall s :: !Names(c, t, address, s)
  {
    forall s ensures Lookup(c, t, address) == Some(s) <==> Names(c, t, address, s) {
      if Names(c, t, address, s) {
        var path :| Spells(c, t, address, s, path);
        SpelledFound(c, t, address, s, path);
      }
      if Lookup(c, t, address) == Some(s) {
        var path := LookupFinds(c, t, address);
        assert Spells(c, t, address, s, path);
      }
    }
    if Lookup(c, t, address).Some? { assert Names(c, t, address, Lookup(c, t, address).value); }
  }

  /** A slot that holds a space cannot be named, unless it is the first of its table: its address
      names the first entry of that space's own table. */
  lemma SpaceSlots(c: Caps, t: Ptr, address: nat)
    requires Wf(c) && SelfOk(c) && t in c.tables && Lookup(c, t, address).Some?
    ensures var s := Lookup(c, t, address).value; s.index == 0 <==> EntryAt(c, s).kind == CAP_SPACE
  {
    var path := LookupFinds(c, t, address);
    assert SelfEntry(c, Lookup(c, t, address).value.table);
  }

  /** The number of base-256 digits of an address. */
  function Digits(address: nat): nat {
    if address == 0 then 0 else 1 + Digits(address / ENTRIES)
  }

  lemma DigitsOfWord(address: Word)
    ensures Digits(address) <= 4
  {
    var a := address / ENTRIES;
    var b := a / ENTRIES;
    var d := b / ENTRIES;
    assert a < 0x100_0000 && b < 0x1_0000 && d < 0x100;
    assert d / ENTRIES == 0 && Digits(d) <= 1;
    assert Digits(b) <= 2 && Digits(a) <= 3;
  }

  // ---------------------------------------------------------------- operations

  /** The first entry without a type, from `i` on; ENTRIES if there is none. */
  function FirstNone(entries: seq<Entry>, i: nat): (r: nat)
    requires i <= |entries|
    ensures i <= r <= |entries|
    ensures forall j :: i <= j < r ==> entries[j].kind != NONE
    ensures r < |entries| ==> entries[r].kind == NONE
    decreases |entries| - i
  {
    if i == |entries| || entries[i].kind == NONE then i else FirstNone(entries, i + 1)
  }

  /** The first entry of the page that the entry is in leads to a space. */
  predicate Rooted(c: Caps, s: Slot)
    requires IsSlot(c, s)
  {
    c.tables[s.table][0].target in c.spaces
  }

  /** src/capability.c:152-161: the first entry of the table of the space named by the first entry of
      the page that the entry is in. */
  function RootEntry(c: Caps, s: Slot): Entry
    requires Wf(c) && IsSlot(c, s) && Rooted(c, s)
  {
    var t := c.spaces[c.tables[s.table][0].target];
    assert WfTable(c, t);
    c.tables[t][0]
  }

  /** src/capability.c:69-77 and 213-224 */
  function Insert(c: Caps, space: Ptr, e: Entry): (r: (Caps, nat))
    requires Wf(c) && space in c.spaces
  {
    var t := c.spaces[space];
    assert WfTable(c, t);
    var i := FirstNone(c.tables[t], 0);
    if !Has(c.tables[t][0].permissions, MODIFY) || i == ENTRIES then (c, INVALID_OBJECT)
    else (Write(c, Slot(t, i), e), i)
  }

  /** The slot that an address names in a space, if its table may be changed. */
  function Writable(c: Caps, space: Ptr, address: nat): (r: Option<Slot>)
    requires Wf(c) && space in c.spaces
    ensures r.Some? ==> IsSlot(c, r.value)
  {
    var s := Lookup(c, c.spaces[space], address);
    if s.Some? && Rooted(c, s.value) && Has(RootEntry(c, s.value).permissions, MODIFY) then s else None
  }

  /** src/capability.c:79-101 */
  function Replace(c: Caps, space: Ptr, address: nat, e: Entry): (r: (Caps, bool))
    requires Wf(c) && space in c.spaces
  {
    var s := Writable(c, space, address);
    if s.None? then (c, false) else (Write(c, s.value, e), true)
  }

  /** src/capability.c:103-119 */
  function Remove(c: Caps, space: Ptr, address: nat): (r: (Caps, bool))
    requires Wf(c) && space in c.spaces
  {
    var s := Writable(c, space, address);
    if s.None? then (c, false) else (Write(c, s.value, EntryAt(c, s.value).(kind := NONE)), true)
  }

  /** src/capability.c:121-147 */
  function Restrict(c: Caps, space: Ptr, address: nat, permissions: Word): (r: (Caps, bool))
    requires Wf(c) && space in c.spaces
  {
    var s := Writable(c, space, address);
    if s.None? || !Covers(EntryAt(c, s.value).permissions, permissions) then (c, false)
    else (Write(c, s.value, EntryAt(c, s.value).(permissions := permissions)), true)
  }

  /** src/capability.c:55-67; the permissions argument has no effect. */
  function Share(c: Caps, source: Ptr, dest: Ptr, address: nat): (r: (Caps, nat))
    requires Wf(c) && source in c.spaces && dest in c.spaces
  {
    var s := Lookup(c, c.spaces[source], address);
    if s.None? || !Has(EntryAt(c, s.value).permissions, SHARE) then (c, INVALID_OBJECT)
    else Insert(c, dest, EntryAt(c, s.value))
  }

  /** The zeroed page, with the first entry written. */
  function NewTable(space: Ptr): seq<Entry> {
    [Entry(CAP_SPACE, ALL, space)] + seq(ENTRIES - 1, _ => Entry(NONE, 0, NULL))
  }

  /** src/capability.c:19-43, for the space and the page that the allocators returned; the page is zeroed. */
  function Create(c: Caps, space: Ptr, page: Ptr): (r: Caps)
    requires space !in c.spaces && page !in c.tables
  {
    Caps(c.tables[page := NewTable(space)], c.spaces[space := page])
  }

  // ---------------------------------------------------------------- what the operations do

  /** The table of the space that the first entry of the slot's table names has CAP_MODIFY in its own
      first entry. */
  ghost predicate Changeable(c: Caps, s: Slot)
    requires IsSlot(c, s)
  {
    && c.tables[s.table][0].target in c.spaces
    && var t := c.spaces[c.tables[s.table][0].target];
       t in c.tables && c.tables[t] != [] && Bit(c.tables[t][0].permissions, 1)
  }

  /** The slot that an operation on `address` changes. */
  ghost predicate Changes(c: Caps, space: Ptr, address: nat, s: Slot)
    requires Wf(c) && space in c.spaces
  {
    Names(c, c.spaces[space], address, s) && IsSlot(c, s) && Changeable(c, s)
  }

  lemma WritableExactly(c: Caps, space: Ptr, address: nat)
    requires Wf(c) && space in c.spaces
    ensures forall s :: Writable(c, space, address) == Some(s) <==> Changes(c, space, address, s)
    ensures Writable(c, space, address) == None <==> forall s :: !Changes(c, space, address, s)
  {
    LookupExactly(c, c.spaces[space], address);
    var r := Lookup(c, c.spaces[space], address);
    if r.Some? && Rooted(c, r.value) {
      var t := c.spaces[c.tables[r.value.table][0].target];
      assert WfTable(c, t);
      HasFlags(c.tables[t][0].permissions);
    }
    forall s ensures Writable(c, space, address) == Some(s) <==> Changes(c, space, address, s) {
      assert Names(c, c.spaces[space], address, s) <==> r == Some(s);
    }
    if Writable(c, space, address).Some? { assert Changes(c, space, address, Writable(c, space, address).value); }
  }

  /** Replacing, removing and restricting write exactly the slot that the address names, and exactly if
      it may be changed; restricting only if the entry has all the permissions asked for. */
  lemma OpsExactly(c: Caps, space: Ptr, address: nat, e: Entry, permissions: Word)
    requires Wf(c) && space in c.spaces
    ensures forall s :: Changes(c, space, address, s) ==>
              && Replace(c, space, address, e) == (Write(c, s, e), true)
              && Remove(c, space, address) ==
                 (Write(c, s, Entry(0, EntryAt(c, s).permissions, EntryAt(c, s).target)), true)
              && Restrict(c, space, address, permissions) ==
                 if AllBits(permissions, EntryAt(c, s).permissions)
                 then (Write(c, s, Entry(EntryAt(c, s).kind, permissions, EntryAt(c, s).target)), true) else (c, false)
    ensures (forall s :: !Changes(c, space, address, s)) ==>
              && Replace(c, space, address, e) == (c, false) && Remove(c, space, address) == (c, false)
              && Restrict(c, space, address, permissions) == (c, false)
  {
    WritableExactly(c, space, address);
    var w := Writable(c, space, address);
    if w.Some? { CoversBits(EntryAt(c, w.value).permissions, permissions); }
  }

  /** Every bit of `q` is set in `p`. */
  ghost predicate AllBits(q: Word, p: Word) {
    forall o :: 0 <= o < BPS && Bit(q, o) ==> Bit(p, o)
  }

  /** `i` is the first slot without a type. */
  ghost predicate FirstFreeSlot(entries: seq<Entry>, i: nat) {
    i < |entries| && entries[i].kind == 0 && forall j :: 0 <= j < i ==> entries[j].kind != 0
  }

  /** Inserting writes exactly the first slot without a type, and exactly if the table's first entry has
      CAP_MODIFY; else nothing, and 0 is returned. */
  lemma InsertExactly(c: Caps, space: Ptr, e: Entry)
    requires Wf(c) && space in c.spaces
    ensures var t := c.spaces[space];
            && t in c.tables && |c.tables[t]| == ENTRIES
            && (forall i: nat :: FirstFreeSlot(c.tables[t], i) && Bit(c.tables[t][0].permissions, 1) ==>
                  Insert(c, space, e) == (Write(c, Slot(t, i), e), i))
            && ((forall i: nat :: !FirstFreeSlot(c.tables[t], i)) || !Bit(c.tables[t][0].permissions, 1) ==>
                  Insert(c, space, e) == (c, 0))
  {
    var t := c.spaces[space];
    assert WfTable(c, t);
    HasFlags(c.tables[t][0].permissions);
    var n := FirstNone(c.tables[t], 0);
    if n < ENTRIES { assert FirstFreeSlot(c.tables[t], n); }
    forall i: nat | FirstFreeSlot(c.tables[t], i) ensures i == n { }
  }

  /** Sharing inserts a copy of the named entry, exactly if there is one and it has CAP_SHARE. */
  lemma ShareExactly(c: Caps, source: Ptr, dest: Ptr, address: nat)
    requires Wf(c) && source in c.spaces && dest in c.spaces
    ensures forall s :: Names(c, c.spaces[source], address, s) && IsSlot(c, s) ==>
              Share(c, source, dest, address) ==
              if Bit(EntryAt(c, s).permissions, 2) then Insert(c, dest, EntryAt(c, s)) else (c, 0)
    ensures (forall s :: !Names(c, c.spaces[source], address, s)) ==> Share(c, source, dest, address) == (c, 0)
  {
    LookupExactly(c, c.spaces[source], address);
    var s := Lookup(c, c.spaces[source], address);
    if s.Some? { HasFlags(EntryAt(c, s.value).permissions); }
  }

  // ---------------------------------------------------------------- runs

  datatype Op =
    | DoInsert(space: Ptr, entry: Entry)
    | DoReplace(space: Ptr, address: nat, entry: Entry)
    | DoRemove(space: Ptr, address: nat)
    | DoRestrict(space: Ptr, address: nat, permissions: Word)
    | DoShare(space: Ptr, dest: Ptr, address: nat)
    | DoCreate(space: Ptr, page: Ptr)

  ghost predicate Callable(c: Caps, op: Op) {
    if op.DoCreate? then op.space !in c.spaces && op.page !in c.tables && op.space != NULL
    else op.space in c.spaces && (op.DoShare? ==> op.dest in c.spaces)
  }

  function Apply(c: Caps, op: Op): (r: Caps)
    requires Wf(c) && Callable(c, op)
  {
    match op
    case DoInsert(space, entry) => Insert(c, space, entry).0
    case DoReplace(space, address, entry) => Replace(c, space, address, entry).0
    case DoRemove(space, address) => Remove(c, space, address).0
    case DoRestrict(space, address, permissions) => Restrict(c, space, address, permissions).0
    case DoShare(space, dest, address) => Share(c, space, dest, address).0
    case DoCreate(space, page) => Create(c, space, page)
  }

  /** The operation follows a pointer that does not lead to a space. */
  predicate Strays(c: Caps, op: Op)
    requires Wf(c) && Callable(c, op)
  {
    match op
    case DoInsert(_, _) => false
    case DoCreate(_, _) => false
    case DoShare(space, _, address) => Astray(c, c.spaces[space], address)
    case _ =>
      var s := Lookup(c, c.spaces[op.space], op.address);
      Astray(c, c.spaces[op.space], op.address) || (s.Some? && !Rooted(c, s.value))
  }

  lemma ApplyWf(c: Caps, op: Op)
    requires Wf(c) && Callable(c, op)
    ensures Wf(Apply(c, op)) && forall s :: s in c.spaces ==> s in Apply(c, op).spaces
  {
    forall t ensures WfTable(Apply(c, op), t) { assert WfTable(c, t); }
  }

  /** A run in which the code follows no pointer astray. */
  ghost predicate Runs(c: Caps, ops: seq<Op>, c': Caps)
    decreases |ops|
  {
    if ops == [] then c' == c
    else Wf(c) && Callable(c, ops[0]) && !Strays(c, ops[0]) && Runs(Apply(c, ops[0]), ops[1..], c')
  }

  /** The table's first entry names its own space and does not have CAP_MODIFY. */
  ghost predicate Frozen(c: Caps, t: Ptr) {
    SelfEntry(c, t) && !Has(c.tables[t][0].permissions, MODIFY)
  }

  /** A table whose own first entry lacks CAP_MODIFY is not written to through any space or path. */
  lemma FrozenNotWritable(c: Caps, t: Ptr, space: Ptr, address: nat)
    requires Wf(c) && Frozen(c, t) && space in c.spaces
    ensures Writable(c, space, address).Some? ==> Writable(c, space, address).value.table != t
  {
  }

  lemma FrozenStep(c: Caps, op: Op, t: Ptr)
    requires Wf(c) && Callable(c, op) && Frozen(c, t)
    ensures Frozen(Apply(c, op), t) && Apply(c, op).tables[t] == c.tables[t]
  {
    if op.DoReplace? || op.DoRemove? || op.DoRestrict? { FrozenNotWritable(c, t, op.space, op.address); }
  }

  /** Frozen tables stay frozen: no run of any operations, through any spaces and paths and with any
      entries, changes a slot of the table. */
  lemma {:induction false} FrozenForever(c: Caps, ops: seq<Op>, c': Caps, t: Ptr)
    requires Runs(c, ops, c') && Frozen(c, t)
    ensures Frozen(c', t) && c'.tables[t] == c.tables[t]
    decreases |ops|
  {
    if ops != [] {
      FrozenStep(c, ops[0], t);
      FrozenForever(Apply(c, ops[0]), ops[1..], c', t);
    }
  }

  // ---------------------------------------------------------------- self entries

  /** An entry that names a space names one that exists. */
  ghost predicate Sound(c: Caps, op: Op) {
    op.DoInsert? || op.DoReplace? ==> op.entry.kind == CAP_SPACE ==> op.entry.target in c.spaces
  }

  /** The operation does not replace or remove an entry by naming a space, except by an entry for
      the same table. */
  ghost predicate SparesSelf(c: Caps, op: Op)
    requires Wf(c) && Callable(c, op)
  {
    if op.DoReplace? || op.DoRemove? then
      var s := Writable(c, op.space, op.address);
      || s.None? || EntryAt(c, s.value).kind != CAP_SPACE
      || (op.DoReplace? && op.entry.kind == CAP_SPACE && op.entry.target in c.spaces
          && c.spaces[op.entry.target] == s.value.table)
    else true
  }

  lemma WriteSelf(c: Caps, s: Slot, e: Entry)
    requires Wf(c) && SelfOk(c) && IsSlot(c, s)
    ensures SelfOk(Write(c, s, e)) <==>
            s.index != 0 || (e.kind == CAP_SPACE && e.target in c.spaces && c.spaces[e.target] == s.table)
  {
    var c' := Write(c, s, e);
    forall t | t != s.table && t in c.tables ensures SelfEntry(c', t) { assert SelfEntry(c, t); }
    assert SelfEntry(c, s.table);
    assert SelfOk(c') <==> SelfEntry(c', s.table);
  }

  /** A write leaves every pointer leading to a space exactly if the entry written does, the type of
      the entry allowing for it. */
  lemma WriteWhole(c: Caps, s: Slot, e: Entry)
    requires Wf(c) && Whole(c) && IsSlot(c, s)
    ensures Whole(Write(c, s, e)) <==> (s.index == 0 || e.kind == CAP_SPACE ==> e.target in c.spaces)
  {
    var c' := Write(c, s, e);
    forall t | t != s.table ensures WholeTable(c', t) { assert WholeTable(c, t); }
    assert WholeTable(c, s.table);
    if s.index == 0 || e.kind == CAP_SPACE ==> e.target in c.spaces {
      assert WholeTable(c', s.table);
    } else {
      assert c'.tables[s.table][s.index] == e;
      assert !WholeTable(c', s.table);
    }
  }

  lemma CreateOk(c: Caps, space: Ptr, page: Ptr)
    requires Wf(c) && space !in c.spaces && page !in c.tables && space != NULL
    ensures Wf(Create(c, space, page)) && (SelfOk(c) ==> SelfOk(Create(c, space, page)))
    ensures Whole(c) ==> Whole(Create(c, space, page))
  {
    var c' := Create(c, space, page);
    forall t ensures WfTable(c', t) && (SelfOk(c) && t in c'.tables ==> SelfEntry(c', t)) {
      assert WfTable(c, t) && (SelfOk(c) && t in c.tables ==> SelfEntry(c, t));
    }
    if Whole(c) {
      forall t ensures WholeTable(c', t) { assert WholeTable(c, t); }
    }
  }

  /** Inserting never reaches the first slot, so that 0 is returned exactly if nothing was inserted. */
  lemma InsertOk(c: Caps, space: Ptr, e: Entry)
    requires Wf(c) && SelfOk(c) && space in c.spaces
    ensures SelfOk(Insert(c, space, e).0)
    ensures Whole(c) && (e.kind == CAP_SPACE ==> e.target in c.spaces) ==> Whole(Insert(c, space, e).0)
    ensures var (c', i) := Insert(c, space, e);
            var t := c.spaces[space];
            if i == INVALID_OBJECT then c' == c
            else
              && i < ENTRIES && IsSlot(c, Slot(t, i)) && EntryAt(c, Slot(t, i)).kind == NONE
              && c' == Write(c, Slot(t, i), e)
  {
    var t := c.spaces[space];
    assert WfTable(c, t) && SelfEntry(c, t);
    var i := FirstNone(c.tables[t], 0);
    if i < ENTRIES {
      WriteSelf(c, Slot(t, i), e);
      if Whole(c) { WriteWhole(c, Slot(t, i), e); }
    }
  }

  /** The self entries survive an operation exactly if it spares them. */
  lemma SelfStep(c: Caps, op: Op)
    requires Wf(c) && SelfOk(c) && Callable(c, op)
    ensures SelfOk(Apply(c, op)) <==> SparesSelf(c, op)
  {
    match op
    case DoInsert(space, entry) => InsertOk(c, space, entry);
    case DoCreate(space, page) => CreateOk(c, space, page);
    case DoShare(space, dest, address) => {
      var s := Lookup(c, c.spaces[space], address);
      if s.Some? { InsertOk(c, dest, EntryAt(c, s.value)); }
    }
    case DoReplace(space, address, entry) => WritableSelf(c, space, address, entry);
    case DoRemove(space, address) => WritableSelf(c, space, address, Entry(NONE, 0, NULL));
    case DoRestrict(space, address, permissions) => WritableSelf(c, space, address, Entry(NONE, permissions, NULL));
  }

  lemma WritableSelf(c: Caps, space: Ptr, address: nat, e: Entry)
    requires Wf(c) && SelfOk(c) && space in c.spaces
    ensures var s := Writable(c, space, address);
            s.Some? ==>
              && (s.value.index == 0 <==> EntryAt(c, s.value).kind == CAP_SPACE)
              && (SelfOk(Write(c, s.value, EntryAt(c, s.value).(kind := NONE))) <==> s.value.index != 0)
              && SelfOk(Write(c, s.value, EntryAt(c, s.value).(permissions := e.permissions)))
              && (SelfOk(Write(c, s.value, e)) <==>
                    || s.value.index != 0
                    || (e.kind == CAP_SPACE && e.target in c.spaces && c.spaces[e.target] == s.value.table))
  {
    var s := Writable(c, space, address);
    if s.Some? {
      SpaceSlots(c, c.spaces[space], address);
      assert SelfEntry(c, s.value.table);
      var was := EntryAt(c, s.value);
      WriteSelf(c, s.value, e);
      WriteSelf(c, s.value, was.(kind := NONE));
      WriteSelf(c, s.value, was.(permissions := e.permissions));
    }
  }

  /** Every pointer still leads to a space after an operation that spares the self entries and brings
      in no entry whose pointer does not. */
  lemma WholeStep(c: Caps, op: Op)
    requires Wf(c) && SelfOk(c) && Whole(c) && Callable(c, op) && SparesSelf(c, op) && Sound(c, op)
    ensures Whole(Apply(c, op))
  {
    match op
    case DoInsert(space, entry) => InsertOk(c, space, entry);
    case DoCreate(space, page) => CreateOk(c, space, page);
    case DoShare(space, dest, address) => {
      var s := Lookup(c, c.spaces[space], address);
      if s.Some? {
        assert WholeTable(c, s.value.table);
        InsertOk(c, dest, EntryAt(c, s.value));
      }
    }
    case _ => {
      var s := Writable(c, op.space, op.address);
      if s.Some? {
        assert WholeTable(c, s.value.table) && SelfEntry(c, s.value.table);
        SpaceSlots(c, c.spaces[op.space], op.address);
        WriteWhole(c, s.value, Written(c, s.value, op));
      }
    }
  }

  /** What the operation makes of the entry that it names. */
  ghost function Written(c: Caps, s: Slot, op: Op): Entry
    requires IsSlot(c, s)
  {
    match op
    case DoReplace(_, _, entry) => entry
    case DoRemove(_, _) => EntryAt(c, s).(kind := NONE)
    case DoRestrict(_, _, permissions) => EntryAt(c, s).(permissions := permissions)
    case _ => EntryAt(c, s)
  }

  /** Where every pointer leads to a space, no operation goes astray. */
  lemma WholeKeepsTo(c: Caps, op: Op)
    requires Wf(c) && Whole(c) && Callable(c, op)
    ensures !Strays(c, op)
  {
    if !op.DoInsert? && !op.DoCreate? {
      WholeLookup(c, c.spaces[op.space], op.address);
      var s := Lookup(c, c.spaces[op.space], op.address);
      if s.Some? { assert WholeTable(c, s.value.table); }
    }
  }

  /** The operations are called with spaces that exist, and spare the self entries. */
  ghost predicate Sparing(c: Caps, ops: seq<Op>)
    decreases |ops|
  {
    ops == [] ||
    (Wf(c) && Callable(c, ops[0]) && Sound(c, ops[0]) && SparesSelf(c, ops[0]) && Sparing(Apply(c, ops[0]), ops[1..]))
  }

  ghost function End(c: Caps, ops: seq<Op>): Caps
    requires Sparing(c, ops)
    decreases |ops|
  {
    if ops == [] then c else End(Apply(c, ops[0]), ops[1..])
  }

  /** Operations that spare the self entries never go astray, and all tables keep theirs. */
  lemma {:induction false} SelfForever(c: Caps, ops: seq<Op>)
    requires Wf(c) && SelfOk(c) && Whole(c) && Sparing(c, ops)
    ensures Runs(c, ops, End(c, ops)) && Wf(End(c, ops)) && SelfOk(End(c, ops)) && Whole(End(c, ops))
    decreases |ops|
  {
    if ops != [] {
      WholeKeepsTo(c, ops[0]);
      SelfStep(c, ops[0]);
      WholeStep(c, ops[0]);
      ApplyWf(c, ops[0]);
      SelfForever(Apply(c, ops[0]), ops[1..]);
    }
  }

  /** Naming a space in order to remove it removes the self entry of that space's table. */
  lemma RemovingSpace(c: Caps, space: Ptr, i: nat, t: Ptr, t': Ptr)
    requires Wf(c) && SelfOk(c) && space in c.spaces && 0 < i < ENTRIES && t == c.spaces[space] && IsSlot(c, Slot(t, i))
    requires EntryAt(c, Slot(t, i)).kind == CAP_SPACE && EntryAt(c, Slot(t, i)).target in c.spaces
    requires c.spaces[EntryAt(c, Slot(t, i)).target] == t' && IsSlot(c, Slot(t', 0))
    requires Has(EntryAt(c, Slot(t', 0)).permissions, MODIFY)
    ensures var (c', done) := Remove(c, space, i);
            && done && !SelfOk(c') && IsSlot(c', Slot(t', 0)) && EntryAt(c', Slot(t', 0)).kind == NONE
            && (t' != t ==> c'.tables[t] == c.tables[t])
  {
    assert WfTable(c, t) && SelfEntry(c, t) && WfTable(c, t') && SelfEntry(c, t');
    assert Lookup(c, t', 0) == Some(Slot(t', 0));
    assert Lookup(c, t, i) == Some(Slot(t', 0));
    assert !SelfEntry(Remove(c, space, i).0, t');
  }
}
