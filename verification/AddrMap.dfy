/** The address map of src/mm/addrspace.c:216-340: a page of entries, sorted by address. */
module AddrMap {
  import opened Pointers

  /** PAGE_SIZE / sizeof( addr_entry_t ) - 1 */
  const CAPACITY: nat := 340

  /** Addresses have 32 bits. */
  const WRAP: nat := 0x1_0000_0000

  datatype Entry = Entry(addr: nat, frame: Ptr, permissions: nat)

  type Sizes = map<Ptr, nat>

  ghost predicate Sorted(s: seq<Entry>) {
    forall i, j :: 0 <= i < j < |s| ==> s[i].addr <= s[j].addr
  }

  /** The first entry beyond `addr`, from `i` on. */
  function Place(s: seq<Entry>, addr: nat, i: nat): (p: nat)
    requires i <= |s|
    ensures i <= p <= |s|
    ensures forall j :: i <= j < p ==> s[j].addr <= addr
    ensures p < |s| ==> addr < s[p].addr
    decreases |s| - i
  {
    if i == |s| || addr < s[i].addr then i else Place(s, addr, i + 1)
  }

  /** The map with an entry put before the first one beyond it, so after all entries for its address. */
  function Placed(s: seq<Entry>, e: Entry): seq<Entry> {
    var p := Place(s, e.addr, 0);
    s[..p] + [e] + s[p..]
  }

  function Removed(s: seq<Entry>, i: nat): seq<Entry>
    requires i < |s|
  {
    s[..i] + s[i + 1..]
  }

  lemma PlacedAt(s: seq<Entry>, e: Entry, p: nat, z: Entry)
    requires p <= |s|
    ensures var r := s[..p] + [e] + s[p..];
            && |r| == |s| + 1 && r[p] == e && (forall j :: 0 <= j < p ==> r[j] == s[j])
            && (forall j :: p < j < |r| ==> r[j] == s[j - 1])
            && r[..p] + r[p + 1..] == s && (s[..p] + [z] + s[p..])[p := e] == r
  {
  }

  /** Taking the entry out again gives back the map. */
  lemma PlacedRemoved(s: seq<Entry>, e: Entry)
    ensures |Placed(s, e)| == |s| + 1 && Removed(Placed(s, e), Place(s, e.addr, 0)) == s
  {
    PlacedAt(s, e, Place(s, e.addr, 0), e);
  }

  lemma Spread(s: seq<Entry>, r: seq<Entry>, p: nat, i: nat, j: nat)
    requires |r| == |s| + 1 && p <= |s| && Sorted(s) && i < j < |r|
    requires forall k :: 0 <= k < p ==> r[k] == s[k] && s[k].addr <= r[p].addr
    requires forall k :: p < k < |r| ==> r[k] == s[k - 1]
    requires p < |s| ==> r[p].addr < s[p].addr
    ensures r[i].addr <= r[j].addr
  {
    if i == p { assert p == j - 1 || s[p].addr <= s[j - 1].addr; }
  }

  /** A map is sorted exactly if it is with the entry placed. */
  lemma PlacedSorted(s: seq<Entry>, e: Entry)
    ensures Sorted(s) <==> Sorted(Placed(s, e))
  {
    var p, r := Place(s, e.addr, 0), Placed(s, e);
    if Sorted(s) {
      PlacedAt(s, e, p, e);
      forall i, j | 0 <= i < j < |r| ensures r[i].addr <= r[j].addr { Spread(s, r, p, i, j); }
    }
    if Sorted(r) {
      PlacedRemoved(s, e);
      RemovedSorted(r, p);
    }
  }

  lemma RemovedSorted(s: seq<Entry>, i: nat)
    requires i < |s| && Sorted(s)
    ensures Sorted(Removed(s, i))
  {
  }

  /** src/mm/addrspace.c:291-294: the end of the entry's range wraps around. */
  predicate Contains(sizes: Sizes, e: Entry, address: nat) {
    e.frame in sizes && e.addr <= address < (e.addr + sizes[e.frame] * 4096) % WRAP
  }

  /** An entry contains the addresses of its range exactly if the range ends below 4 GiB; one that
      reaches the end is never found. */
  lemma ContainsExactly(sizes: Sizes, e: Entry, address: nat)
    requires e.frame in sizes && sizes[e.frame] * 4096 <= WRAP && e.addr < WRAP
    ensures Contains(sizes, e, address) <==> e.addr <= address < e.addr + sizes[e.frame] * 4096 < WRAP
  {
    var end := e.addr + sizes[e.frame] * 4096;
    if end >= WRAP {
      assert end % WRAP == (end - WRAP) % WRAP;
      assert end - WRAP <= e.addr;
      assert (end - WRAP) % WRAP == end - WRAP;
    } else {
      assert end % WRAP == end;
    }
  }

  /** The first entry that contains the address, from `i` on; the length if there is none. */
  function Find(sizes: Sizes, s: seq<Entry>, address: nat, i: nat): (r: nat)
    requires i <= |s|
    ensures i <= r <= |s|
    ensures forall j :: i <= j < r ==> !Contains(sizes, s[j], address)
    ensures r < |s| ==> Contains(sizes, s[r], address)
    decreases |s| - i
  {
    if i == |s| || Contains(sizes, s[i], address) then i else Find(sizes, s, address, i + 1)
  }

  lemma Shifted(s: seq<Entry>, r: seq<Entry>, p: nat)
    requires |r| == |s| + 1 && p <= |s|
    requires (forall j :: 0 <= j < p ==> r[j] == s[j]) && forall j :: p < j < |r| ==> r[j] == s[j - 1]
    ensures r == s[..p] + [r[p]] + s[p..]
  {
  }

  class Map {
    const slots: array<Entry>
    var used: nat

    ghost predicate Valid()
      reads this
    {
      slots.Length == CAPACITY && used <= CAPACITY
    }

    ghost function Contents(): seq<Entry>
      requires Valid()
      reads this, slots
    {
      slots[..used]
    }

    /** src/mm/addrspace.c:216-232 */
    constructor ()
      ensures Valid() && Contents() == [] && fresh(slots)
    {
      slots := new Entry[CAPACITY](_ => Entry(0, NULL, 0));
      used := 0;
    }

    /** src/mm/addrspace.c:269-276 */
    method ShiftUpwards(index: nat)
      requires Valid() && index <= used < CAPACITY
      modifies this, slots
      ensures Valid() && Contents() == old(Contents()[..index] + [Entry(0, NULL, 0)] + Contents()[index..])
    {
      ghost var was := slots[..];
      var i := used;
      while i > index
        invariant index <= i <= used == old(used)
        invariant forall j :: 0 <= j < i ==> slots[j] == was[j]
        invariant forall j :: i < j <= used ==> slots[j] == was[j - 1]
      {
        slots[i] := slots[i - 1];
        i := i - 1;
      }
      slots[index] := Entry(0, NULL, 0);
      used := used + 1;
      Shifted(was[..used - 1], slots[..used], index);
    }

    /** src/mm/addrspace.c:278-285.  On a full map the loop reads past the page; whatever it finds
        there does not become part of the map. */
    method ShiftDownwards(index: nat, beyond: Entry)
      requires Valid() && index < used
      modifies this, slots
      ensures Valid() && Contents() == old(Removed(Contents(), index))
    {
      ghost var was := slots[..];
      for i := index to used
        invariant used == old(used)
        invariant forall j :: 0 <= j < index ==> slots[j] == was[j]
        invariant forall j :: index <= j < i && j + 1 < CAPACITY ==> slots[j] == was[j + 1]
        invariant forall j :: i <= j < CAPACITY ==> slots[j] == was[j]
      {
        slots[i] := if i + 1 < CAPACITY then slots[i + 1] else beyond;
      }
      used := used - 1;
    }

    /** src/mm/addrspace.c:314-327: the first entry beyond the address, or -1. */
    method Placement(addr: nat) returns (placement: int)
      requires Valid()
      ensures var p := Place(Contents(), addr, 0); placement == if p == used then -1 else p
    {
      for i := 0 to used
        invariant Place(Contents(), addr, 0) == Place(Contents(), addr, i)
      {
        if addr < slots[i].addr {
          return i;
        }
      }
      return -1;
    }

    /** src/mm/addrspace.c:309-340: where the entry was put, or -1 if the map is full. */
    method Insert(entry: Entry) returns (placement: int)
      requires Valid()
      modifies this, slots
      ensures Valid()
      ensures old(used) == CAPACITY ==> placement == -1 && Contents() == old(Contents())
      ensures old(used) < CAPACITY ==>
                Contents() == Placed(old(Contents()), entry) && placement == Place(old(Contents()), entry.addr, 0)
    {
      if used >= CAPACITY {
        return -1;
      }
      placement := Placement(entry.addr);
      if placement >= 0 {
        PlacedAt(Contents(), entry, placement, Entry(0, NULL, 0));
        ShiftUpwards(placement);
      } else {
        placement := used;
        used := used + 1;
      }
      slots[placement] := entry;
    }

    /** src/mm/addrspace.c:302-307, for the entry at `index`. */
    method Remove(index: nat, beyond: Entry)
      requires Valid() && index < used
      modifies this, slots
      ensures Valid() && Contents() == old(Removed(Contents(), index))
    {
      ShiftDownwards(index, beyond);
    }

    /** src/mm/addrspace.c:287-300: the first entry that contains the address, or -1. */
    method Lookup(address: nat, sizes: Sizes) returns (i: int)
      requires Valid()
      ensures var n := Find(sizes, Contents(), address, 0); i == if n == |Contents()| then -1 else n
    {
      i := 0;
      while i < used
        invariant 0 <= i <= used && Find(sizes, Contents(), address, 0) == Find(sizes, Contents(), address, i)
      {
        if Contains(sizes, slots[i], address) {
          return;
        }
        i := i + 1;
      }
      i := -1;
    }
  }
}
