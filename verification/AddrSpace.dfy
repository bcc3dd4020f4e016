/** Address spaces and physical frames (src/mm/addrspace.c:34-212).  Spaces are numbered in the order in
    which they were made; page tables are not part of this model. */
module AddrSpace {
  import opened Pointers
  import opened AddrMap

  datatype Frame = Frame(address: nat, size: nat, flags: nat, mappings: nat)

  type Frames = map<Ptr, Frame>

  datatype Mem = Mem(frames: Frames, maps: seq<seq<Entry>>)

  function SizesOf(frames: Frames): Sizes {
    map f | f in frames :: frames[f].size
  }

  // ---------------------------------------------------------------- operations

  /** src/mm/addrspace.c:174-185: the count of mappings has 32 bits and wraps; the assertion that it is
      not 0 before it is lowered only prints. */
  function Raised(fr: Frame): Frame {
    fr.(mappings := (fr.mappings + 1) % WRAP)
  }

  function Lowered(fr: Frame): Frame {
    fr.(mappings := (fr.mappings + (WRAP - 1)) % WRAP)
  }

  /** src/mm/addrspace.c:103-125: the frame counts as mapped even if the map is full. */
  function InsertMap(frames: Frames, s: seq<Entry>, ent: Entry): (Frames, seq<Entry>)
    requires ent.frame in frames
  {
    (frames[ent.frame := Raised(frames[ent.frame])], if |s| >= CAPACITY then s else Placed(s, ent))
  }

  /** src/mm/addrspace.c:88-101 and 127-150 */
  function Unmap(frames: Frames, s: seq<Entry>, address: nat): (Frames, seq<Entry>, bool)
    requires var i := Find(SizesOf(frames), s, address, 0); i < |s| ==> s[i].frame in frames
  {
    var i := Find(SizesOf(frames), s, address, 0);
    if i == |s| then (frames, s, false)
    else (frames[s[i].frame := Lowered(frames[s[i].frame])], Removed(s, i), true)
  }

  /** src/mm/addrspace.c:187-212 */
  function Split(frames: Frames, f: Ptr, offset: nat, made: Ptr): (Frames, bool)
    requires f in frames && made !in frames
  {
    var fr := frames[f];
    if fr.mappings != 0 || offset == 0 || offset >= fr.size then (frames, false)
    else
      var high := Frame(fr.address + offset * 4096, fr.size - offset, fr.flags, 0);
      (frames[made := high][f := fr.(size := offset)], true)
  }

  datatype Action =
    | DoMap(space: nat, ent: Entry)
    | DoUnmap(space: nat, address: nat)
    | DoSplit(frame: Ptr, offset: nat, made: Ptr)
    | DoClone(space: nat)
    | DoFrame(made: Ptr, start: nat, size: nat, flags: nat)

  ghost predicate Enabled(m: Mem, a: Action) {
    match a
    case DoMap(space, ent) => space < |m.maps| && ent.frame in m.frames
    case DoUnmap(space, address) =>
      && space < |m.maps|
      && var s := m.maps[space]; var i := Find(SizesOf(m.frames), s, address, 0);
         i < |s| ==> s[i].frame in m.frames
    case DoSplit(f, _, made) => f in m.frames && made !in m.frames
    case DoClone(space) => space < |m.maps|
    case DoFrame(made, _, _, _) => made !in m.frames
  }

  function Step(m: Mem, a: Action): (m': Mem)
    requires Enabled(m, a)
  {
    match a
    case DoMap(space, ent) =>
      var (frames, s) := InsertMap(m.frames, m.maps[space], ent);
      Mem(frames, m.maps[space := s])
    case DoUnmap(space, address) =>
      var (frames, s, _) := Unmap(m.frames, m.maps[space], address);
      Mem(frames, m.maps[space := s])
    case DoSplit(f, offset, made) => m.(frames := Split(m.frames, f, offset, made).0)
    // src/mm/addrspace.c:34-53: the entries are copied, their frames not counted again
    case DoClone(space) => m.(maps := m.maps + [m.maps[space]])
    // src/mm/addrspace.c:162-172
    case DoFrame(made, start, size, flags) => m.(frames := m.frames[made := Frame(start, size, flags, 0)])
  }

  // ---------------------------------------------------------------- what mapping and unmapping do

  /** Only the frame `f` has changed, and only in its count, which is `n` modulo 2^32. */
  ghost predicate Counts(frames: Frames, frames': Frames, f: Ptr, n: int) {
    && f in frames && frames'.Keys == frames.Keys
    && frames'[f].address == frames[f].address && frames'[f].size == frames[f].size
    && frames'[f].flags == frames[f].flags && frames'[f].mappings == n % 0x1_0000_0000
    && forall g :: g in frames && g != f ==> frames'[g] == frames[g]
  }

  /** The frame of the entry is counted once more; the entry stands behind all with addresses no larger
      and before all with larger ones, and the others keep their order, unless the map was full. */
  ghost predicate Entered(frames: Frames, frames': Frames, s: seq<Entry>, s': seq<Entry>, ent: Entry) {
    forall z {:trigger Inside(z)} :: Inside(z) ==>
      && ent.frame in frames && Counts(frames, frames', ent.frame, frames[ent.frame].mappings + 1)
      && (|s| >= 340 ==> s' == s)
      && (|s| < 340 ==>
            exists p: nat ::
              && p <= |s| && s' == s[..p] + [ent] + s[p..]
              && (forall j :: 0 <= j < p ==> s[j].addr <= ent.addr) && (p < |s| ==> ent.addr < s[p].addr))
  }

  lemma InsertExactly(frames: Frames, s: seq<Entry>, ent: Entry)
    requires ent.frame in frames
    ensures var (frames', s') := InsertMap(frames, s, ent); Entered(frames, frames', s, s', ent)
  {
    assert Inside(0);
    var p := Place(s, ent.addr, 0);
    assert Placed(s, ent) == s[..p] + [ent] + s[p..];
  }

  /** `i` is the first entry whose range, up to its end modulo 2^32, has the address in it. */
  ghost predicate FirstWith(frames: Frames, s: seq<Entry>, address: nat, i: nat) {
    && i < |s| && Covered(frames, s[i], address)
    && forall j :: 0 <= j < i ==> !Covered(frames, s[j], address)
  }

  ghost predicate Covered(frames: Frames, e: Entry, address: nat) {
    e.frame in frames && e.addr <= address < (e.addr + frames[e.frame].size * 4096) % 0x1_0000_0000
  }

  /** Something is unmapped exactly if an entry has the address: the first such entry goes, its frame is
      counted off once, and the other entries and frames are as before; otherwise all is as before. */
  ghost predicate Left(frames: Frames, frames': Frames, s: seq<Entry>, s': seq<Entry>, address: nat, done: bool) {
    forall z {:trigger Inside(z)} :: Inside(z) ==>
      && (done <==> exists i: nat :: FirstWith(frames, s, address, i))
      && (!done ==> frames' == frames && s' == s)
      && forall i: nat :: FirstWith(frames, s, address, i) ==>
           && s' == s[..i] + s[i + 1..] && s[i].frame in frames
           && Counts(frames, frames', s[i].frame, frames[s[i].frame].mappings - 1)
  }

  lemma UnmapExactly(frames: Frames, s: seq<Entry>, address: nat)
    requires var i := Find(SizesOf(frames), s, address, 0); i < |s| ==> s[i].frame in frames
    ensures var (frames', s', done) := Unmap(frames, s, address); Left(frames, frames', s, s', address, done)
  {
    assert Inside(0);
    var n := Find(SizesOf(frames), s, address, 0);
    forall j | 0 <= j < |s| ensures Contains(SizesOf(frames), s[j], address) <==> Covered(frames, s[j], address) { }
    if n < |s| {
      assert FirstWith(frames, s, address, n);
      LoweredCount(frames[s[n].frame]);
    }
    forall i: nat | FirstWith(frames, s, address, i) ensures i == n { }
  }

  lemma LoweredCount(fr: Frame)
    ensures Lowered(fr).mappings == (fr.mappings - 1) % 0x1_0000_0000
  {
    assert fr.mappings + (WRAP - 1) == (fr.mappings - 1) + WRAP;
  }

  /** Mapping a frame, and unmapping it by its first address, which no other entry has, gives back the map
      and the counts. */
  lemma MapUnmap(frames: Frames, s: seq<Entry>, ent: Entry)
    requires ent.frame in frames && frames[ent.frame].mappings < WRAP && |s| < CAPACITY
    requires Covered(frames, ent, ent.addr) && forall i :: 0 <= i < |s| ==> !Covered(frames, s[i], ent.addr)
    ensures var (frames1, s1) := InsertMap(frames, s, ent);
            && (var i := Find(SizesOf(frames1), s1, ent.addr, 0); i < |s1| ==> s1[i].frame in frames1)
            && Unmap(frames1, s1, ent.addr) == (frames, s, true)
  {
    var (frames1, s1) := InsertMap(frames, s, ent);
    assert SizesOf(frames1) == SizesOf(frames);
    PlacedFound(SizesOf(frames), s, ent);
    PlacedRemoved(s, ent);
    var fr := frames[ent.frame];
    RaisedLowered(fr);
    assert frames1[ent.frame := fr] == frames;
  }

  lemma PlacedFound(sizes: Sizes, s: seq<Entry>, ent: Entry)
    requires Contains(sizes, ent, ent.addr) && forall i :: 0 <= i < |s| ==> !Contains(sizes, s[i], ent.addr)
    ensures Find(sizes, Placed(s, ent), ent.addr, 0) == Place(s, ent.addr, 0) < |Placed(s, ent)|
    ensures Placed(s, ent)[Place(s, ent.addr, 0)] == ent
  {
    var p, r := Place(s, ent.addr, 0), Placed(s, ent);
    PlacedAt(s, ent, p, ent);
    OnlyFound(sizes, r, ent.addr, p);
  }

  lemma OnlyFound(sizes: Sizes, r: seq<Entry>, address: nat, p: nat)
    requires p < |r| && forall j :: 0 <= j < |r| ==> (Contains(sizes, r[j], address) <==> j == p)
    ensures Find(sizes, r, address, 0) == p
  {
    var n := Find(sizes, r, address, 0);
    assert Contains(sizes, r[p], address);
    assert n < |r| ==> Contains(sizes, r[n], address);
  }

  lemma RaisedLowered(fr: Frame)
    requires fr.mappings < WRAP
    ensures Lowered(Raised(fr)) == fr
  {
    if fr.mappings + 1 < WRAP {
      assert Raised(fr).mappings == fr.mappings + 1;
      LoweredCount(Raised(fr));
    } else {
      assert Raised(fr).mappings == 0;
    }
  }

  // ---------------------------------------------------------------- counting

  /** How many entries of a map name the frame. */
  function CountIn(s: seq<Entry>, f: Ptr): nat {
    if s == [] then 0 else (if s[0].frame == f then 1 else 0) + CountIn(s[1..], f)
  }

  /** How many entries of all maps do. */
  function Count(maps: seq<seq<Entry>>, f: Ptr): nat {
    if maps == [] then 0 else CountIn(maps[0], f) + Count(maps[1..], f)
  }

  lemma {:induction false} CountInConcat(a: seq<Entry>, b: seq<Entry>, f: Ptr)
    ensures CountIn(a + b, f) == CountIn(a, f) + CountIn(b, f)
  {
    if a == [] {
      assert a + b == b;
    } else {
      assert (a + b)[1..] == a[1..] + b;
      CountInConcat(a[1..], b, f);
    }
  }

  lemma CountPlaced(s: seq<Entry>, e: Entry, f: Ptr)
    ensures CountIn(Placed(s, e), f) == CountIn(s, f) + if e.frame == f then 1 else 0
  {
    var p := Place(s, e.addr, 0);
    assert s == s[..p] + s[p..];
    CountInConcat(s[..p], s[p..], f);
    CountInConcat(s[..p], [e], f);
    CountInConcat(s[..p] + [e], s[p..], f);
  }

  lemma CountRemoved(s: seq<Entry>, i: nat, f: Ptr)
    requires i < |s|
    ensures CountIn(s, f) == CountIn(Removed(s, i), f) + if s[i].frame == f then 1 else 0
  {
    assert s == s[..i] + [s[i]] + s[i + 1..];
    CountInConcat(s[..i], [s[i]], f);
    CountInConcat(s[..i] + [s[i]], s[i + 1..], f);
    CountInConcat(s[..i], s[i + 1..], f);
  }

  lemma {:induction false} CountUpdate(maps: seq<seq<Entry>>, i: nat, s: seq<Entry>, f: Ptr)
    requires i < |maps|
    ensures Count(maps[i := s], f) == Count(maps, f) - CountIn(maps[i], f) + CountIn(s, f)
    decreases |maps|
  {
    if i == 0 {
      assert maps[i := s][1..] == maps[1..];
    } else {
      assert maps[i := s][1..] == maps[1..][i - 1 := s];
      CountUpdate(maps[1..], i - 1, s, f);
    }
  }

  lemma {:induction false} CountAppend(maps: seq<seq<Entry>>, s: seq<Entry>, f: Ptr)
    ensures Count(maps + [s], f) == Count(maps, f) + CountIn(s, f)
  {
    if maps == [] {
      assert maps + [s] == [s] && [s][1..] == [];
    } else {
      assert (maps + [s])[1..] == maps[1..] + [s];
      CountAppend(maps[1..], s, f);
    }
  }

  lemma {:induction false} CountInPositive(s: seq<Entry>, i: nat)
    requires i < |s|
    ensures CountIn(s, s[i].frame) > 0
  {
    if i > 0 { CountInPositive(s[1..], i - 1); }
  }

  lemma {:induction false} CountInZero(s: seq<Entry>, f: Ptr)
    requires forall i :: 0 <= i < |s| ==> s[i].frame != f
    ensures CountIn(s, f) == 0
  {
    if s != [] { CountInZero(s[1..], f); }
  }

  lemma {:induction false} CountBounds(maps: seq<seq<Entry>>, i: nat, f: Ptr)
    requires i < |maps|
    ensures CountIn(maps[i], f) <= Count(maps, f)
  {
    if i > 0 { CountBounds(maps[1..], i - 1, f); }
  }

  lemma {:induction false} CountZero(maps: seq<seq<Entry>>, frames: Frames, f: Ptr)
    requires f !in frames && forall i :: 0 <= i < |maps| ==> Known(maps[i], frames)
    ensures Count(maps, f) == 0
  {
    if maps != [] {
      assert Known(maps[0], frames);
      CountInZero(maps[0], f);
      CountZero(maps[1..], frames, f);
    }
  }

  // ---------------------------------------------------------------- the invariant

  ghost predicate Known(s: seq<Entry>, frames: Frames) {
    forall i :: 0 <= i < |s| ==> s[i].frame in frames
  }

  ghost predicate MapOk(s: seq<Entry>, frames: Frames) {
    Sorted(s) && |s| <= CAPACITY && Known(s, frames)
  }

  ghost predicate Counted(m: Mem, f: Ptr) {
    f in m.frames ==> m.frames[f].mappings == Count(m.maps, f) && m.frames[f].mappings < WRAP
  }

  /** Maps are sorted, and each frame's count of mappings is the number of entries that name it. */
  ghost predicate Inv(m: Mem) {
    && (forall i :: 0 <= i < |m.maps| ==> MapOk(m.maps[i], m.frames))
    && forall f :: Counted(m, f)
  }

  /** The map has room and the count does not wrap, or the map to be copied is empty. */
  ghost predicate Countable(m: Mem, a: Action)
    requires Enabled(m, a)
  {
    match a
    case DoMap(space, ent) => |m.maps[space]| < CAPACITY && m.frames[ent.frame].mappings + 1 < WRAP
    case DoClone(space) => m.maps[space] == []
    case _ => true
  }

  lemma PlacedOk(s: seq<Entry>, frames: Frames, frames': Frames, ent: Entry)
    requires MapOk(s, frames) && |s| < CAPACITY && ent.frame in frames && frames.Keys == frames'.Keys
    ensures MapOk(Placed(s, ent), frames')
  {
    PlacedSorted(s, ent);
    PlacedAt(s, ent, Place(s, ent.addr, 0), ent);
  }

  lemma RaisedCount(fr: Frame)
    requires fr.mappings < WRAP
    ensures Raised(fr).mappings != fr.mappings && (Raised(fr).mappings == fr.mappings + 1 <==> fr.mappings + 1 < WRAP)
    ensures fr.mappings > 0 ==> Lowered(fr).mappings == fr.mappings - 1
  {
    if fr.mappings > 0 {
      assert fr.mappings + (WRAP - 1) == (fr.mappings - 1) + WRAP;
      assert ((fr.mappings - 1) + WRAP) % WRAP == fr.mappings - 1;
    }
  }

  lemma MapStep(m: Mem, space: nat, ent: Entry)
    requires Inv(m) && Enabled(m, DoMap(space, ent))
    ensures Inv(Step(m, DoMap(space, ent))) <==> |m.maps[space]| < CAPACITY && m.frames[ent.frame].mappings + 1 < WRAP
  {
    var m' := Step(m, DoMap(space, ent));
    var s := m.maps[space];
    assert MapOk(s, m.frames);
    assert Counted(m, ent.frame);
    RaisedCount(m.frames[ent.frame]);
    if |s| < CAPACITY {
      CountPlaced(s, ent, ent.frame);
      CountUpdate(m.maps, space, Placed(s, ent), ent.frame);
    }
    if |s| < CAPACITY && m.frames[ent.frame].mappings + 1 < WRAP {
      PlacedOk(s, m.frames, m'.frames, ent);
      forall i | 0 <= i < |m'.maps| ensures MapOk(m'.maps[i], m'.frames) { assert MapOk(m.maps[i], m.frames); }
      forall f ensures Counted(m', f) {
        assert Counted(m, f);
        CountPlaced(s, ent, f);
        CountUpdate(m.maps, space, Placed(s, ent), f);
      }
    } else {
      assert |s| >= CAPACITY ==> m'.maps == m.maps;
      assert !Counted(m', ent.frame);
    }
  }

  lemma UnmapStep(m: Mem, space: nat, address: nat)
    requires Inv(m) && space < |m.maps|
    ensures Enabled(m, DoUnmap(space, address)) && Inv(Step(m, DoUnmap(space, address)))
    ensures var s := m.maps[space];
            var i := Find(SizesOf(m.frames), s, address, 0);
            i < |s| ==> m.frames[s[i].frame].mappings > 0
  {
    var s := m.maps[space];
    assert MapOk(s, m.frames);
    var i := Find(SizesOf(m.frames), s, address, 0);
    if i < |s| {
      CountInPositive(s, i);
      CountBounds(m.maps, space, s[i].frame);
      assert Counted(m, s[i].frame);
      RaisedCount(m.frames[s[i].frame]);
      var m' := Step(m, DoUnmap(space, address));
      RemovedSorted(s, i);
      forall j | 0 <= j < |m'.maps| ensures MapOk(m'.maps[j], m'.frames) { assert MapOk(m.maps[j], m.frames); }
      forall f ensures Counted(m', f) {
        assert Counted(m, f);
        CountRemoved(s, i, f);
        CountUpdate(m.maps, space, Removed(s, i), f);
      }
    } else {
      assert m.maps[space := s] == m.maps;
    }
  }

  lemma SplitStep(m: Mem, f: Ptr, offset: nat, made: Ptr)
    requires Inv(m) && Enabled(m, DoSplit(f, offset, made))
    ensures Inv(Step(m, DoSplit(f, offset, made)))
  {
    var m' := Step(m, DoSplit(f, offset, made));
    forall i | 0 <= i < |m.maps| ensures MapOk(m'.maps[i], m'.frames) && Known(m.maps[i], m.frames) {
      assert MapOk(m.maps[i], m.frames);
    }
    forall g ensures Counted(m', g) {
      assert Counted(m, g);
      if g == made { CountZero(m.maps, m.frames, made); }
    }
  }

  lemma FrameStep(m: Mem, made: Ptr, fr: Frame)
    requires Inv(m) && made !in m.frames && fr.mappings == 0
    ensures Inv(m.(frames := m.frames[made := fr]))
  {
    var m' := m.(frames := m.frames[made := fr]);
    forall i | 0 <= i < |m.maps| ensures MapOk(m'.maps[i], m'.frames) && Known(m.maps[i], m.frames) {
      assert MapOk(m.maps[i], m.frames);
    }
    forall g ensures Counted(m', g) {
      assert Counted(m, g);
      if g == made { CountZero(m.maps, m.frames, made); }
    }
  }

  lemma CloneStep(m: Mem, space: nat)
    requires Inv(m) && space < |m.maps|
    ensures Inv(Step(m, DoClone(space))) <==> m.maps[space] == []
  {
    var s := m.maps[space];
    var m' := Step(m, DoClone(space));
    assert MapOk(s, m.frames);
    if s == [] {
      forall i | 0 <= i < |m'.maps| ensures MapOk(m'.maps[i], m'.frames) {
        if i < |m.maps| { assert MapOk(m.maps[i], m.frames); }
      }
      forall f ensures Counted(m', f) {
        assert Counted(m, f);
        CountAppend(m.maps, s, f);
      }
    } else {
      var f := s[0].frame;
      CountInPositive(s, 0);
      CountAppend(m.maps, s, f);
      assert Counted(m, f) && !Counted(m', f);
    }
  }

  /** The counts stay right exactly if no full map is inserted into, no count wraps, and no map with
      entries is cloned. */
  lemma StepInv(m: Mem, a: Action)
    requires Inv(m) && Enabled(m, a)
    ensures Inv(Step(m, a)) <==> Countable(m, a)
  {
    match a
    case DoMap(space, ent) => MapStep(m, space, ent);
    case DoUnmap(space, address) => UnmapStep(m, space, address);
    case DoSplit(f, offset, made) => SplitStep(m, f, offset, made);
    case DoClone(space) => CloneStep(m, space);
    case DoFrame(made, start, size, flags) => FrameStep(m, made, Frame(start, size, flags, 0));
  }

  ghost predicate Runs(m: Mem, acts: seq<Action>, m': Mem)
    decreases |acts|
  {
    if acts == [] then m' == m
    else Enabled(m, acts[0]) && Runs(Step(m, acts[0]), acts[1..], m')
  }

  ghost predicate AllCountable(m: Mem, acts: seq<Action>)
    decreases |acts|
  {
    acts == [] || (Enabled(m, acts[0]) && Countable(m, acts[0]) && AllCountable(Step(m, acts[0]), acts[1..]))
  }

  /** Over any run that neither inserts into a full map nor clones one with entries, each frame's
      count is the number of entries that name it. */
  lemma {:induction false} RunInv(m: Mem, acts: seq<Action>, m': Mem)
    requires Inv(m) && Runs(m, acts, m') && AllCountable(m, acts)
    ensures Inv(m')
    decreases |acts|
  {
    if acts != [] {
      StepInv(m, acts[0]);
      RunInv(Step(m, acts[0]), acts[1..], m');
    }
  }

  // ---------------------------------------------------------------- extents

  /** The frame is named by an entry of some map. */
  ghost predicate Mapped(m: Mem, space: nat, i: nat) {
    space < |m.maps| && i < |m.maps[space]| && m.maps[space][i].frame in m.frames
  }

  /** A frame that an entry names cannot be split, and no step changes where it is or how long. */
  lemma ExtentFixed(m: Mem, a: Action, space: nat, i: nat)
    requires Inv(m) && Enabled(m, a) && Mapped(m, space, i)
    ensures var f := m.maps[space][i].frame;
            && f in Step(m, a).frames
            && Step(m, a).frames[f].address == m.frames[f].address && Step(m, a).frames[f].size == m.frames[f].size
            && (a.DoSplit? && a.frame == f ==> Step(m, a) == m)
  {
    var f := m.maps[space][i].frame;
    CountInPositive(m.maps[space], i);
    CountBounds(m.maps, space, f);
    assert Counted(m, f);
  }

  // ---------------------------------------------------------------- pages

  /** The frame holds the page that begins at `p`. */
  ghost predicate Holds(fr: Frame, p: nat) {
    p >= fr.address && (p - fr.address) % 4096 == 0 && (p - fr.address) / 4096 < fr.size
  }

  ghost predicate Apart(frames: Frames) {
    forall f, g, p {:trigger Holds(frames[f], p), Holds(frames[g], p)} ::
      f in frames && g in frames && Holds(frames[f], p) && Holds(frames[g], p) ==> f == g
  }

  ghost function Pages(frames: Frames): iset<nat> {
    iset p: nat, f | f in frames && Holds(frames[f], p) :: p
  }

  lemma SplitHolds(fr: Frame, offset: nat, p: nat)
    requires offset < fr.size
    ensures var low, high := fr.(size := offset), Frame(fr.address + offset * 4096, fr.size - offset, fr.flags, 0);
            && (Holds(fr, p) <==> Holds(low, p) || Holds(high, p))
            && !(Holds(low, p) && Holds(high, p))
  {
    if p >= fr.address + offset * 4096 {
      var d := p - fr.address;
      assert d - offset * 4096 == p - (fr.address + offset * 4096);
      assert (d - offset * 4096) % 4096 == d % 4096;
      assert (d - offset * 4096) / 4096 == d / 4096 - offset;
    } else if p >= fr.address {
      assert (p - fr.address) / 4096 < offset;
    }
  }

  /** The two parts share the pages of the frame between them. */
  lemma SplitPages(frames: Frames, f: Ptr, offset: nat, made: Ptr)
    requires f in frames && made !in frames && Apart(frames)
    ensures Apart(Split(frames, f, offset, made).0) && Pages(Split(frames, f, offset, made).0) == Pages(frames)
  {
    var frames' := Split(frames, f, offset, made).0;
    if frames' != frames {
      forall p: nat
        ensures Holds(frames[f], p) <==> Holds(frames'[f], p) || Holds(frames'[made], p)
        ensures !(Holds(frames'[f], p) && Holds(frames'[made], p))
      {
        SplitHolds(frames[f], offset, p);
      }
      forall g, h, p | g in frames' && h in frames' && Holds(frames'[g], p) && Holds(frames'[h], p) ensures g == h {
        var g', h' := if g == made then f else g, if h == made then f else h;
        assert Holds(frames[g'], p) && Holds(frames[h'], p);
      }
      forall p: nat ensures p in Pages(frames) <==> p in Pages(frames') {
        if p in Pages(frames) {
          var g :| g in frames && Holds(frames[g], p);
          assert Holds(frames'[if g == f && Holds(frames'[made], p) then made else g], p);
        }
        if p in Pages(frames') {
          var g :| g in frames' && Holds(frames'[g], p);
          assert Holds(frames[if g == made then f else g], p);
        }
      }
    }
  }

  lemma SameExtents(frames: Frames, frames': Frames)
    requires frames.Keys == frames'.Keys && Apart(frames)
    requires forall f :: f in frames ==> frames'[f].address == frames[f].address && frames'[f].size == frames[f].size
    ensures Apart(frames') && Pages(frames') == Pages(frames)
  {
    forall f, p | f in frames ensures Holds(frames'[f], p) <==> Holds(frames[f], p) { }
    forall g, h, p | g in frames' && h in frames' && Holds(frames'[g], p) && Holds(frames'[h], p) ensures g == h {
      assert Holds(frames[g], p) && Holds(frames[h], p);
    }
  }

  /** None of the new frame's pages is in a frame. */
  ghost predicate Clear(frames: Frames, fr: Frame) {
    forall p: nat :: Holds(fr, p) ==> p !in Pages(frames)
  }

  ghost function MadeFrame(a: Action): Frame
    requires a.DoFrame?
  {
    Frame(a.start, a.size, a.flags, 0)
  }

  /** Frames stay apart when one is made, exactly if its pages were in none. */
  lemma FramePages(frames: Frames, made: Ptr, fr: Frame)
    requires made !in frames && Apart(frames)
    ensures Apart(frames[made := fr]) <==> Clear(frames, fr)
    ensures Pages(frames[made := fr]) == Pages(frames) + iset p: nat | Holds(fr, p)
  {
    var frames' := frames[made := fr];
    if Apart(frames') {
      forall p: nat | Holds(fr, p) ensures p !in Pages(frames) {
        forall f | f in frames ensures !Holds(frames[f], p) {
          assert Holds(frames'[made], p) && (Holds(frames'[f], p) <==> Holds(frames[f], p));
        }
      }
    }
    if Clear(frames, fr) {
      forall g, h, p | g in frames' && h in frames' && Holds(frames'[g], p) && Holds(frames'[h], p) ensures g == h {
        assert forall f :: f in frames && Holds(frames[f], p) ==> p in Pages(frames);
        if g != made && h != made { assert Holds(frames[g], p) && Holds(frames[h], p); }
      }
    }
    forall p: nat ensures p in Pages(frames') <==> p in Pages(frames) || Holds(fr, p) {
      if p in Pages(frames) {
        var g :| g in frames && Holds(frames[g], p);
        assert Holds(frames'[g], p);
      }
      if Holds(fr, p) { assert Holds(frames'[made], p); }
    }
  }

  /** A step keeps each page in one frame exactly if it makes none, or one of pages that are in no
      frame; it adds the pages of the frame it makes, and no others. */
  lemma StepPages(m: Mem, a: Action)
    requires Enabled(m, a) && Apart(m.frames)
    ensures Apart(Step(m, a).frames) <==> (a.DoFrame? ==> Clear(m.frames, MadeFrame(a)))
    ensures Pages(Step(m, a).frames) == Pages(m.frames) + iset p: nat | a.DoFrame? && Holds(MadeFrame(a), p)
  {
    if a.DoSplit? {
      SplitPages(m.frames, a.frame, a.offset, a.made);
    } else if a.DoFrame? {
      FramePages(m.frames, a.made, MadeFrame(a));
    } else {
      SameExtents(m.frames, Step(m, a).frames);
    }
  }

  ghost predicate AllClear(m: Mem, acts: seq<Action>)
    decreases |acts|
  {
    acts == [] ||
    (Enabled(m, acts[0]) && (acts[0].DoFrame? ==> Clear(m.frames, MadeFrame(acts[0])))
     && AllClear(Step(m, acts[0]), acts[1..]))
  }

  /** The pages of the frames made. */
  ghost function MadePages(acts: seq<Action>): iset<nat> {
    iset p: nat, a | a in acts && a.DoFrame? && Holds(MadeFrame(a), p) :: p
  }

  /** Whatever is split, mapped, unmapped and cloned, in any run: each page is in exactly one frame, and
      the pages are those there were at first and those of the frames made, which were in none. */
  lemma {:induction false} RunPages(m: Mem, acts: seq<Action>, m': Mem)
    requires Runs(m, acts, m') && Apart(m.frames) && AllClear(m, acts)
    ensures Apart(m'.frames) && Pages(m'.frames) == Pages(m.frames) + MadePages(acts)
    decreases |acts|
  {
    if acts != [] {
      var n := Step(m, acts[0]);
      StepPages(m, acts[0]);
      RunPages(n, acts[1..], m');
      MadeFirst(acts);
    }
  }

  lemma MadeFirst(acts: seq<Action>)
    requires acts != []
    ensures MadePages(acts) == (iset p: nat | acts[0].DoFrame? && Holds(MadeFrame(acts[0]), p)) + MadePages(acts[1..])
  {
    forall p: nat
      ensures p in MadePages(acts) <==> (acts[0].DoFrame? && Holds(MadeFrame(acts[0]), p)) || p in MadePages(acts[1..])
    {
      if p in MadePages(acts) {
        var a :| a in acts && a.DoFrame? && Holds(MadeFrame(a), p);
        assert a == acts[0] || a in acts[1..];
      }
      if acts[0].DoFrame? && Holds(MadeFrame(acts[0]), p) { var a := acts[0]; assert a in acts; }
      if p in MadePages(acts[1..]) {
        var a :| a in acts[1..] && a.DoFrame? && Holds(MadeFrame(a), p);
        assert a in acts;
      }
    }
  }

  // ---------------------------------------------------------------- in place

  class Memory {
    var frames: Frames

    constructor ()
      ensures frames == map[]
    {
      frames := map[];
    }

    /** src/mm/addrspace.c:162-172 */
    method FrameCreate(made: Ptr, address: nat, size: nat, flags: nat)
      requires made !in frames
      modifies this
      ensures frames == old(frames)[made := Frame(address, size, flags, 0)]
    {
      frames := frames[made := Frame(address, size, flags, 0)];
    }

    /** src/mm/addrspace.c:187-212; `made` is the address the slab allocator returned.  A split is
        refused while the frame is mapped, and unless it leaves two parts that are not empty.  Each
        page of the frame is then in one of the parts, and the other frames are as before. */
    method FrameSplit(f: Ptr, offset: nat, made: Ptr) returns (done: bool)
      requires f in frames && made !in frames
      modifies this
      ensures (frames, done) == Split(old(frames), f, offset, made)
      ensures done <==> old(frames)[f].mappings == 0 && 0 < offset < old(frames)[f].size
      ensures !done ==> frames == old(frames)
      ensures done ==>
                && frames.Keys == old(frames).Keys + {made} && frames[f].size > 0 && frames[made].size > 0
                && frames[f].size == offset && frames[made].flags == frames[f].flags == old(frames)[f].flags
                && frames[f].mappings == frames[made].mappings == 0
                && (forall g :: g in old(frames) && g != f ==> frames[g] == old(frames)[g])
                && forall p: nat :: if Holds(old(frames)[f], p) then Holds(frames[f], p) != Holds(frames[made], p)
                                    else !Holds(frames[f], p) && !Holds(frames[made], p)
      ensures Apart(old(frames)) ==> Apart(frames) && Pages(frames) == Pages(old(frames))
    {
      forall p: nat | offset < frames[f].size { SplitHolds(frames[f], offset, p); }
      if Apart(frames) { SplitPages(frames, f, offset, made); }
      var phys := frames[f];
      if phys.mappings != 0 || offset == 0 || offset >= phys.size {
        return false;
      }
      FrameCreate(made, phys.address + offset * 4096, phys.size - offset, phys.flags);
      frames := frames[f := phys.(size := offset)];
      done := true;
    }

    /** src/mm/addrspace.c:103-125 */
    method SpaceInsertMap(space: Map, ent: Entry)
      requires space.Valid() && ent.frame in frames
      modifies this, space, space.slots
      ensures space.Valid() && (frames, space.Contents()) == InsertMap(old(frames), old(space.Contents()), ent)
      ensures Entered(old(frames), frames, old(space.Contents()), space.Contents(), ent)
    {
      InsertExactly(frames, space.Contents(), ent);
      frames := frames[ent.frame := frames[ent.frame].(mappings := (frames[ent.frame].mappings + 1) % WRAP)];
      var _ := space.Insert(ent);
    }

    /** src/mm/addrspace.c:88-101 and 127-150 */
    method SpaceUnmap(space: Map, address: nat, beyond: Entry) returns (done: bool)
      requires space.Valid()
      requires var s := space.Contents(); var i := Find(SizesOf(frames), s, address, 0);
               i < |s| ==> s[i].frame in frames
      modifies this, space, space.slots
      ensures space.Valid() && (frames, space.Contents(), done) == Unmap(old(frames), old(space.Contents()), address)
      ensures Left(old(frames), frames, old(space.Contents()), space.Contents(), address, done)
    {
      UnmapExactly(frames, space.Contents(), address);
      var i := space.Lookup(address, SizesOf(frames));
      if i < 0 {
        return false;
      }
      var f := space.slots[i].frame;
      frames := frames[f := frames[f].(mappings := (frames[f].mappings + (WRAP - 1)) % WRAP)];
      space.Remove(i, beyond);
      done := true;
    }
  }
}
