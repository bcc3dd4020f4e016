/** The system calls on capabilities (src/syscall.c:153-217, 350-364, 622-763) and the receipt of a grant
    (src/message.c:351-374), as steps of a machine.  A granted capability travels in a message that only
    the grant call makes; which receiver gets it, and when, is left open. */
module CapCalls {
  import opened Pointers
  import opened Bitmap
  import opened Capability

  datatype Code = Done | PermissionDenied | InvalidObject | EntityFull

  datatype Checked = Ok(slot: Slot) | Refused(code: Code)

  /** The tables, the space of each thread that has one, and the granted capabilities under way. */
  datatype Kernel = Kernel(caps: Caps, home: map<Ptr, Ptr>, flying: multiset<Entry>)

  /** Threads have spaces that exist. */
  ghost predicate Sane(k: Kernel) {
    Wf(k.caps) && forall t :: t in k.home ==> k.home[t] in k.caps.spaces
  }

  /** src/syscall.c:153-186 */
  function CapCheck(k: Kernel, thread: Ptr, address: nat, kind: nat, permissions: Word): (r: Checked)
    requires Sane(k)
    ensures r.Ok? ==> IsSlot(k.caps, r.slot) && Covers(EntryAt(k.caps, r.slot).permissions, permissions)
    ensures r.Ok? && kind != NONE ==> EntryAt(k.caps, r.slot).kind == kind
  {
    if thread !in k.home then Refused(PermissionDenied)
    else
      var space := k.home[thread];
      assert space in k.caps.spaces;
      var s := Lookup(k.caps, k.caps.spaces[space], address);
      if s.None? then Refused(InvalidObject)
      else
        var e := EntryAt(k.caps, s.value);
        if e.kind != kind && kind != NONE then Refused(InvalidObject)
        else if !Covers(e.permissions, permissions) then Refused(PermissionDenied)
        else Ok(s.value)
  }

  /** What a check answers. */
  function CheckCode(k: Kernel, thread: Ptr, address: nat, kind: nat, permissions: Word): Code
    requires Sane(k)
  {
    var r := CapCheck(k, thread, address, kind, permissions);
    if r.Ok? then Done else r.code
  }

  /** The space that an address names, with the permissions asked for. */
  function SpaceCheck(k: Kernel, thread: Ptr, address: nat, permissions: Word): (r: Option<Ptr>)
    requires Sane(k)
  {
    var a := CapCheck(k, thread, address, CAP_SPACE, permissions);
    if a.Ok? then Some(EntryAt(k.caps, a.slot).target) else None
  }

  /** The check follows a pointer that does not lead to a space. */
  predicate CheckStrays(k: Kernel, thread: Ptr, address: nat)
    requires Sane(k)
  {
    thread in k.home &&
    var space := k.home[thread];
    assert space in k.caps.spaces;
    Astray(k.caps, k.caps.spaces[space], address)
  }

  /** A space is made, at `made`; the creation has failed if that is NULL. */
  datatype Call =
    | Copy(thread: Ptr, src: nat, srcobj: nat, dest: nat, destobj: nat)
    | RemoveCap(thread: Ptr, space: nat, address: nat)
    | RestrictCap(thread: Ptr, space: nat, address: nat, permissions: Word)
    | Grant(thread: Ptr, address: nat, queue: nat, permissions: Word)
    | Receive(thread: Ptr, entry: Entry)
    | CreateSpace(thread: Ptr, made: Ptr, page: Ptr)
    | SetSpace(thread: Ptr, other: nat, space: nat)

  ghost predicate Enabled(k: Kernel, a: Call) {
    match a
    case Receive(_, entry) => entry in k.flying
    case CreateSpace(_, made, page) => made == NULL || (made !in k.caps.spaces && page !in k.caps.tables)
    case _ => true
  }

  /** src/syscall.c:670-694 */
  function CopyCap(k: Kernel, thread: Ptr, src: nat, srcobj: nat, dest: nat, destobj: nat): (Caps, Code)
    requires Sane(k)
  {
    var c := k.caps;
    var a := CapCheck(k, thread, src, CAP_SPACE, MODIFY_SHARE);
    if a.Refused? then (c, a.code) else
    var b := CapCheck(k, thread, dest, CAP_SPACE, MODIFY);
    if b.Refused? then (c, b.code) else
    var d := CapCheck(k, thread, destobj, NONE, 0);
    if d.Refused? then (c, d.code) else
    var s := CapCheck(k, thread, srcobj, NONE, SHARE);
    if s.Refused? then (c, s.code) else
    var space := EntryAt(c, b.slot).target;
    (if space in c.spaces then Replace(c, space, destobj, EntryAt(c, s.slot)).0 else c, Done)
  }

  predicate CopyStrays(k: Kernel, thread: Ptr, src: nat, srcobj: nat, dest: nat, destobj: nat)
    requires Sane(k)
  {
    CheckStrays(k, thread, src) ||
    (CapCheck(k, thread, src, CAP_SPACE, MODIFY_SHARE).Ok? && (CheckStrays(k, thread, dest) ||
    (CapCheck(k, thread, dest, CAP_SPACE, MODIFY).Ok? && (CheckStrays(k, thread, destobj) ||
    (CapCheck(k, thread, destobj, NONE, 0).Ok? && (CheckStrays(k, thread, srcobj) ||
    (CapCheck(k, thread, srcobj, NONE, SHARE).Ok? && WriteStrays(k, SpaceCheck(k, thread, dest, MODIFY), destobj))))))))
  }

  /** The replacement, removal or restriction of an entry follows a pointer astray. */
  predicate WriteStrays(k: Kernel, space: Option<Ptr>, address: nat)
    requires Sane(k)
  {
    space.Some? && (space.value !in k.caps.spaces || Strays(k.caps, DoRemove(space.value, address)))
  }

  /** src/syscall.c:696-711 */
  function RemoveCall(k: Kernel, thread: Ptr, space: nat, address: nat): (Caps, Code)
    requires Sane(k)
  {
    var c := k.caps;
    var a := CapCheck(k, thread, space, CAP_SPACE, MODIFY);
    if a.Refused? then (c, a.code) else
    var b := CapCheck(k, thread, address, NONE, 0);
    if b.Refused? then (c, b.code) else
    var s := EntryAt(c, a.slot).target;
    if s !in c.spaces then (c, Done) else
    var (c', done) := Remove(c, s, address);
    (c', if done then Done else PermissionDenied)
  }

  predicate RemoveStrays(k: Kernel, thread: Ptr, space: nat, address: nat)
    requires Sane(k)
  {
    CheckStrays(k, thread, space) ||
    (CapCheck(k, thread, space, CAP_SPACE, MODIFY).Ok? && (CheckStrays(k, thread, address) ||
    (CapCheck(k, thread, address, NONE, 0).Ok? && WriteStrays(k, SpaceCheck(k, thread, space, MODIFY), address))))
  }

  /** src/syscall.c:713-728 */
  function RestrictCall(k: Kernel, thread: Ptr, space: nat, address: nat, permissions: Word): (Caps, Code)
    requires Sane(k)
  {
    var c := k.caps;
    var a := CapCheck(k, thread, space, CAP_SPACE, MODIFY);
    if a.Refused? then (c, a.code) else
    var s := EntryAt(c, a.slot).target;
    if s !in c.spaces then (c, Done) else
    var (c', done) := Restrict(c, s, address, permissions);
    (c', if done then Done else PermissionDenied)
  }

  predicate RestrictStrays(k: Kernel, thread: Ptr, space: nat, address: nat)
    requires Sane(k)
  {
    CheckStrays(k, thread, space) || WriteStrays(k, SpaceCheck(k, thread, space, MODIFY), address)
  }

  /** `permissions | CAP_SHARE` */
  function OrShare(permissions: Word): (r: Word)
    ensures r == Or(permissions, SHARE)
  {
    WordSize();
    OrBound(permissions, SHARE, BPS);
    Or(permissions, SHARE)
  }

  /** src/syscall.c:734-763, src/message.c:135-146: the capability that the message carries, if any. */
  function GrantCall(k: Kernel, thread: Ptr, address: nat, queue: nat, permissions: Word): (multiset<Entry>, Code)
    requires Sane(k)
  {
    var a := CapCheck(k, thread, queue, SYNC_ENDPOINT, MODIFY);
    if a.Refused? then (k.flying, a.code) else
    var b := CapCheck(k, thread, address, NONE, OrShare(permissions));
    if b.Refused? then (k.flying, b.code) else
    (k.flying + multiset{EntryAt(k.caps, b.slot).(permissions := permissions)}, Done)
  }

  predicate GrantStrays(k: Kernel, thread: Ptr, address: nat, queue: nat)
    requires Sane(k)
  {
    CheckStrays(k, thread, queue) ||
    (CapCheck(k, thread, queue, SYNC_ENDPOINT, MODIFY).Ok? && CheckStrays(k, thread, address))
  }

  /** src/syscall.c:350-364: the thread that an address names gets the space that another names. */
  function SetSpaceCall(k: Kernel, thread: Ptr, other: nat, space: nat): (map<Ptr, Ptr>, Code)
    requires Sane(k)
  {
    var a := CapCheck(k, thread, other, THREAD, MODIFY);
    if a.Refused? then (k.home, a.code) else
    var b := CapCheck(k, thread, space, CAP_SPACE, ACCESS);
    if b.Refused? then (k.home, b.code) else
    var t, s := EntryAt(k.caps, a.slot).target, EntryAt(k.caps, b.slot).target;
    (if s in k.caps.spaces then k.home[t := s] else k.home - {t}, Done)
  }

  /** A thread is left with a pointer that does not lead to a space, and is not NULL. */
  predicate SetSpaceStrays(k: Kernel, thread: Ptr, other: nat, space: nat)
    requires Sane(k)
  {
    CheckStrays(k, thread, other) ||
    (CapCheck(k, thread, other, THREAD, MODIFY).Ok? && (CheckStrays(k, thread, space) ||
    var s := SpaceCheck(k, thread, space, ACCESS);
    s.Some? && s.value !in k.caps.spaces && s.value != NULL))
  }

  /** src/syscall.c:190-217: reserves a slot in the caller's own space. */
  function Reserve(k: Kernel, thread: Ptr): (Caps, nat, Code)
    requires Sane(k)
  {
    if thread !in k.home then (k.caps, 0, PermissionDenied) else
    var space := k.home[thread];
    assert space in k.caps.spaces;
    var t := k.caps.spaces[space];
    assert WfTable(k.caps, t);
    if !Has(k.caps.tables[t][0].permissions, MODIFY) then (k.caps, 0, PermissionDenied) else
    var (c, i) := Insert(k.caps, space, Entry(RESERVED, 0, NULL));
    if i == INVALID_OBJECT then (c, 0, EntityFull) else (c, i, Done)
  }

  lemma ReserveWf(k: Kernel, thread: Ptr)
    requires Sane(k)
    ensures var (c, i, code) := Reserve(k, thread);
            && c.spaces == k.caps.spaces && c.tables.Keys == k.caps.tables.Keys && Wf(c)
            && (code == Done ==> thread in k.home && k.home[thread] in c.spaces)
  {
    var (c, i, code) := Reserve(k, thread);
    forall t ensures WfTable(c, t) { assert WfTable(k.caps, t); }
  }

  /** The tables with the space that was made, if one was. */
  function Made(c: Caps, made: Ptr, page: Ptr): Caps
    requires made == NULL || (made !in c.spaces && page !in c.tables)
  {
    if made == NULL then c else Create(c, made, page)
  }

  lemma MadeOk(c: Caps, made: Ptr, page: Ptr)
    requires Wf(c) && (made == NULL || (made !in c.spaces && page !in c.tables))
    ensures Wf(Made(c, made, page)) && (SelfOk(c) ==> SelfOk(Made(c, made, page)))
    ensures Whole(c) ==> Whole(Made(c, made, page))
    ensures made != NULL ==> made in Made(c, made, page).spaces
    ensures forall s :: s in c.spaces ==>
              s in Made(c, made, page).spaces && Made(c, made, page).spaces[s] == c.spaces[s]
    ensures forall t :: t in c.tables ==>
              t in Made(c, made, page).tables && Made(c, made, page).tables[t] == c.tables[t]
  {
    if made != NULL { CreateOk(c, made, page); }
  }

  /** src/syscall.c:622-641: what src/capability.c:19-43 returned is installed without being looked at. */
  function CreateCall(k: Kernel, thread: Ptr, made: Ptr, page: Ptr): (Caps, Code)
    requires Sane(k) && (made == NULL || (made !in k.caps.spaces && page !in k.caps.tables))
  {
    ReserveWf(k, thread);
    var (c, i, code) := Reserve(k, thread);
    if code != Done then (c, code) else
    MadeOk(c, made, page);
    (Replace(Made(c, made, page), k.home[thread], i, Entry(CAP_SPACE, ALL, made)).0, Done)
  }

  predicate CreateStrays(k: Kernel, thread: Ptr, made: Ptr, page: Ptr)
    requires Sane(k) && (made == NULL || (made !in k.caps.spaces && page !in k.caps.tables))
  {
    ReserveWf(k, thread);
    var (c, i, code) := Reserve(k, thread);
    code == Done && (MadeOk(c, made, page); Strays(Made(c, made, page), DoRemove(k.home[thread], i)))
  }

  function Step(k: Kernel, a: Call): (r: Kernel)
    requires Sane(k) && Enabled(k, a)
  {
    match a
    case Copy(thread, src, srcobj, dest, destobj) => k.(caps := CopyCap(k, thread, src, srcobj, dest, destobj).0)
    case RemoveCap(thread, space, address) => k.(caps := RemoveCall(k, thread, space, address).0)
    case RestrictCap(thread, space, address, permissions) =>
      k.(caps := RestrictCall(k, thread, space, address, permissions).0)
    case Grant(thread, address, queue, permissions) => k.(flying := GrantCall(k, thread, address, queue, permissions).0)
    case Receive(thread, entry) =>
      var flying := k.flying - multiset{entry};
      if thread in k.home then k.(caps := Insert(k.caps, k.home[thread], entry).0, flying := flying)
      else k.(flying := flying)
    case CreateSpace(thread, made, page) => k.(caps := CreateCall(k, thread, made, page).0)
    case SetSpace(thread, other, space) => k.(home := SetSpaceCall(k, thread, other, space).0)
  }

  /** The call follows, or hands out, a pointer that does not lead to a space. */
  predicate CallStrays(k: Kernel, a: Call)
    requires Sane(k) && Enabled(k, a)
  {
    match a
    case Copy(thread, src, srcobj, dest, destobj) => CopyStrays(k, thread, src, srcobj, dest, destobj)
    case RemoveCap(thread, space, address) => RemoveStrays(k, thread, space, address)
    case RestrictCap(thread, space, address, _) => RestrictStrays(k, thread, space, address)
    case Grant(thread, address, queue, _) => GrantStrays(k, thread, address, queue)
    case Receive(_, _) => false
    case CreateSpace(thread, made, page) => CreateStrays(k, thread, made, page)
    case SetSpace(thread, other, space) => SetSpaceStrays(k, thread, other, space)
  }

  /** A run in which the code follows no pointer astray.  Creations may fail in it. */
  ghost predicate Runs(k: Kernel, calls: seq<Call>, k': Kernel)
    decreases |calls|
  {
    if calls == [] then k' == k
    else Sane(k) && Enabled(k, calls[0]) && !CallStrays(k, calls[0]) && Runs(Step(k, calls[0]), calls[1..], k')
  }

  // ---------------------------------------------------------------- where entries come from

  /** `e` may stand at slot `i` of table `t` after a step: it stood there, with no fewer permissions;
      it stood elsewhere with CAP_SHARE; it was granted; it has no permissions and names nothing;
      or it names what the creation of a space returned. */
  ghost predicate Derived(k: Kernel, e: Entry, t: Ptr, i: nat, made: Option<Ptr>) {
    || Kept(k, e, t, i) || Shared(k, e) || e in k.flying
    || (e.permissions == 0 && e.target == NULL)
    || (made == Some(e.target) && e.permissions == ALL)
  }

  ghost predicate Kept(k: Kernel, e: Entry, t: Ptr, i: nat) {
    && IsSlot(k.caps, Slot(t, i)) && EntryAt(k.caps, Slot(t, i)).target == e.target
    && Covers(EntryAt(k.caps, Slot(t, i)).permissions, e.permissions)
  }

  ghost predicate Shared(k: Kernel, e: Entry) {
    exists s :: IsSlot(k.caps, s) && EntryAt(k.caps, s) == e && Covers(e.permissions, SHARE)
  }

  /** What the creation of a space returned, if the call is one. */
  ghost function NewSpace(a: Call): Option<Ptr> {
    if a.CreateSpace? then Some(a.made) else None
  }

  ghost predicate AllDerived(k: Kernel, c: Caps, made: Option<Ptr>) {
    forall t, i {:trigger Slot(t, i)} :: IsSlot(c, Slot(t, i)) ==> Derived(k, EntryAt(c, Slot(t, i)), t, i, made)
  }

  lemma SameDerived(k: Kernel, made: Option<Ptr>)
    requires Sane(k)
    ensures AllDerived(k, k.caps, made)
  {
    forall t, i | IsSlot(k.caps, Slot(t, i)) ensures Kept(k, EntryAt(k.caps, Slot(t, i)), t, i) {
      CoversSelf(EntryAt(k.caps, Slot(t, i)).permissions);
    }
  }

  lemma WriteDerived(k: Kernel, c: Caps, s: Slot, e: Entry, made: Option<Ptr>)
    requires AllDerived(k, c, made) && IsSlot(c, s) && Derived(k, e, s.table, s.index, made)
    ensures AllDerived(k, Write(c, s, e), made)
  {
    var c' := Write(c, s, e);
    forall t, i | IsSlot(c', Slot(t, i)) ensures Derived(k, EntryAt(c', Slot(t, i)), t, i, made) {
      assert IsSlot(c, Slot(t, i));
    }
  }

  lemma MadeDerived(k: Kernel, c: Caps, made: Ptr, page: Ptr)
    requires AllDerived(k, c, Some(made)) && (made == NULL || (made !in c.spaces && page !in c.tables))
    ensures AllDerived(k, Made(c, made, page), Some(made))
  {
    var c' := Made(c, made, page);
    forall t, i | IsSlot(c', Slot(t, i)) ensures Derived(k, EntryAt(c', Slot(t, i)), t, i, Some(made)) {
      if t != page || made == NULL { assert IsSlot(c, Slot(t, i)); }
    }
  }

  /** Every entry after a step comes from one before it. */
  lemma StepDerived(k: Kernel, a: Call)
    requires Sane(k) && Enabled(k, a)
    ensures AllDerived(k, Step(k, a).caps, NewSpace(a))
  {
    SameDerived(k, NewSpace(a));
    match a
    case Copy(thread, src, srcobj, dest, destobj) => CopyDerived(k, thread, src, srcobj, dest, destobj);
    case RemoveCap(thread, space, address) => RemoveDerived(k, thread, space, address);
    case RestrictCap(thread, space, address, permissions) => RestrictDerived(k, thread, space, address, permissions);
    case Grant(_, _, _, _) =>
    case Receive(thread, entry) => if thread in k.home { InsertDerived(k, k.home[thread], entry, None); }
    case CreateSpace(thread, made, page) => CreateCallDerived(k, thread, made, page);
    case SetSpace(_, _, _) =>
  }

  lemma InsertDerived(k: Kernel, space: Ptr, e: Entry, made: Option<Ptr>)
    requires Sane(k) && space in k.caps.spaces && (e in k.flying || (e.permissions == 0 && e.target == NULL))
    ensures AllDerived(k, Insert(k.caps, space, e).0, made)
  {
    SameDerived(k, made);
    var t := k.caps.spaces[space];
    assert WfTable(k.caps, t);
    var i := FirstNone(k.caps.tables[t], 0);
    if i < ENTRIES { WriteDerived(k, k.caps, Slot(t, i), e, made); }
  }

  lemma CopyDerived(k: Kernel, thread: Ptr, src: nat, srcobj: nat, dest: nat, destobj: nat)
    requires Sane(k)
    ensures AllDerived(k, CopyCap(k, thread, src, srcobj, dest, destobj).0, None)
  {
    SameDerived(k, None);
    var b, s := CapCheck(k, thread, dest, CAP_SPACE, MODIFY), CapCheck(k, thread, srcobj, NONE, SHARE);
    if b.Ok? && s.Ok? && EntryAt(k.caps, b.slot).target in k.caps.spaces {
      var w := Writable(k.caps, EntryAt(k.caps, b.slot).target, destobj);
      assert Shared(k, EntryAt(k.caps, s.slot));
      if w.Some? { WriteDerived(k, k.caps, w.value, EntryAt(k.caps, s.slot), None); }
    }
  }

  lemma RemoveDerived(k: Kernel, thread: Ptr, space: nat, address: nat)
    requires Sane(k)
    ensures AllDerived(k, RemoveCall(k, thread, space, address).0, None)
  {
    SameDerived(k, None);
    var a := CapCheck(k, thread, space, CAP_SPACE, MODIFY);
    if a.Ok? && EntryAt(k.caps, a.slot).target in k.caps.spaces {
      var w := Writable(k.caps, EntryAt(k.caps, a.slot).target, address);
      if w.Some? {
        var e := EntryAt(k.caps, w.value);
        CoversSelf(e.permissions);
        assert Kept(k, e.(kind := NONE), w.value.table, w.value.index);
        WriteDerived(k, k.caps, w.value, e.(kind := NONE), None);
      }
    }
  }

  lemma RestrictDerived(k: Kernel, thread: Ptr, space: nat, address: nat, permissions: Word)
    requires Sane(k)
    ensures AllDerived(k, RestrictCall(k, thread, space, address, permissions).0, None)
  {
    SameDerived(k, None);
    var a := CapCheck(k, thread, space, CAP_SPACE, MODIFY);
    if a.Ok? && EntryAt(k.caps, a.slot).target in k.caps.spaces {
      var w := Writable(k.caps, EntryAt(k.caps, a.slot).target, address);
      if w.Some? && Covers(EntryAt(k.caps, w.value).permissions, permissions) {
        var e := EntryAt(k.caps, w.value).(permissions := permissions);
        assert Kept(k, e, w.value.table, w.value.index);
        WriteDerived(k, k.caps, w.value, e, None);
      }
    }
  }

  lemma CreateCallDerived(k: Kernel, thread: Ptr, made: Ptr, page: Ptr)
    requires Sane(k) && (made == NULL || (made !in k.caps.spaces && page !in k.caps.tables))
    ensures AllDerived(k, CreateCall(k, thread, made, page).0, Some(made))
  {
    SameDerived(k, Some(made));
    ReserveWf(k, thread);
    if thread in k.home {
      InsertDerived(k, k.home[thread], Entry(RESERVED, 0, NULL), Some(made));
      var (c, i, code) := Reserve(k, thread);
      if code == Done {
        MadeOk(c, made, page);
        MadeDerived(k, c, made, page);
        var c' := Made(c, made, page);
        var w := Writable(c', k.home[thread], i);
        if w.Some? { WriteDerived(k, c', w.value, Entry(CAP_SPACE, ALL, made), Some(made)); }
      }
    }
  }

  // ---------------------------------------------------------------- permissions over runs

  ghost predicate Within(e: Entry, bound: Ptr -> Word) {
    Covers(bound(e.target), e.permissions)
  }

  /** Every entry, and every capability under way, has only the permissions `bound` allows for its object. */
  ghost predicate Bounded(k: Kernel, bound: Ptr -> Word) {
    && (forall s :: IsSlot(k.caps, s) ==> Within(EntryAt(k.caps, s), bound))
    && forall e :: e in k.flying ==> Within(e, bound)
  }

  lemma DerivedWithin(k: Kernel, e: Entry, t: Ptr, i: nat, made: Option<Ptr>, bound: Ptr -> Word)
    requires Bounded(k, bound) && Derived(k, e, t, i, made) && (made.Some? ==> Covers(bound(made.value), ALL))
    ensures Within(e, bound)
  {
    CoversSelf(bound(e.target));
    if Kept(k, e, t, i) {
      assert Within(EntryAt(k.caps, Slot(t, i)), bound);
      CoversTrans(bound(e.target), EntryAt(k.caps, Slot(t, i)).permissions, e.permissions);
    } else if Shared(k, e) {
      var s :| IsSlot(k.caps, s) && EntryAt(k.caps, s) == e && Covers(e.permissions, SHARE);
      assert Within(EntryAt(k.caps, s), bound);
    }
  }

  /** What a grant puts under way has no permission that the granted entry lacks. */
  lemma GrantFrom(k: Kernel, thread: Ptr, address: nat, queue: nat, permissions: Word, e: Entry)
    requires Sane(k) && e in GrantCall(k, thread, address, queue, permissions).0
    ensures e in k.flying || exists s :: IsSlot(k.caps, s) && EntryAt(k.caps, s).target == e.target
                                         && Covers(EntryAt(k.caps, s).permissions, e.permissions)
                                         && Covers(EntryAt(k.caps, s).permissions, SHARE)
  {
    var b := CapCheck(k, thread, address, NONE, OrShare(permissions));
    if e !in k.flying { CoversShared(EntryAt(k.caps, b.slot).permissions, permissions); }
  }

  lemma BoundedStep(k: Kernel, a: Call, bound: Ptr -> Word)
    requires Sane(k) && Enabled(k, a) && Bounded(k, bound)
    requires a.CreateSpace? ==> Covers(bound(a.made), ALL)
    ensures Bounded(Step(k, a), bound)
  {
    var k' := Step(k, a);
    StepDerived(k, a);
    forall s | IsSlot(k'.caps, s) ensures Within(EntryAt(k'.caps, s), bound) {
      var e := EntryAt(k'.caps, s);
      assert s == Slot(s.table, s.index);
      DerivedWithin(k, e, s.table, s.index, NewSpace(a), bound);
    }
    forall e | e in k'.flying ensures Within(e, bound) {
      if a.Grant? && e !in k.flying {
        GrantFrom(k, a.thread, a.address, a.queue, a.permissions, e);
        var s :| IsSlot(k.caps, s) && EntryAt(k.caps, s).target == e.target
          && Covers(EntryAt(k.caps, s).permissions, e.permissions);
        assert Within(EntryAt(k.caps, s), bound);
        CoversTrans(bound(e.target), EntryAt(k.caps, s).permissions, e.permissions);
      }
    }
  }

  ghost predicate MakesWithin(calls: seq<Call>, bound: Ptr -> Word) {
    forall a :: a in calls && a.CreateSpace? ==> Covers(bound(a.made), ALL)
  }

  /** Permissions are never amplified: over any run, whatever bounds them per object at first bounds
      them for ever; only what the creation of a space returned, NULL if it failed, comes with all
      permissions. */
  lemma {:induction false} NeverAmplified(k: Kernel, calls: seq<Call>, k': Kernel, bound: Ptr -> Word)
    requires Runs(k, calls, k') && Bounded(k, bound) && MakesWithin(calls, bound)
    ensures Bounded(k', bound)
    decreases |calls|
  {
    if calls != [] {
      var a := calls[0];
      assert a in calls;
      BoundedStep(k, a, bound);
      NeverAmplified(Step(k, a), calls[1..], k', bound);
    }
  }

  /** Nobody may pass on the object, and no capability for it is under way. */
  ghost predicate Confined(k: Kernel, x: Ptr) {
    && (forall s :: IsSlot(k.caps, s) && EntryAt(k.caps, s).target == x ==>
        !Covers(EntryAt(k.caps, s).permissions, SHARE))
    && forall e :: e in k.flying ==> e.target != x
  }

  /** The slots that name `x` after a step named it before. */
  ghost predicate NoNewHolder(c: Caps, c': Caps, x: Ptr) {
    forall s :: IsSlot(c', s) && EntryAt(c', s).target == x ==> IsSlot(c, s) && EntryAt(c, s).target == x
  }

  lemma ConfinedStep(k: Kernel, a: Call, x: Ptr)
    requires Sane(k) && Enabled(k, a) && Confined(k, x) && x != NULL && NewSpace(a) != Some(x)
    ensures Confined(Step(k, a), x) && NoNewHolder(k.caps, Step(k, a).caps, x)
  {
    var k' := Step(k, a);
    StepDerived(k, a);
    forall s | IsSlot(k'.caps, s) && EntryAt(k'.caps, s).target == x
      ensures IsSlot(k.caps, s) && EntryAt(k.caps, s).target == x && !Covers(EntryAt(k'.caps, s).permissions, SHARE)
    {
      var e := EntryAt(k'.caps, s);
      assert s == Slot(s.table, s.index);
      assert Derived(k, e, s.table, s.index, NewSpace(a));
      assert Kept(k, e, s.table, s.index);
      if Covers(e.permissions, SHARE) { CoversTrans(EntryAt(k.caps, s).permissions, e.permissions, SHARE); }
    }
    forall e | e in k'.flying ensures e.target != x {
      if a.Grant? { GrantFrom(k, a.thread, a.address, a.queue, a.permissions, e); }
    }
  }

  /** An object that nobody may share stays with those who have it, over any run. */
  lemma {:induction false} StaysConfined(k: Kernel, calls: seq<Call>, k': Kernel, x: Ptr)
    requires Runs(k, calls, k') && Confined(k, x) && x != NULL && forall a :: a in calls ==> NewSpace(a) != Some(x)
    ensures Confined(k', x) && NoNewHolder(k.caps, k'.caps, x)
    decreases |calls|
  {
    if calls != [] {
      var a := calls[0];
      assert a in calls;
      ConfinedStep(k, a, x);
      StaysConfined(Step(k, a), calls[1..], k', x);
    }
  }

  // ---------------------------------------------------------------- calls as table operations

  /** The table operation that a call comes down to, if it passes its checks. */
  function AsOp(k: Kernel, a: Call): (r: Option<Op>)
    requires Sane(k) && Enabled(k, a) && !a.CreateSpace?
    ensures r.Some? ==> Callable(k.caps, r.value) && Step(k, a).caps == Apply(k.caps, r.value)
    ensures r.None? ==> Step(k, a).caps == k.caps
  {
    var c := k.caps;
    match a
    case Copy(thread, src, srcobj, dest, destobj) =>
      if CopyCap(k, thread, src, srcobj, dest, destobj).1 != Done then None else
      var b, s := CapCheck(k, thread, dest, CAP_SPACE, MODIFY), CapCheck(k, thread, srcobj, NONE, SHARE);
      if b.Refused? || s.Refused? || EntryAt(c, b.slot).target !in c.spaces then None
      else Some(DoReplace(EntryAt(c, b.slot).target, destobj, EntryAt(c, s.slot)))
    case RemoveCap(thread, space, address) =>
      var b := CapCheck(k, thread, space, CAP_SPACE, MODIFY);
      var d := CapCheck(k, thread, address, NONE, 0);
      if b.Refused? || d.Refused? || EntryAt(c, b.slot).target !in c.spaces then None
      else Some(DoRemove(EntryAt(c, b.slot).target, address))
    case RestrictCap(thread, space, address, permissions) =>
      var b := CapCheck(k, thread, space, CAP_SPACE, MODIFY);
      if b.Refused? || EntryAt(c, b.slot).target !in c.spaces then None
      else Some(DoRestrict(EntryAt(c, b.slot).target, address, permissions))
    case Grant(_, _, _, _) => None
    case Receive(thread, entry) => if thread in k.home then Some(DoInsert(k.home[thread], entry)) else None
    case SetSpace(_, _, _) => None
  }

  // ---------------------------------------------------------------- frozen tables

  lemma FrozenCall(k: Kernel, a: Call, t: Ptr)
    requires Sane(k) && Enabled(k, a) && Frozen(k.caps, t)
    ensures Frozen(Step(k, a).caps, t) && Step(k, a).caps.tables[t] == k.caps.tables[t]
  {
    if a.CreateSpace? {
      FrozenCreate(k, a.thread, a.made, a.page, t);
    } else if AsOp(k, a).Some? {
      FrozenStep(k.caps, AsOp(k, a).value, t);
    }
  }

  lemma FrozenCreate(k: Kernel, thread: Ptr, made: Ptr, page: Ptr, t: Ptr)
    requires Sane(k) && Frozen(k.caps, t) && (made == NULL || (made !in k.caps.spaces && page !in k.caps.tables))
    ensures var c := CreateCall(k, thread, made, page).0; Frozen(c, t) && c.tables[t] == k.caps.tables[t]
  {
    ReserveWf(k, thread);
    var (c, i, code) := Reserve(k, thread);
    if code == Done {
      MadeOk(c, made, page);
      FrozenNotWritable(Made(c, made, page), t, k.home[thread], i);
    }
  }

  /** No run of system calls changes a frozen table. */
  lemma {:induction false} FrozenCalls(k: Kernel, calls: seq<Call>, k': Kernel, t: Ptr)
    requires Runs(k, calls, k') && Frozen(k.caps, t)
    ensures Frozen(k'.caps, t) && k'.caps.tables[t] == k.caps.tables[t]
    decreases |calls|
  {
    if calls != [] {
      FrozenCall(k, calls[0], t);
      FrozenCalls(Step(k, calls[0]), calls[1..], k', t);
    }
  }

  // ---------------------------------------------------------------- new objects

  /** What the creation of a space returned goes into the slot that was reserved for it, which was
      free. */
  lemma CreateLands(k: Kernel, thread: Ptr, made: Ptr, page: Ptr) returns (i: nat)
    requires Sane(k) && SelfOk(k.caps) && (made == NULL || (made !in k.caps.spaces && page !in k.caps.tables))
    ensures CreateCall(k, thread, made, page).1 == Reserve(k, thread).2
    ensures Reserve(k, thread).2 == Done ==> i == Reserve(k, thread).1
    ensures var (c, code) := CreateCall(k, thread, made, page);
            if code != Done then c == k.caps
            else thread in k.home && k.home[thread] in k.caps.spaces && var t := k.caps.spaces[k.home[thread]];
              && 0 < i < ENTRIES && IsSlot(k.caps, Slot(t, i)) && EntryAt(k.caps, Slot(t, i)).kind == NONE
              && IsSlot(Made(k.caps, made, page), Slot(t, i))
              && c == Write(Made(k.caps, made, page), Slot(t, i), Entry(CAP_SPACE, ALL, made))
  {
    i := 0;
    if thread in k.home {
      var home := k.home[thread];
      assert home in k.caps.spaces;
      var t := k.caps.spaces[home];
      var reserved := Entry(RESERVED, 0, NULL);
      InsertOk(k.caps, home, reserved);
      assert SelfEntry(k.caps, t);
      var (c, n) := Insert(k.caps, home, reserved);
      if Reserve(k, thread).2 == Done {
        i := n;
        ReserveWf(k, thread);
        MadeOk(c, made, page);
        var c' := Made(c, made, page);
        assert SelfEntry(c', t) && IsSlot(c', Slot(t, i));
        assert i % ENTRIES == i && i / ENTRIES == 0;
        assert Lookup(c', t, i) == Some(Slot(t, i));
        assert Writable(c', home, i) == Some(Slot(t, i));
        ReservedWritten(k.caps, Slot(t, i), reserved, made, page, Entry(CAP_SPACE, ALL, made));
      }
    }
  }

  lemma ReservedWritten(c: Caps, s: Slot, reserved: Entry, made: Ptr, page: Ptr, e: Entry)
    requires IsSlot(c, s) && (made == NULL || (made !in c.spaces && page !in c.tables))
    ensures IsSlot(Made(Write(c, s, reserved), made, page), s) && IsSlot(Made(c, made, page), s)
    ensures Write(Made(Write(c, s, reserved), made, page), s, e) == Write(Made(c, made, page), s, e)
  {
    var a := c.tables[s.table];
    assert a[s.index := reserved][s.index := e] == a[s.index := e];
    assert Write(Made(Write(c, s, reserved), made, page), s, e).tables == Write(Made(c, made, page), s, e).tables;
  }

  // ---------------------------------------------------------------- self entries

  /** Capabilities under way name spaces that exist. */
  ghost predicate FlyingOk(k: Kernel) {
    forall e :: e in k.flying && e.kind == CAP_SPACE ==> e.target in k.caps.spaces
  }

  /** The call does not replace or remove an entry by naming a space. */
  ghost predicate Spares(k: Kernel, a: Call)
    requires Sane(k) && Enabled(k, a)
  {
    a.CreateSpace? || AsOp(k, a).None? || SparesSelf(k.caps, AsOp(k, a).value)
  }

  /** The creation of a space fails after a slot was reserved for it. */
  ghost predicate MakesNull(k: Kernel, a: Call)
    requires Sane(k)
  {
    a.CreateSpace? && a.made == NULL && Reserve(k, a.thread).2 == Done
  }

  lemma SaneKept(k: Kernel, a: Call)
    requires Sane(k) && Enabled(k, a)
    ensures Sane(Step(k, a)) && forall s :: s in k.caps.spaces ==> s in Step(k, a).caps.spaces
  {
    if a.CreateSpace? {
      ReserveWf(k, a.thread);
      var (c, i, code) := Reserve(k, a.thread);
      if code == Done {
        MadeOk(c, a.made, a.page);
        ApplyWf(Made(c, a.made, a.page), DoReplace(k.home[a.thread], i, Entry(CAP_SPACE, ALL, a.made)));
      }
    } else if AsOp(k, a).Some? {
      ApplyWf(k.caps, AsOp(k, a).value);
    }
  }

  lemma FlyingKept(k: Kernel, a: Call)
    requires Sane(k) && Enabled(k, a) && FlyingOk(k) && Whole(k.caps)
    ensures FlyingOk(Step(k, a))
  {
    SaneKept(k, a);
    forall e | e in Step(k, a).flying && e.kind == CAP_SPACE ensures e.target in k.caps.spaces {
      if a.Grant? && e !in k.flying {
        var b := CapCheck(k, a.thread, a.address, NONE, OrShare(a.permissions));
        assert WholeTable(k.caps, b.slot.table);
      }
    }
  }

  /** A call leaves every table its self entry exactly if it spares them. */
  lemma SelfCall(k: Kernel, a: Call)
    requires Sane(k) && SelfOk(k.caps) && Enabled(k, a)
    ensures SelfOk(Step(k, a).caps) <==> Spares(k, a)
  {
    if a.CreateSpace? {
      var i := CreateLands(k, a.thread, a.made, a.page);
      MadeOk(k.caps, a.made, a.page);
      if Reserve(k, a.thread).2 == Done {
        WriteSelf(Made(k.caps, a.made, a.page), Slot(k.caps.spaces[k.home[a.thread]], i),
                  Entry(CAP_SPACE, ALL, a.made));
      }
    } else if AsOp(k, a).Some? {
      SelfStep(k.caps, AsOp(k, a).value);
    }
  }

  /** A creation leaves every pointer leading to a space exactly if no slot was reserved or the space
      was made. */
  lemma WholeCreate(k: Kernel, thread: Ptr, made: Ptr, page: Ptr)
    requires Sane(k) && SelfOk(k.caps) && Whole(k.caps)
    requires made == NULL || (made !in k.caps.spaces && page !in k.caps.tables)
    ensures Whole(CreateCall(k, thread, made, page).0) <==> made != NULL || Reserve(k, thread).2 != Done
  {
    var i := CreateLands(k, thread, made, page);
    MadeOk(k.caps, made, page);
    if Reserve(k, thread).2 == Done {
      WriteWhole(Made(k.caps, made, page), Slot(k.caps.spaces[k.home[thread]], i), Entry(CAP_SPACE, ALL, made));
    }
  }

  /** Every pointer still leads to a space after a call that spares the self entries, exactly if it is
      not a creation that fails once a slot is reserved. */
  lemma WholeCall(k: Kernel, a: Call)
    requires Sane(k) && SelfOk(k.caps) && Whole(k.caps) && FlyingOk(k) && Enabled(k, a) && Spares(k, a)
    ensures Whole(Step(k, a).caps) <==> !MakesNull(k, a)
  {
    if a.CreateSpace? {
      WholeCreate(k, a.thread, a.made, a.page);
    } else if AsOp(k, a).Some? {
      assert Sound(k.caps, AsOp(k, a).value) by {
        if a.Copy? {
          var s := CapCheck(k, a.thread, a.srcobj, NONE, SHARE);
          assert WholeTable(k.caps, s.slot.table);
        }
      }
      WholeStep(k.caps, AsOp(k, a).value);
    }
  }

  lemma WholeCheck(k: Kernel, thread: Ptr, address: nat, permissions: Word)
    requires Sane(k) && Whole(k.caps)
    ensures !CheckStrays(k, thread, address)
    ensures var s := SpaceCheck(k, thread, address, permissions); s.Some? ==> s.value in k.caps.spaces
  {
    if thread in k.home {
      var space := k.home[thread];
      assert space in k.caps.spaces;
      WholeLookup(k.caps, k.caps.spaces[space], address);
      var a := CapCheck(k, thread, address, CAP_SPACE, permissions);
      if a.Ok? { assert WholeTable(k.caps, a.slot.table); }
    }
  }

  lemma WholeWrite(k: Kernel, thread: Ptr, space: nat, address: nat, permissions: Word)
    requires Sane(k) && Whole(k.caps)
    ensures !WriteStrays(k, SpaceCheck(k, thread, space, permissions), address)
  {
    WholeCheck(k, thread, space, permissions);
    var s := SpaceCheck(k, thread, space, permissions);
    if s.Some? { WholeKeepsTo(k.caps, DoRemove(s.value, address)); }
  }

  /** Where every pointer leads to a space, no call goes astray. */
  lemma WholeKeepsCall(k: Kernel, a: Call)
    requires Sane(k) && Whole(k.caps) && SelfOk(k.caps) && Enabled(k, a)
    ensures !CallStrays(k, a)
  {
    match a
    case Copy(thread, src, srcobj, dest, destobj) => {
      WholeCheck(k, thread, src, MODIFY_SHARE);
      WholeCheck(k, thread, dest, MODIFY);
      WholeCheck(k, thread, destobj, 0);
      WholeCheck(k, thread, srcobj, SHARE);
      WholeWrite(k, thread, dest, destobj, MODIFY);
    }
    case RemoveCap(thread, space, address) => {
      WholeCheck(k, thread, space, MODIFY);
      WholeCheck(k, thread, address, 0);
      WholeWrite(k, thread, space, address, MODIFY);
    }
    case RestrictCap(thread, space, address, permissions) => {
      WholeCheck(k, thread, space, MODIFY);
      WholeWrite(k, thread, space, address, MODIFY);
    }
    case Grant(thread, address, queue, permissions) => {
      WholeCheck(k, thread, queue, MODIFY);
      WholeCheck(k, thread, address, 0);
    }
    case Receive(_, _) =>
    case CreateSpace(thread, made, page) => WholeReserve(k, thread, made, page);
    case SetSpace(thread, other, space) => {
      WholeCheck(k, thread, other, MODIFY);
      WholeCheck(k, thread, space, ACCESS);
    }
  }

  lemma WholeReserve(k: Kernel, thread: Ptr, made: Ptr, page: Ptr)
    requires Sane(k) && Whole(k.caps) && SelfOk(k.caps)
    requires made == NULL || (made !in k.caps.spaces && page !in k.caps.tables)
    ensures !CreateStrays(k, thread, made, page)
  {
    ReserveWf(k, thread);
    var (c, i, code) := Reserve(k, thread);
    if code == Done {
      InsertOk(k.caps, k.home[thread], Entry(RESERVED, 0, NULL));
      MadeOk(c, made, page);
      WholeKeepsTo(Made(c, made, page), DoRemove(k.home[thread], i));
    }
  }

  /** Each call is enabled, spares the self entries, and is not a creation that fails once a slot is
      reserved. */
  ghost predicate Sparing(k: Kernel, calls: seq<Call>)
    decreases |calls|
  {
    calls == [] ||
    (Sane(k) && Enabled(k, calls[0]) && Spares(k, calls[0]) && !MakesNull(k, calls[0])
     && Sparing(Step(k, calls[0]), calls[1..]))
  }

  ghost function End(k: Kernel, calls: seq<Call>): Kernel
    requires Sparing(k, calls)
    decreases |calls|
  {
    if calls == [] then k else End(Step(k, calls[0]), calls[1..])
  }

  /** Such calls never go astray; every table keeps its self entry, and every pointer leads to a
      space. */
  lemma {:induction false} SelfCalls(k: Kernel, calls: seq<Call>)
    requires Sane(k) && SelfOk(k.caps) && Whole(k.caps) && FlyingOk(k) && Sparing(k, calls)
    ensures Runs(k, calls, End(k, calls))
    ensures var k' := End(k, calls); Sane(k') && SelfOk(k'.caps) && Whole(k'.caps) && FlyingOk(k')
    decreases |calls|
  {
    if calls != [] {
      WholeKeepsCall(k, calls[0]);
      SaneKept(k, calls[0]);
      SelfCall(k, calls[0]);
      WholeCall(k, calls[0]);
      FlyingKept(k, calls[0]);
      SelfCalls(Step(k, calls[0]), calls[1..]);
    }
  }

  /** A kernel with one space, at 8, whose table is the page at 4096, and a thread, at 16, that has it. */
  function OneSpace(): Kernel {
    Kernel(Caps(map[4096 := NewTable(8)], map[8 := 4096]), map[16 := 8], multiset{})
  }

  lemma OneSpaceOk()
    ensures Sane(OneSpace()) && SelfOk(OneSpace().caps) && Whole(OneSpace().caps)
  {
    var c := OneSpace().caps;
    assert |NewTable(8)| == ENTRIES && NewTable(8)[0] == Entry(CAP_SPACE, ALL, 8);
    assert SelfEntry(c, 4096);
    forall t ensures WfTable(c, t) && WholeTable(c, t) { }
  }

  lemma OneSpaceReserve()
    requires Sane(OneSpace())
    ensures Reserve(OneSpace(), 16).1 == 1 && Reserve(OneSpace(), 16).2 == Done
  {
    var s := NewTable(8);
    assert s[0].kind == CAP_SPACE && s[1].kind == NONE;
    assert FirstNone(s, 1) == 1 && FirstNone(s, 0) == 1;
    assert And(3, 0) == And(1, 0) * 2 && And(1, 0) == 0 by { assert And(0, 0) == 0; }
    assert And(7, 1) == 2 * And(3, 0) + 1;
    assert And(15, 2) == 2 * And(7, 1);
  }

  /** A creation fails in it for want of memory: the call succeeds all the same, the caller's slot 1
      holds a space with all permissions at NULL, and a lookup through it goes astray. */
  lemma NullInstalled()
    ensures Sane(OneSpace()) && SelfOk(OneSpace().caps) && Whole(OneSpace().caps)
    ensures var a := CreateSpace(16, NULL, 0);
            && !CallStrays(OneSpace(), a) && CreateCall(OneSpace(), 16, NULL, 0).1 == Done
            && var k' := Step(OneSpace(), a);
               && Sane(k') && SelfOk(k'.caps) && !Whole(k'.caps) && 4096 in k'.caps.tables
               && IsSlot(k'.caps, Slot(4096, 1)) && EntryAt(k'.caps, Slot(4096, 1)) == Entry(CAP_SPACE, ALL, NULL)
               && Astray(k'.caps, 4096, 1)
  {
    var k := OneSpace();
    OneSpaceOk();
    WholeKeepsCall(k, CreateSpace(16, NULL, 0));
    OneSpaceReserve();
    var i := CreateLands(k, 16, NULL, 0);
    SaneKept(k, CreateSpace(16, NULL, 0));
    SelfCall(k, CreateSpace(16, NULL, 0));
    WholeCreate(k, 16, NULL, 0);
  }
}
