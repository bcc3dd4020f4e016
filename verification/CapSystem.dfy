/** The capability operations and system calls in place (src/capability.c, src/syscall.c).  Entries are
    words of memory, known by their addresses; a table is the page that an entry's address is in. */
module CapSystem {
  import opened Pointers
  import opened Bitmap
  import opened Capability
  import opened CapCalls
  import opened CapExact
  import opened CapMemory

  class System {
    var mem: Memory
    var spaces: map<Ptr, Ptr>
    var home: map<Ptr, Ptr>
    var flying: multiset<Entry>
    ghost var caps: Caps

    /** Memory holds the tables `caps`. */
    ghost predicate Valid()
      reads this
    {
      spaces == caps.spaces && Holds(mem, caps)
    }

    ghost function State(): Kernel
      reads this
    {
      Kernel(caps, home, flying)
    }

    constructor (mem: Memory)
      ensures Valid() && State() == Kernel(Caps(map[], map[]), map[], multiset{}) && this.mem == mem
    {
      this.mem, spaces, home, flying, caps := mem, map[], map[], multiset{}, Caps(map[], map[]);
    }

    /** src/capability.c:165-199: the address of the entry, or NULL.  For a 32-bit address, at most five
        rounds, also where spaces contain each other. */
    method TableLookup(table: Ptr, address: nat) returns (entry: Ptr, ghost rounds: nat)
      requires Valid() && Wf(caps) && table in caps.tables && !Astray(caps, table, address)
      ensures forall s :: Names(caps, table, address, s) ==> entry == Address(s.table, s.index) && entry in mem
      ensures entry == NULL <==> forall s :: !Names(caps, table, address, s)
      ensures entry == AddressOf(Lookup(caps, table, address))
      ensures entry != NULL <==> Lookup(caps, table, address).Some?
      ensures rounds <= Digits(address) + 1
      ensures address <= FULL ==> rounds <= 5
    {
      var t, found := table, false;
      var left: nat := address;
      rounds := 0;
      entry := table;
      TableStart(mem, caps, table);
      while entry != NULL && !found
        invariant t in caps.tables
        invariant entry != NULL && !found ==>
                    && Lookup(caps, table, address) == Lookup(caps, t, left) && !Astray(caps, t, left)
                    && rounds + Digits(left) <= Digits(address)
        invariant entry == NULL || found ==>
                    entry == AddressOf(Lookup(caps, table, address)) && rounds <= Digits(address) + 1
        invariant found ==> entry != NULL && Lookup(caps, table, address).Some?
        invariant entry == NULL ==> Lookup(caps, table, address).None?
        decreases entry != NULL && !found, left
      {
        assert WfTable(caps, t);
        var offset := left % ENTRIES;
        left := left / ENTRIES;
        entry := t + 16 * offset;
        ReadEntry(mem, caps, Slot(t, offset));
        rounds := rounds + 1;
        if left == 0 && offset == 0 {
          found := true;
        } else if mem[entry].kind == CAP_SPACE {
          t := spaces[mem[entry].target];
        } else if left != 0 {
          entry := NULL;
        } else {
          found := true;
        }
      }
      if address <= FULL { DigitsOfWord(address); }
      LookupExactly(caps, table, address);
      if found { ReadEntry(mem, caps, Lookup(caps, table, address).value); }
    }

    /** src/capability.c:213-224 */
    method TableInsert(table: Ptr, entry: Entry) returns (i: nat)
      requires Valid() && table in caps.tables && |caps.tables[table]| == ENTRIES
      modifies this`mem, this`caps
      ensures Valid()
      ensures var n := FirstNone(old(caps).tables[table], 0);
              if n == ENTRIES then i == INVALID_OBJECT && mem == old(mem) && caps == old(caps)
              else
                && i == n && mem == old(mem)[Address(table, n) := entry]
                && caps == Write(old(caps), Slot(table, n), entry)
    {
      i := 0;
      while i < ENTRIES
        invariant i <= ENTRIES && mem == old(mem) && caps == old(caps)
        invariant FirstNone(caps.tables[table], i) == FirstNone(caps.tables[table], 0)
      {
        ReadEntry(mem, caps, Slot(table, i));
        if mem[table + 16 * i].kind == NONE {
          WriteEntry(mem, caps, Slot(table, i), entry);
          mem, caps := mem[table + 16 * i := entry], Write(caps, Slot(table, i), entry);
          return;
        }
        i := i + 1;
      }
      i := INVALID_OBJECT;
    }

    /** src/capability.c:149-161: the first entry of the table that the entry's own table names, found by
        masking the entry's address. */
    method Root(entry: Ptr, ghost s: Slot) returns (root: Ptr)
      requires Valid() && Wf(caps) && IsSlot(caps, s) && Rooted(caps, s) && entry == Address(s.table, s.index)
      ensures 0 < entry <= FULL && Mask(entry) in mem && mem[Mask(entry)].target in spaces
      ensures root == spaces[mem[Mask(entry)].target] && root in mem && mem[root] == RootEntry(caps, s)
      ensures entry in mem && mem[entry] == EntryAt(caps, s)
    {
      assert WfTable(caps, s.table);
      ReadEntry(mem, caps, s);
      ReadEntry(mem, caps, Slot(s.table, 0));
      var temp := Mask(entry);
      root := spaces[mem[temp].target];
      assert WfTable(caps, root);
      ReadEntry(mem, caps, Slot(root, 0));
    }

    /** src/capability.c:69-77: the entry goes into the first slot without a type, if the table's first
        entry has CAP_MODIFY; 0 if it does not, or if every slot is taken. */
    method SpaceInsert(space: Ptr, entry: Entry) returns (i: nat)
      requires Valid() && Wf(caps) && space in spaces
      modifies this`mem, this`caps
      ensures Valid() && (caps, i) == Insert(old(caps), space, entry)
      ensures mem == old(mem) || (&& Address(spaces[space], i) in old(mem)
                                  && mem == old(mem)[Address(spaces[space], i) := entry]
                                  && old(mem)[Address(spaces[space], i)].kind == NONE)
      ensures i != INVALID_OBJECT ==> i < ENTRIES && mem == old(mem)[Address(spaces[space], i) := entry]
                                      && Address(spaces[space], i) in old(mem)
                                      && old(mem)[Address(spaces[space], i)].kind == NONE
    {
      var t := spaces[space];
      assert WfTable(caps, t);
      ReadEntry(mem, caps, Slot(t, 0));
      if Has(mem[t].permissions, MODIFY) {
        i := TableInsert(t, entry);
        if i < ENTRIES { ReadEntry(old(mem), old(caps), Slot(t, i)); }
      } else {
        i := INVALID_OBJECT;
      }
    }

    /** src/capability.c:83-95: the entry that an address names, and whether its table may be changed. */
    method Named(space: Ptr, address: nat) returns (p: Ptr, may: bool)
      requires Valid() && Wf(caps) && space in spaces && !Strays(caps, DoRemove(space, address))
      ensures p == AddressOf(Lookup(caps, spaces[space], address))
      ensures p == NULL <==> Lookup(caps, spaces[space], address).None?
      ensures may <==> p != NULL && MayChange(mem, spaces, p)
      ensures may <==> Writable(caps, space, address).Some?
      ensures may ==> p in mem && Writable(caps, space, address) == Lookup(caps, spaces[space], address)
                      && mem[p] == EntryAt(caps, Writable(caps, space, address).value)
    {
      ghost var rounds;
      p, rounds := TableLookup(spaces[space], address);
      may := false;
      if p != NULL {
        var root := Root(p, Lookup(caps, spaces[space], address).value);
        may := Has(mem[root].permissions, MODIFY);
      }
    }

    /** src/capability.c:79-101: exactly the named entry is replaced, if it may be changed. */
    method SpaceReplace(space: Ptr, address: nat, entry: Entry) returns (done: bool, ghost p: Ptr)
      requires Valid() && Wf(caps) && space in spaces && !Strays(caps, DoRemove(space, address))
      modifies this`mem, this`caps
      ensures Valid() && (caps, done) == Replace(old(caps), space, address, entry)
      ensures p == AddressOf(Lookup(old(caps), spaces[space], address))
      ensures done <==> p != NULL && MayChange(old(mem), spaces, p)
      ensures mem == if done then old(mem)[p := entry] else old(mem)
    {
      var named;
      named, done := Named(space, address);
      p := named;
      if done {
        ghost var s := Writable(caps, space, address).value;
        WriteEntry(mem, caps, s, entry);
        mem, caps := mem[named := entry], Write(caps, s, entry);
      }
    }

    /** src/capability.c:103-119: exactly the named entry loses its type, if it may be changed. */
    method SpaceRemove(space: Ptr, address: nat) returns (done: bool, ghost p: Ptr)
      requires Valid() && Wf(caps) && space in spaces && !Strays(caps, DoRemove(space, address))
      modifies this`mem, this`caps
      ensures Valid() && (caps, done) == Remove(old(caps), space, address)
      ensures p == AddressOf(Lookup(old(caps), spaces[space], address))
      ensures done <==> p != NULL && MayChange(old(mem), spaces, p)
      ensures mem == if done then old(mem)[p := old(mem)[p].(kind := NONE)] else old(mem)
    {
      var named;
      named, done := Named(space, address);
      p := named;
      if done {
        ghost var s := Writable(caps, space, address).value;
        WriteEntry(mem, caps, s, mem[named].(kind := NONE));
        caps := Write(caps, s, mem[named].(kind := NONE));
        mem := mem[named := mem[named].(kind := NONE)];
      }
    }

    /** src/capability.c:121-147: exactly the named entry gets the permissions, if it may be changed and
        has them all. */
    method SpaceRestrict(space: Ptr, address: nat, permissions: Word) returns (done: bool, ghost p: Ptr)
      requires Valid() && Wf(caps) && space in spaces && !Strays(caps, DoRemove(space, address))
      modifies this`mem, this`caps
      ensures Valid() && (caps, done) == Restrict(old(caps), space, address, permissions)
      ensures p == AddressOf(Lookup(old(caps), spaces[space], address))
      ensures done <==> p != NULL && MayChange(old(mem), spaces, p) && Covers(old(mem)[p].permissions, permissions)
      ensures mem == if done then old(mem)[p := old(mem)[p].(permissions := permissions)] else old(mem)
    {
      var named, may := Named(space, address);
      p := named;
      if !may || !Covers(mem[named].permissions, permissions) {
        return false, p;
      }
      ghost var s := Writable(caps, space, address).value;
      WriteEntry(mem, caps, s, mem[named].(permissions := permissions));
      caps := Write(caps, s, mem[named].(permissions := permissions));
      mem := mem[named := mem[named].(permissions := permissions)];
      done := true;
    }

    /** src/capability.c:55-67: an entry with CAP_SHARE is copied into a slot of the other space that had
        no type; the permissions argument has no effect. */
    method SpaceShare(source: Ptr, dest: Ptr, address: nat, permissions: Word) returns (i: nat, ghost p: Ptr)
      requires Valid() && Wf(caps) && source in spaces && dest in spaces && !Astray(caps, spaces[source], address)
      modifies this`mem, this`caps
      ensures Valid() && (caps, i) == Share(old(caps), source, dest, address)
      ensures p == AddressOf(Lookup(old(caps), spaces[source], address))
      ensures mem != old(mem) ==> var q := Address(spaces[dest], i);
                && p in old(mem) && Has(old(mem)[p].permissions, SHARE)
                && q in old(mem) && old(mem)[q].kind == NONE && mem == old(mem)[q := old(mem)[p]]
    {
      var named, _ := TableLookup(spaces[source], address);
      p := named;
      if named == NULL {
        return INVALID_OBJECT, p;
      }
      ReadEntry(mem, caps, Lookup(caps, spaces[source], address).value);
      if !Has(mem[named].permissions, SHARE) {
        return INVALID_OBJECT, p;
      }
      i := SpaceInsert(dest, mem[named]);
    }

    /** src/capability.c:19-43: a page of zeroes becomes the table of a space, which its first entry names
        with all permissions. */
    method SpaceCreate(space: Ptr, page: Ptr)
      requires Valid() && space !in spaces && page !in caps.tables && Page(page) && Zeroed(mem, page)
      modifies this`mem, this`spaces, this`caps
      ensures Valid() && caps == Create(old(caps), space, page)
      ensures mem == old(mem)[page := Entry(CAP_SPACE, ALL, space)] && spaces == old(spaces)[space := page]
    {
      NewPage(mem, caps, space, page);
      caps := Create(caps, space, page);
      mem := mem[page := Entry(CAP_SPACE, ALL, space)];
      spaces := spaces[space := page];
    }

    // -------------------------------------------------------------- system calls

    /** src/syscall.c:153-186: the entry that an address names in the thread's own space, if it has the
        type and all the permissions asked for. */
    method Check(thread: Ptr, address: nat, kind: nat, permissions: Word) returns (code: Code, cap: Ptr)
      requires Valid() && Sane(State()) && !CheckStrays(State(), thread, address)
      ensures code == Done <==> Passes(State(), thread, address, kind, permissions)
      ensures code == CheckCode(State(), thread, address, kind, permissions)
      ensures code == Done ==>
                && CapCheck(State(), thread, address, kind, permissions).Ok?
                && var s := CapCheck(State(), thread, address, kind, permissions).slot;
                   cap == Address(s.table, s.index) && cap in mem && mem[cap] == EntryAt(caps, s)
      ensures code == Done ==>
                cap in mem && (kind == NONE || mem[cap].kind == kind) && Covers(mem[cap].permissions, permissions)
      ensures code == Done && kind == CAP_SPACE ==>
                SpaceCheck(State(), thread, address, permissions) == Some(mem[cap].target)
    {
      cap := NULL;
      CheckExactly(State(), thread, address, kind, permissions);
      if thread !in home {
        return PermissionDenied, NULL;
      }
      var space := home[thread];
      assert space in caps.spaces;
      ghost var rounds;
      cap, rounds := TableLookup(spaces[space], address);
      if cap == NULL {
        return InvalidObject, NULL;
      }
      ReadEntry(mem, caps, Lookup(caps, caps.spaces[space], address).value);
      if mem[cap].kind != kind && kind != NONE {
        return InvalidObject, cap;
      }
      if !Covers(mem[cap].permissions, permissions) {
        return PermissionDenied, cap;
      }
      code := Done;
    }

    /** src/syscall.c:670-694: what changes, if anything, is one entry that may be changed, and it becomes
        a copy of one with CAP_SHARE. */
    method CspaceCapCopy(thread: Ptr, src: nat, srcobj: nat, dest: nat, destobj: nat)
      returns (code: Code, ghost p: Ptr, ghost from: Ptr)
      requires Valid() && Sane(State()) && !CopyStrays(State(), thread, src, srcobj, dest, destobj)
      modifies this`mem, this`caps
      ensures Valid() && State() == Step(old(State()), Copy(thread, src, srcobj, dest, destobj))
      ensures code == CopyCap(old(State()), thread, src, srcobj, dest, destobj).1
      ensures mem != old(mem) ==>
                && code == Done && MayChange(old(mem), spaces, p)
                && from in old(mem) && Covers(old(mem)[from].permissions, SHARE) && mem == old(mem)[p := old(mem)[from]]
    {
      p, from := NULL, NULL;
      var a, _ := Check(thread, src, CAP_SPACE, MODIFY_SHARE);
      if a != Done {
        return a, p, from;
      }
      var b, destspace := Check(thread, dest, CAP_SPACE, MODIFY);
      if b != Done {
        return b, p, from;
      }
      var d, _ := Check(thread, destobj, NONE, 0);
      if d != Done {
        return d, p, from;
      }
      var s, srcent := Check(thread, srcobj, NONE, SHARE);
      if s != Done {
        return s, p, from;
      }
      from := srcent;
      var done;
      done, p := SpaceReplace(mem[destspace].target, destobj, mem[srcent]);
      code := Done;
    }

    /** src/syscall.c:696-711: what changes, if anything, is one entry that may be changed, and it loses its
        type. */
    method CspaceCapRemove(thread: Ptr, space: nat, address: nat) returns (code: Code, ghost p: Ptr)
      requires Valid() && Sane(State()) && !RemoveStrays(State(), thread, space, address)
      modifies this`mem, this`caps
      ensures Valid() && State() == Step(old(State()), RemoveCap(thread, space, address))
      ensures code == RemoveCall(old(State()), thread, space, address).1
      ensures code == Done ==> MayChange(old(mem), spaces, p) && mem == old(mem)[p := old(mem)[p].(kind := NONE)]
      ensures code != Done ==> mem == old(mem)
    {
      p := NULL;
      var a, cspace := Check(thread, space, CAP_SPACE, MODIFY);
      if a != Done {
        return a, p;
      }
      var b, _ := Check(thread, address, NONE, 0);
      if b != Done {
        return b, p;
      }
      var done;
      done, p := SpaceRemove(mem[cspace].target, address);
      code := if done then Done else PermissionDenied;
    }

    /** src/syscall.c:713-728: what changes, if anything, is one entry that may be changed, and its new
        permissions are among its old ones. */
    method CspaceCapRestrict(thread: Ptr, space: nat, address: nat, permissions: Word)
      returns (code: Code, ghost p: Ptr)
      requires Valid() && Sane(State()) && !RestrictStrays(State(), thread, space, address)
      modifies this`mem, this`caps
      ensures Valid() && State() == Step(old(State()), RestrictCap(thread, space, address, permissions))
      ensures code == RestrictCall(old(State()), thread, space, address, permissions).1
      ensures if code == Done then
                MayChange(old(mem), spaces, p) && Covers(old(mem)[p].permissions, permissions)
                && mem == old(mem)[p := old(mem)[p].(permissions := permissions)]
              else mem == old(mem)
    {
      p := NULL;
      var a, cspace := Check(thread, space, CAP_SPACE, MODIFY);
      if a != Done {
        return a, p;
      }
      var done;
      done, p := SpaceRestrict(mem[cspace].target, address, permissions);
      code := if done then Done else PermissionDenied;
    }

    /** src/syscall.c:734-763 and src/message.c:135-146: the words of the message carry an entry that the
        granter may share, with permissions that are among its own. */
    method CspaceCapGrant(thread: Ptr, address: nat, queue: nat, permissions: Word)
      returns (code: Code, data: seq<int>, ghost from: Ptr)
      requires Valid() && Sane(State()) && !GrantStrays(State(), thread, address, queue)
      modifies this`flying
      ensures Valid() && State() == Step(old(State()), Grant(thread, address, queue, permissions))
      ensures code == GrantCall(old(State()), thread, address, queue, permissions).1
      ensures code != Done ==> flying == old(flying)
      ensures code == Done ==>
                && from in mem && Covers(mem[from].permissions, permissions) && Covers(mem[from].permissions, SHARE)
                && Carries(data, mem[from].(permissions := permissions))
                && flying == old(flying) + multiset{mem[from].(permissions := permissions)}
    {
      data, from := [], NULL;
      var a, _ := Check(thread, queue, SYNC_ENDPOINT, MODIFY);
      if a != Done {
        return a, data, from;
      }
      var b, cap := Check(thread, address, NONE, OrShare(permissions));
      if b != Done {
        return b, data, from;
      }
      from := cap;
      CoversShared(mem[cap].permissions, permissions);
      var temp := mem[cap].(permissions := permissions);
      data := [temp.kind, temp.permissions, temp.target];
      flying := flying + multiset{temp};
      code := Done;
    }

    /** src/message.c:353-374: the entry that the message carries goes into the first slot of the receiver's
        table that has no type; 0 if there is none, or the table may not be changed. */
    method ReceiveGrant(thread: Ptr, data: seq<int>, ghost entry: Entry) returns (i: nat)
      requires Valid() && Sane(State()) && entry in flying && Carries(data, entry)
      modifies this`mem, this`caps, this`flying
      ensures Valid() && State() == Step(old(State()), Receive(thread, entry))
      ensures thread !in home ==> i == 0 && mem == old(mem)
      ensures thread in home && home[thread] in old(spaces) ==> (caps, i) == Insert(old(caps), home[thread], entry)
      ensures mem != old(mem) ==>
                && thread in home && home[thread] in spaces && var p := Address(spaces[home[thread]], i);
                   p in old(mem) && old(mem)[p].kind == NONE && mem == old(mem)[p := entry]
    {
      i := 0;
      var granted := Entry(data[0], data[1], data[2]);
      if thread in home {
        var space := home[thread];
        assert space in caps.spaces;
        i := SpaceInsert(space, granted);
      }
      flying := flying - multiset{granted};
    }

    /** src/syscall.c:190-217: a slot without a type in the caller's own table is reserved, if the table may
        be changed; else, or if every slot is taken, nothing changes. */
    method NewObject(thread: Ptr) returns (code: Code, i: nat)
      requires Valid() && Sane(State())
      modifies this`mem, this`caps
      ensures Valid() && (caps, i, code) == Reserve(old(State()), thread)
      ensures code == Done ==>
                && thread in home && home[thread] in spaces && spaces[home[thread]] in caps.tables && i < ENTRIES
                && mem == old(mem)[Address(spaces[home[thread]], i) := Entry(RESERVED, 0, NULL)]
                && Address(spaces[home[thread]], i) in old(mem)
                && old(mem)[Address(spaces[home[thread]], i)].kind == NONE
    {
      i := 0;
      if thread !in home {
        return PermissionDenied, 0;
      }
      var own := home[thread];
      assert own in caps.spaces && WfTable(caps, spaces[own]);
      ReadEntry(mem, caps, Slot(spaces[own], 0));
      if !Has(mem[spaces[own]].permissions, MODIFY) {
        return PermissionDenied, 0;
      }
      i := SpaceInsert(own, Entry(RESERVED, 0, NULL));
      if i == INVALID_OBJECT {
        return EntityFull, 0;
      }
      code := Done;
    }

    /** src/syscall.c:622-641 */
    method Install(thread: Ptr, made: Ptr, page: Ptr) returns (code: Code)
      requires Valid() && Sane(State())
      requires made != NULL ==> made !in spaces && page !in caps.tables && Page(page) && Zeroed(mem, page)
      requires !CreateStrays(State(), thread, made, page)
      modifies this`mem, this`spaces, this`caps
      ensures Valid() && (caps, code) == CreateCall(old(State()), thread, made, page)
    {
      ghost var k := State();
      ReserveWf(k, thread);
      var i;
      code, i := NewObject(thread);
      if code != Done {
        return;
      }
      var own := home[thread];
      MadeOk(caps, made, page);
      if made != NULL {
        StillZeroed(old(mem), old(caps), spaces[own], i, Entry(RESERVED, 0, NULL), page);
        SpaceCreate(made, page);
      }
      var _, _ := SpaceReplace(own, i, Entry(CAP_SPACE, ALL, made));
      code := Done;
    }

    /** The same, for its caller.  `made` and `page` are what the allocators returned, `made` NULL if there
        was no memory.  It goes all the same into a slot of the caller's table that had no type, as a
        space with all permissions; every table keeps its self entry, and every pointer leads to a space
        exactly if the space was made. */
    method CspaceCreate(thread: Ptr, made: Ptr, page: Ptr) returns (code: Code, ghost p: Ptr)
      requires Valid() && Sane(State())
      requires made != NULL ==> made !in spaces && page !in caps.tables && Page(page) && Zeroed(mem, page)
      requires !CreateStrays(State(), thread, made, page)
      modifies this`mem, this`spaces, this`caps
      ensures Valid() && State() == Step(old(State()), CreateSpace(thread, made, page))
      ensures code == CreateCall(old(State()), thread, made, page).1
      ensures SelfOk(old(caps)) ==> SelfOk(caps)
      ensures SelfOk(old(caps)) && Whole(old(caps)) ==> (Whole(caps) <==> made != NULL || code != Done)
      ensures SelfOk(old(caps)) && code == Done ==>
                && p in old(mem) && old(mem)[p].kind == NONE && p in mem && mem[p] == Entry(CAP_SPACE, ALL, made)
                && thread in home && home[thread] in old(spaces) && 0 < p <= FULL
                && Mask(p) == old(spaces)[home[thread]]
    {
      p := NULL;
      code := Install(thread, made, page);
      if SelfOk(old(caps)) { p := Created(old(State()), old(mem), mem, thread, made, page); }
    }

    /** src/syscall.c:350-364: the thread that an address names, with CAP_MODIFY, gets the space that another
        names, with CAP_ACCESS; no other thread's space changes. */
    method ThreadSetCapspace(thread: Ptr, other: nat, aspace: nat) returns (code: Code, ghost t: Ptr)
      requires Valid() && Sane(State()) && !SetSpaceStrays(State(), thread, other, aspace)
      modifies this`home
      ensures Valid() && State() == Step(old(State()), SetSpace(thread, other, aspace)) && Sane(State())
      ensures code == SetSpaceCall(old(State()), thread, other, aspace).1
      ensures code != Done ==> home == old(home)
      ensures forall x :: x in home && x != t ==> x in old(home) && home[x] == old(home)[x]
      ensures code == Done && Whole(caps) ==>
                t in home && SpaceCheck(old(State()), thread, aspace, ACCESS) == Some(home[t])
    {
      t := NULL;
      SaneKept(State(), SetSpace(thread, other, aspace));
      if Whole(caps) { WholeCheck(State(), thread, aspace, ACCESS); }
      var a, target := Check(thread, other, THREAD, MODIFY);
      if a != Done {
        return a, t;
      }
      var b, cspace := Check(thread, aspace, CAP_SPACE, ACCESS);
      if b != Done {
        return b, t;
      }
      t := mem[target].target;
      if mem[cspace].target == NULL {
        home := home - {mem[target].target};
      } else {
        home := home[mem[target].target := mem[cspace].target];
      }
      code := Done;
    }
  }

  /** What a creation does, seen from memory. */
  lemma Created(k: Kernel, mem: Memory, mem': Memory, thread: Ptr, made: Ptr, page: Ptr) returns (p: Ptr)
    requires Sane(k) && SelfOk(k.caps) && (made == NULL || (made !in k.caps.spaces && page !in k.caps.tables))
    requires Holds(mem, k.caps) && Holds(mem', CreateCall(k, thread, made, page).0)
    ensures var (c, code) := CreateCall(k, thread, made, page);
            && SelfOk(c) && (Whole(k.caps) ==> (Whole(c) <==> made != NULL || code != Done))
            && (code == Done ==>
                  && p in mem && mem[p].kind == NONE && p in mem' && mem'[p] == Entry(CAP_SPACE, ALL, made)
                  && thread in k.home && k.home[thread] in k.caps.spaces
                  && 0 < p <= FULL && Mask(p) == k.caps.spaces[k.home[thread]])
  {
    p := NULL;
    SelfCall(k, CreateSpace(thread, made, page));
    var i := CreateLands(k, thread, made, page);
    if Whole(k.caps) { WholeCreate(k, thread, made, page); }
    var (c, code) := CreateCall(k, thread, made, page);
    if code == Done {
      var s := Slot(k.caps.spaces[k.home[thread]], i);
      p := Address(s.table, s.index);
      ReadEntry(mem, k.caps, s);
      ReadEntry(mem', c, s);
    }
  }
}
