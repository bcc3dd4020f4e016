/** Exactly when the capability calls succeed, and what they then do, said of paths and bits: of the slots
    that addresses spell, the types there, and the permission bits. */
module CapExact {
  import opened Pointers
  import opened Bitmap
  import opened Capability
  import opened CapCalls

  // ---------------------------------------------------------------- the check

  /** The address names the slot `s` in the thread's own space. */
  ghost predicate NamesFor(k: Kernel, thread: Ptr, address: nat, s: Slot)
    requires Sane(k)
  {
    thread in k.home &&
    var space := k.home[thread];
    assert space in k.caps.spaces;
    Names(k.caps, k.caps.spaces[space], address, s) && IsSlot(k.caps, s)
  }

  /** It names `s`, whose entry has the type asked for, any type if that is 0, and every permission bit. */
  ghost predicate PassesAt(k: Kernel, thread: Ptr, address: nat, kind: nat, permissions: Word, s: Slot)
    requires Sane(k)
  {
    && NamesFor(k, thread, address, s) && (kind == 0 || EntryAt(k.caps, s).kind == kind)
    && AllBits(permissions, EntryAt(k.caps, s).permissions)
  }

  ghost predicate Passes(k: Kernel, thread: Ptr, address: nat, kind: nat, permissions: Word)
    requires Sane(k)
  {
    exists s :: PassesAt(k, thread, address, kind, permissions, s)
  }

  /** src/syscall.c:153-186: a check passes exactly with the entry that the address names, if that has the
      type and all the permission bits.  It answers "permission denied" exactly if the thread has no
      space or a bit is missing, and "invalid object" exactly if nothing is named or the type is wrong. */
  lemma CheckExactly(k: Kernel, thread: Ptr, address: nat, kind: nat, permissions: Word)
    requires Sane(k)
    ensures forall s :: CapCheck(k, thread, address, kind, permissions) == Ok(s) <==>
              PassesAt(k, thread, address, kind, permissions, s)
    ensures CapCheck(k, thread, address, kind, permissions).Ok? <==> Passes(k, thread, address, kind, permissions)
    ensures CapCheck(k, thread, address, kind, permissions) == Refused(PermissionDenied) <==>
            || thread !in k.home
            || exists s :: NamesFor(k, thread, address, s) && (kind == 0 || EntryAt(k.caps, s).kind == kind)
                           && !AllBits(permissions, EntryAt(k.caps, s).permissions)
    ensures CapCheck(k, thread, address, kind, permissions) == Refused(InvalidObject) <==>
            && thread in k.home
            && (|| (forall s :: !NamesFor(k, thread, address, s))
                || exists s :: NamesFor(k, thread, address, s) && kind != 0 && EntryAt(k.caps, s).kind != kind)
  {
    if thread in k.home {
      var space := k.home[thread];
      assert space in k.caps.spaces;
      LookupExactly(k.caps, k.caps.spaces[space], address);
      var r := Lookup(k.caps, k.caps.spaces[space], address);
      forall s ensures NamesFor(k, thread, address, s) <==> r == Some(s) {
        assert Names(k.caps, k.caps.spaces[space], address, s) <==> r == Some(s);
      }
      if r.Some? {
        CoversBits(EntryAt(k.caps, r.value).permissions, permissions);
        assert NamesFor(k, thread, address, r.value);
      }
    }
  }

  // ---------------------------------------------------------------- the calls

  /** src/syscall.c:670-694: a copy succeeds exactly if the two spaces and the two objects pass their checks.
      It then writes (CopyWrites) the source entry into the slot that the other address names in the
      destination space, if that may be changed, and nothing else. */
  lemma CopyExactly(k: Kernel, thread: Ptr, src: nat, srcobj: nat, dest: nat, destobj: nat)
    requires Sane(k)
    ensures CopyCap(k, thread, src, srcobj, dest, destobj).1 == Done <==>
            && Passes(k, thread, src, 3, 6) && Passes(k, thread, dest, 3, 2)
            && Passes(k, thread, destobj, 0, 0) && Passes(k, thread, srcobj, 0, 4)
    ensures CopyCap(k, thread, src, srcobj, dest, destobj).1 != Done ==>
              Step(k, Copy(thread, src, srcobj, dest, destobj)) == k
  {
    CheckExactly(k, thread, src, 3, 6);
    CheckExactly(k, thread, dest, 3, 2);
    CheckExactly(k, thread, destobj, 0, 0);
    CheckExactly(k, thread, srcobj, 0, 4);
  }

  lemma CopyWrites(k: Kernel, thread: Ptr, src: nat, srcobj: nat, dest: nat, destobj: nat, b: Slot, s: Slot)
    requires Sane(k) && CopyCap(k, thread, src, srcobj, dest, destobj).1 == Done
    requires PassesAt(k, thread, dest, 3, 2, b) && PassesAt(k, thread, srcobj, 0, 4, s)
    requires EntryAt(k.caps, b).target in k.caps.spaces
    ensures Wrote(k, Step(k, Copy(thread, src, srcobj, dest, destobj)), EntryAt(k.caps, b).target, destobj,
                  EntryAt(k.caps, s))
  {
    CheckExactly(k, thread, dest, 3, 2);
    CheckExactly(k, thread, srcobj, 0, 4);
    ReplaceWrote(k, EntryAt(k.caps, b).target, destobj, EntryAt(k.caps, s));
  }

  lemma ReplaceWrote(k: Kernel, space: Ptr, address: nat, e: Entry)
    requires Sane(k) && space in k.caps.spaces
    ensures Wrote(k, k.(caps := Replace(k.caps, space, address, e).0), space, address, e)
  {
    OpsExactly(k.caps, space, address, e, 0);
  }

  /** The slot that the address names in the space holds `e` in `k'`, if it may be changed; all else is as
      in `k`. */
  ghost predicate Wrote(k: Kernel, k': Kernel, space: Ptr, address: nat, e: Entry)
    requires Sane(k) && space in k.caps.spaces
  {
    && (forall w :: Changes(k.caps, space, address, w) ==> k' == k.(caps := Write(k.caps, w, e)))
    && ((forall w :: !Changes(k.caps, space, address, w)) ==> k' == k)
  }

  /** src/syscall.c:696-711: a removal succeeds exactly if the space and the object pass their checks and the
      slot that the address names in the space may be changed; it then loses its type. */
  lemma RemoveExactly(k: Kernel, thread: Ptr, space: nat, address: nat, b: Slot)
    requires Sane(k) && PassesAt(k, thread, space, 3, 2, b) && EntryAt(k.caps, b).target in k.caps.spaces
    ensures var k', sp := Step(k, RemoveCap(thread, space, address)), EntryAt(k.caps, b).target;
            && (RemoveCall(k, thread, space, address).1 == Done <==>
                  Passes(k, thread, address, 0, 0) && exists w :: Changes(k.caps, sp, address, w))
            && (forall w :: Passes(k, thread, address, 0, 0) && Changes(k.caps, sp, address, w) ==>
                  var e := EntryAt(k.caps, w); k' == k.(caps := Write(k.caps, w, Entry(0, e.permissions, e.target))))
            && (RemoveCall(k, thread, space, address).1 != Done ==> k' == k)
  {
    CheckExactly(k, thread, space, 3, 2);
    CheckExactly(k, thread, address, 0, 0);
    OpsExactly(k.caps, EntryAt(k.caps, b).target, address, Entry(0, 0, NULL), 0);
    WritableExactly(k.caps, EntryAt(k.caps, b).target, address);
  }

  /** src/syscall.c:713-728: a restriction succeeds exactly if the space passes its check, the slot that the
      address names in it may be changed, and its entry has every bit asked for; it then has those. */
  lemma RestrictExactly(k: Kernel, thread: Ptr, space: nat, address: nat, permissions: Word, b: Slot)
    requires Sane(k) && PassesAt(k, thread, space, 3, 2, b) && EntryAt(k.caps, b).target in k.caps.spaces
    ensures var k', sp := Step(k, RestrictCap(thread, space, address, permissions)), EntryAt(k.caps, b).target;
            var code := RestrictCall(k, thread, space, address, permissions).1;
            && (code == Done <==>
                  exists w :: Changes(k.caps, sp, address, w) && AllBits(permissions, EntryAt(k.caps, w).permissions))
            && (forall w :: Changes(k.caps, sp, address, w) && code == Done ==>
                  var e := EntryAt(k.caps, w); k' == k.(caps := Write(k.caps, w, Entry(e.kind, permissions, e.target))))
            && (code != Done ==> k' == k)
  {
    CheckExactly(k, thread, space, 3, 2);
    OpsExactly(k.caps, EntryAt(k.caps, b).target, address, Entry(0, 0, NULL), permissions);
    WritableExactly(k.caps, EntryAt(k.caps, b).target, address);
  }

  /** A space that does not pass its check is an error, and nothing changes. */
  lemma SpaceRefused(k: Kernel, thread: Ptr, space: nat, address: nat, permissions: Word)
    requires Sane(k) && !Passes(k, thread, space, 3, 2)
    ensures RemoveCall(k, thread, space, address).1 != Done && Step(k, RemoveCap(thread, space, address)) == k
    ensures RestrictCall(k, thread, space, address, permissions).1 != Done
    ensures Step(k, RestrictCap(thread, space, address, permissions)) == k
  {
    CheckExactly(k, thread, space, 3, 2);
  }

  /** src/syscall.c:734-763: a grant succeeds exactly if the endpoint passes its check and the named entry has
      CAP_SHARE and every bit granted; its type and object are then under way with those bits. */
  lemma GrantExactly(k: Kernel, thread: Ptr, address: nat, queue: nat, permissions: Word)
    requires Sane(k)
    ensures var code, k' := GrantCall(k, thread, address, queue, permissions).1,
            Step(k, Grant(thread, address, queue, permissions));
            && (code == Done <==>
                  && Passes(k, thread, queue, 1, 2)
                  && exists s ::
                       PassesAt(k, thread, address, 0, permissions, s) && Bit(EntryAt(k.caps, s).permissions, 2))
            && (code != Done ==> k' == k)
            && (forall s :: code == Done && NamesFor(k, thread, address, s) ==>
                  var e := EntryAt(k.caps, s);
                  k' == k.(flying := k.flying + multiset{Entry(e.kind, permissions, e.target)}))
  {
    var both := OrShare(permissions);
    CheckExactly(k, thread, queue, 1, 2);
    CheckExactly(k, thread, address, 0, both);
    CheckExactly(k, thread, address, 0, permissions);
    forall s | NamesFor(k, thread, address, s)
      ensures PassesAt(k, thread, address, 0, both, s) <==>
              PassesAt(k, thread, address, 0, permissions, s) && Bit(EntryAt(k.caps, s).permissions, 2)
    {
      SharedBits(permissions, EntryAt(k.caps, s).permissions);
    }
    NamedOnce(k, thread, address);
  }

  lemma NamedOnce(k: Kernel, thread: Ptr, address: nat)
    requires Sane(k)
    ensures forall s, s' :: NamesFor(k, thread, address, s) && NamesFor(k, thread, address, s') ==> s == s'
  {
    if thread in k.home {
      var space := k.home[thread];
      assert space in k.caps.spaces;
      LookupExactly(k.caps, k.caps.spaces[space], address);
    }
  }

  lemma SharedBits(q: Word, p: Word)
    ensures AllBits(OrShare(q), p) <==> AllBits(q, p) && Bit(p, 2)
  {
    forall o: nat | o < BPS ensures Bit(OrShare(q), o) <==> Bit(q, o) || o == 2 {
      OrBit(q, SHARE, o);
      Pow2Bit(2, o);
    }
  }

  /** src/message.c:351-374: a receiver with a space that may be changed gets the entry in its first slot
      without a type; the capability is no longer under way. */
  lemma ReceiveExactly(k: Kernel, thread: Ptr, entry: Entry)
    requires Sane(k) && entry in k.flying
    ensures var k' := Step(k, Receive(thread, entry));
            && k'.flying == k.flying - multiset{entry} && k'.home == k.home
            && (thread !in k.home ==> k'.caps == k.caps)
            && (thread in k.home && k.home[thread] in k.caps.spaces ==>
                  var t := k.caps.spaces[k.home[thread]];
                  && t in k.caps.tables && |k.caps.tables[t]| == ENTRIES
                  && (forall i: nat :: FirstFreeSlot(k.caps.tables[t], i) && Bit(k.caps.tables[t][0].permissions, 1) ==>
                        k'.caps == Write(k.caps, Slot(t, i), entry))
                  && ((forall i: nat :: !FirstFreeSlot(k.caps.tables[t], i))
                      || !Bit(k.caps.tables[t][0].permissions, 1) ==>
                        k'.caps == k.caps))
  {
    if thread in k.home && k.home[thread] in k.caps.spaces { InsertExactly(k.caps, k.home[thread], entry); }
  }

  /** src/syscall.c:190-217: a slot is reserved exactly if the thread has a space whose first entry has
      CAP_MODIFY and that has a slot without a type, not the first; it is the first such slot. */
  lemma ReserveExactly(k: Kernel, thread: Ptr)
    requires Sane(k)
    ensures thread !in k.home ==> Reserve(k, thread) == (k.caps, 0, PermissionDenied)
    ensures thread in k.home && k.home[thread] in k.caps.spaces ==>
              var t := k.caps.spaces[k.home[thread]];
              && t in k.caps.tables && |k.caps.tables[t]| == ENTRIES
              && (!Bit(k.caps.tables[t][0].permissions, 1) ==> Reserve(k, thread) == (k.caps, 0, PermissionDenied))
              && (Bit(k.caps.tables[t][0].permissions, 1) && (forall i: nat :: !FirstFreeSlot(k.caps.tables[t], i)) ==>
                    Reserve(k, thread) == (k.caps, 0, EntityFull))
              && (Bit(k.caps.tables[t][0].permissions, 1) ==>
                    forall i: nat :: i > 0 && FirstFreeSlot(k.caps.tables[t], i) ==>
                      Reserve(k, thread) == (Write(k.caps, Slot(t, i), Entry(8, 0, 0)), i, Done))
  {
    if thread in k.home && k.home[thread] in k.caps.spaces {
      InsertExactly(k.caps, k.home[thread], Entry(8, 0, 0));
      HasFlags(k.caps.tables[k.caps.spaces[k.home[thread]]][0].permissions);
    }
  }

  /** src/syscall.c:350-364: a thread gets a space exactly if the thread passes its check with CAP_MODIFY and
      the space with CAP_ACCESS. */
  lemma SetSpaceExactly(k: Kernel, thread: Ptr, other: nat, space: nat)
    requires Sane(k)
    ensures var code, k' := SetSpaceCall(k, thread, other, space).1, Step(k, SetSpace(thread, other, space));
            && (code == Done <==> Passes(k, thread, other, 5, 2) && Passes(k, thread, space, 3, 1))
            && (code != Done ==> k' == k)
            && (forall a, b :: PassesAt(k, thread, other, 5, 2, a) && PassesAt(k, thread, space, 3, 1, b) ==>
                  var t, s := EntryAt(k.caps, a).target, EntryAt(k.caps, b).target;
                  k' == k.(home := if s in k.caps.spaces then k.home[t := s] else k.home - {t}))
  {
    CheckExactly(k, thread, other, 5, 2);
    CheckExactly(k, thread, space, 3, 1);
  }
}
