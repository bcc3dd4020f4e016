/** The scheduler's queues and threads as values, and what one switch does to them. */
module SchedSpec {
  import opened Pointers
  import opened AaOrder

  datatype State = Running | Stopped | Waiting | WaitingAsync | Sending | Sleeping

  /** `onCpu` and `faulted` are the flags THREAD_FLAG_RUNNING and THREAD_FLAG_FAULTED. */
  datatype Thread = Thread(state: State, onCpu: bool, faulted: bool,
                           runtime: nat, start: nat, target: nat, priority: nat)

  type Threads = map<Ptr, Thread>

  /** src/scheduler.c:24-40: the keys of the two trees. */
  function VRuntime(threads: Threads): Key {
    t => if t in threads && threads[t].priority > 0 then threads[t].runtime / threads[t].priority else 0
  }

  function WakeTime(threads: Threads): Key {
    t => if t in threads then threads[t].target else 0
  }

  /** The two trees in order, all threads, and who is on the processor. */
  datatype Sys = Sys(run: seq<Ptr>, sleep: seq<Ptr>, threads: Threads, current: Ptr, idle: Ptr)

  /** What every operation keeps.  The sleep tree is sorted by wake-up time and holds each
      sleeping thread once; only the current thread may be flagged as being on the processor. */
  ghost predicate Good(s: Sys) {
    && NULL !in s.threads && s.idle in s.threads && (s.current == NULL || s.current in s.threads)
    && (forall t :: t in s.threads ==> s.threads[t].target <= MAX64)
    && (forall t :: t in s.run ==> t in s.threads && t != s.idle)
    && (forall t :: t in s.sleep ==> t in s.threads && t != s.idle && s.threads[t].state == Sleeping)
    && NoDup(s.sleep)
    && Sorted(s.sleep, WakeTime(s.threads))
    && (forall t :: t in s.threads && s.threads[t].onCpu ==> t == s.current)
  }

  /** Good, stated for every `z` with Inside(z), so that a proof looks into it only where it names
      one. */
  ghost predicate Kept(s: Sys) {
    forall z {:trigger Inside(z)} :: Inside(z) ==> Good(s)
  }

  lemma KeptThreads(s: Sys)
    requires Kept(s)
    ensures s.idle in s.threads && (s.current == NULL || s.current in s.threads) && NULL !in s.run && NULL !in s.sleep
    ensures forall t :: t in s.sleep ==> t in s.threads
  {
    assert Inside(0);
  }

  /** The run tree is in order of virtual runtime, and no comparison of runtimes overflows. */
  ghost predicate Ordered(s: Sys) {
    Sorted(s.run, VRuntime(s.threads)) && Bounded(s.threads)
  }

  ghost predicate Bounded(threads: Threads) {
    forall t :: t in threads ==> 0 <= VRuntime(threads)(t) <= MAX64
  }

  /** `q'` is the tree `q` with `t` put in. */
  ghost predicate Entered(q: seq<Ptr>, t: Ptr, q': seq<Ptr>, key: Key) {
    && multiset(q') == multiset(q) + multiset{t}
    && (Sorted(q, key) && AllFit(q, key, key(t)) ==> q' == StableInsert(q, t, key))
  }

  /** The threads have the same runtimes and priorities as before. */
  ghost predicate SameRuntimes(a: Threads, b: Threads) {
    a.Keys == b.Keys && forall t :: t in a ==> a[t].runtime == b[t].runtime && a[t].priority == b[t].priority
  }

  lemma SameRuntimesKeys(a: Threads, b: Threads, q: seq<Ptr>)
    requires SameRuntimes(a, b)
    ensures forall t :: VRuntime(a)(t) == VRuntime(b)(t)
    ensures Sorted(q, VRuntime(a)) <==> Sorted(q, VRuntime(b))
    ensures Bounded(a) <==> Bounded(b)
  {
    SortedSame(q, VRuntime(a), VRuntime(b));
  }

  lemma Members(s: seq<Ptr>, t: Ptr, q: seq<Ptr>)
    requires multiset(q) == multiset(s) + multiset{t}
    ensures forall x :: x in q <==> x in s || x == t
  {
    assert forall x :: x in q <==> x in multiset(q);
    assert forall x :: x in s <==> x in multiset(s);
  }

  lemma EnteredGood(s: Sys, t: Ptr, q: seq<Ptr>)
    requires Good(s) && t in s.threads && t != s.idle && Entered(s.run, t, q, VRuntime(s.threads))
    ensures Good(s.(run := q))
    ensures Ordered(s) ==> Ordered(s.(run := q)) && q == StableInsert(s.run, t, VRuntime(s.threads))
  {
    Members(s.run, t, q);
    if Ordered(s) {
      StableInsertSorted(s.run, t, VRuntime(s.threads));
    }
  }

  // ---------------------------------------------------------------- putting the current thread back

  /** The current thread if it is still to be run. */
  ghost function Runnable(s: Sys): seq<Ptr> {
    if s.current != NULL && s.current != s.idle && s.current in s.threads && s.threads[s.current].state == Running
    then [s.current] else []
  }

  function OffCpu(threads: Threads, t: Ptr): Threads {
    if t in threads then threads[t := threads[t].(onCpu := false)] else threads
  }

  lemma OffCpuGood(s: Sys, t: Ptr)
    requires Good(s)
    ensures Good(s.(threads := OffCpu(s.threads, t))) && SameRuntimes(OffCpu(s.threads, t), s.threads)
    ensures Ordered(s) <==> Ordered(s.(threads := OffCpu(s.threads, t)))
  {
    var th := OffCpu(s.threads, t);
    SameRuntimesKeys(th, s.threads, s.run);
    SortedSame(s.sleep, WakeTime(th), WakeTime(s.threads));
  }

  /** src/scheduler.c:64-72: a current thread that is still to be run goes back into the run tree. */
  ghost predicate Requeued(s: Sys, s': Sys) {
    && s' == s.(run := s'.run, threads := if Runnable(s) == [] then s.threads else OffCpu(s.threads, s.current))
    && multiset(s'.run) == multiset(s.run) + multiset(Runnable(s))
    && (Ordered(s) ==> s'.run == InsertAll(s.run, Runnable(s), VRuntime(s.threads)))
  }

  /** The same, looked into only where a proof says so. */
  ghost predicate Requeue(s: Sys, s': Sys) {
    forall z {:trigger Inside(z)} :: Inside(z) ==> Requeued(s, s')
  }

  lemma RequeueNone(s: Sys)
    ensures Runnable(s) == [] ==> Requeue(s, s)
  {
  }

  lemma RequeueStep(s: Sys, q: seq<Ptr>)
    ensures var s' := s.(run := q, threads := OffCpu(s.threads, s.current));
            Kept(s) && Runnable(s) != [] && Entered(s.run, s.current, q, VRuntime(s'.threads))
            ==> Kept(s') && Requeue(s, s')
  {
    assert Inside(0);
    var th := OffCpu(s.threads, s.current);
    if Kept(s) && Runnable(s) != [] && Entered(s.run, s.current, q, VRuntime(th)) {
      OffCpuGood(s, s.current);
      EnteredGood(s.(threads := th), s.current, q);
      if Ordered(s) {
        SameRuntimesKeys(th, s.threads, s.run);
        StableInsertSame(s.run, s.current, VRuntime(th), VRuntime(s.threads));
        InsertAllSnoc(s.run, [], s.current, VRuntime(s.threads));
        assert [] + [s.current] == [s.current];
      }
    }
  }

  // ---------------------------------------------------------------- waking sleepers

  function Woken(threads: Threads, woken: seq<Ptr>): (r: Threads)
    ensures r.Keys == threads.Keys
  {
    map t | t in threads :: if t in woken then threads[t].(target := 0, state := Running) else threads[t]
  }

  /** From `s0` the loop has moved `woken` from the sleep tree to the run tree; they had all
      expired at time `now`. */
  ghost predicate Waking(s0: Sys, s: Sys, woken: seq<Ptr>, now: nat) {
    && s0.sleep == woken + s.sleep
    && s == s0.(run := s.run, sleep := s.sleep, threads := Woken(s0.threads, woken))
    && (forall t :: t in woken ==> t in s0.threads && s0.threads[t].target <= now)
    && multiset(s.run) == multiset(s0.run) + multiset(woken)
    && (Ordered(s0) ==> s.run == InsertAll(s0.run, woken, VRuntime(s0.threads)))
  }

  /** The same, looked into only where a proof says so. */
  ghost predicate Woke(s0: Sys, s: Sys, woken: seq<Ptr>, now: nat) {
    forall z {:trigger Inside(z)} :: Inside(z) ==> Waking(s0, s, woken, now)
  }

  lemma WokeNone(s: Sys)
    ensures Woke(s, s, [], 0)
  {
    assert Woken(s.threads, []) == s.threads;
  }

  /** The first sleeper taken out of the sleep tree and made runnable. */
  function WakeFirst(s: Sys): Sys
    requires s.sleep != [] && s.sleep[0] in s.threads
  {
    var t := s.sleep[0];
    s.(sleep := s.sleep[1..], threads := s.threads[t := s.threads[t].(target := 0, state := Running)])
  }

  lemma SleepTail(s: seq<Ptr>, key: Key)
    requires s != [] && Sorted(s, key) && NoDup(s)
    ensures Sorted(s[1..], key) && NoDup(s[1..]) && s[0] !in s[1..]
  {
    var h, u := [s[0]], s[1..];
    assert s == h + u;
    SortedConcat(h, u, key);
    NoDupConcat(h, u);
    var x := s[0];
    assert x in Elems(h) && (x in u ==> x in Elems(u));
  }

  lemma WakeFirstGood(s: Sys)
    requires Good(s) && s.sleep != []
    ensures s.sleep[0] in s.threads && Good(WakeFirst(s)) && SameRuntimes(WakeFirst(s).threads, s.threads)
  {
    var t := s.sleep[0];
    assert t in s.sleep;
    SleepTail(s.sleep, WakeTime(s.threads));
    SortedSame(s.sleep[1..], WakeTime(s.threads), WakeTime(WakeFirst(s).threads));
    assert forall x :: x in s.sleep[1..] ==> x in s.sleep;
  }

  lemma WakingThreads(threads: Threads, woken: seq<Ptr>, t: Ptr)
    requires t in threads && t !in woken
    ensures var th := Woken(threads, woken);
            th[t := th[t].(target := 0, state := Running)] == Woken(threads, woken + [t])
  {
  }

  /** The order of the run tree once one more has been woken. */
  lemma WakingOrder(s0: Sys, woken: seq<Ptr>, t: Ptr, run: seq<Ptr>, threads: Threads, q: seq<Ptr>)
    requires Ordered(s0) && run == InsertAll(s0.run, woken, VRuntime(s0.threads))
    requires SameRuntimes(threads, s0.threads) && Entered(run, t, q, VRuntime(threads))
    requires t in s0.threads && forall x :: x in run ==> x in s0.threads
    ensures q == InsertAll(s0.run, woken + [t], VRuntime(s0.threads))
  {
    SameRuntimesKeys(threads, s0.threads, run);
    InsertAllSorted(s0.run, woken, VRuntime(s0.threads));
    InsertAllSnoc(s0.run, woken, t, VRuntime(s0.threads));
    StableInsertSame(run, t, VRuntime(threads), VRuntime(s0.threads));
  }

  lemma WakingGood(s: Sys, q: seq<Ptr>)
    requires Good(s) && s.sleep != [] && s.sleep[0] in s.threads
    requires Entered(s.run, s.sleep[0], q, VRuntime(WakeFirst(s).threads))
    ensures Good(WakeFirst(s).(run := q))
  {
    WakeFirstGood(s);
    EnteredGood(WakeFirst(s), s.sleep[0], q);
  }

  /** One round of the wake-up loop. */
  lemma WakingStep(s0: Sys, s: Sys, woken: seq<Ptr>, now: nat, now': nat, q: seq<Ptr>)
    requires NoDup(s0.sleep) && Waking(s0, s, woken, now) && now <= now'
    requires forall x :: x in s.run ==> x in s0.threads
    requires s.sleep != [] && s.sleep[0] in s.threads && s.threads[s.sleep[0]].target <= now'
    requires Entered(s.run, s.sleep[0], q, VRuntime(WakeFirst(s).threads))
    ensures Waking(s0, WakeFirst(s).(run := q), woken + [s.sleep[0]], now')
  {
    var t := s.sleep[0];
    NotYetWoken(woken, s.sleep);
    WakingThreads(s0.threads, woken, t);
    if Ordered(s0) {
      WakingOrder(s0, woken, t, s.run, WakeFirst(s).threads, q);
    }
  }

  /** A round of the loop as its user sees it. */
  lemma WakeRound(s0: Sys, s: Sys, woken: seq<Ptr>, now: nat, now': nat, q: seq<Ptr>)
    requires s.sleep != [] && s.sleep[0] in s.threads
    ensures Kept(s0) && Kept(s) && Woke(s0, s, woken, now) && now <= now' && s.threads[s.sleep[0]].target <= now'
            && Entered(s.run, s.sleep[0], q, VRuntime(WakeFirst(s).threads))
            ==> Kept(WakeFirst(s).(run := q)) && Woke(s0, WakeFirst(s).(run := q), woken + [s.sleep[0]], now')
  {
    assert Inside(0);
    if Kept(s0) && Kept(s) && Woke(s0, s, woken, now) && now <= now' && s.threads[s.sleep[0]].target <= now'
       && Entered(s.run, s.sleep[0], q, VRuntime(WakeFirst(s).threads)) {
      WakingGood(s, q);
      WakingStep(s0, s, woken, now, now', q);
    }
  }

  lemma WokeLater(s0: Sys, s: Sys, woken: seq<Ptr>, now: nat, now': nat)
    ensures Woke(s0, s, woken, now) && now <= now' ==> Woke(s0, s, woken, now')
  {
    assert Inside(0);
  }

  lemma NotYetWoken(woken: seq<Ptr>, rest: seq<Ptr>)
    requires NoDup(woken + rest) && rest != []
    ensures rest[0] !in woken && woken + rest == woken + [rest[0]] + rest[1..]
  {
    NoDupConcat(woken, rest);
    var h := rest[0];
    assert h in Elems(rest) && (h in woken ==> h in Elems(woken));
  }

  // ---------------------------------------------------------------- choosing the next thread

  /** src/scheduler.c:109: a thread that can be switched to. */
  predicate Fit(threads: Threads, t: Ptr) {
    t in threads && threads[t].state == Running && !threads[t].onCpu
  }

  /** src/scheduler.c:97-115: the first of the run tree is taken out, and run if it is fit. */
  function Pick(s: Sys): (Ptr, Sys) {
    if s.run == [] then (s.idle, s)
    else (if Fit(s.threads, s.run[0]) then s.run[0] else s.idle, s.(run := s.run[1..]))
  }

  /** src/scheduler.c:150: the runtime of a thread that leaves the processor; the sum wraps. */
  function NewRuntime(c: Thread, stopped: nat): nat {
    (c.runtime + stopped - c.start) % 0x1_0000_0000_0000_0000
  }

  /** src/scheduler.c:124-165, on the thread fields; 64-bit unsigned arithmetic. */
  function Jump(s: Sys, next: Ptr, stopped: nat, started: nat): Sys
    requires next in s.threads
  {
    if s.current == next then s
    else
      var th := if s.current == NULL || s.current !in s.threads then s.threads
                else
                  var c := s.threads[s.current];
                  s.threads[s.current := c.(runtime := NewRuntime(c, stopped), onCpu := false)];
      s.(threads := th[next := th[next].(onCpu := true, start := started)], current := next)
  }

  lemma JumpGood(s: Sys, next: Ptr, stopped: nat, started: nat)
    requires Good(s) && next in s.threads
    ensures Good(Jump(s, next, stopped, started))
  {
    SortedSame(s.sleep, WakeTime(s.threads), WakeTime(Jump(s, next, stopped, started).threads));
  }

  lemma PickGood(s: Sys)
    requires Good(s)
    ensures Good(Pick(s).1) && Pick(s).0 in s.threads
  {
    assert s.run != [] ==> forall x :: x in s.run[1..] ==> x in s.run;
  }

  // ---------------------------------------------------------------- a whole switch

  /** The threads just before the next one is chosen. */
  function Settled(s: Sys, woken: seq<Ptr>): Threads {
    Woken(if s.current != NULL && s.current != s.idle && s.current in s.threads && s.threads[s.current].state == Running
          then OffCpu(s.threads, s.current) else s.threads, woken)
  }

  /** src/scheduler.c:59-119 as a relation: `woken` are moved from the sleep tree, `picked` is the
      front of the run tree, and the loop's last clock reading was `now`. */
  ghost predicate Switched(s: Sys, s': Sys, woken: seq<Ptr>, picked: seq<Ptr>, now: nat, stopped: nat, started: nat) {
    && s.sleep == woken + s'.sleep
    && (forall t :: t in woken ==> t in s.threads && s.threads[t].target <= now)
    && |picked| <= 1 && (picked == [] ==> s'.run == [])
    && multiset(picked + s'.run) == multiset(s.run) + multiset(Runnable(s)) + multiset(woken)
    && (Ordered(s) ==> picked + s'.run == InsertAll(s.run, Runnable(s) + woken, VRuntime(s.threads)))
    && s'.idle == s.idle && s'.current in Settled(s, woken)
    && s'.current == (if picked != [] && Fit(Settled(s, woken), picked[0]) then picked[0] else s.idle)
    && s'.threads == Jump(s.(threads := Settled(s, woken)), s'.current, stopped, started).threads
  }

  /** The same, looked into only where a proof says so. */
  ghost predicate SwitchDone(s: Sys, s': Sys, woken: seq<Ptr>, picked: seq<Ptr>, now: nat, stopped: nat, started: nat) {
    forall z {:trigger Inside(z)} :: Inside(z) ==> Switched(s, s', woken, picked, now, stopped, started)
  }

  ghost function Front(s: Sys): seq<Ptr> {
    if s.run == [] then [] else [s.run[0]]
  }

  /** The steps of a switch, put together. */
  lemma SwitchStep(s: Sys, s1: Sys, s2: Sys, woken: seq<Ptr>, now: nat, stopped: nat, started: nat)
    requires Pick(s2).0 in s2.threads
    ensures var s4 := Jump(Pick(s2).1, Pick(s2).0, stopped, started);
            Kept(s) && Kept(s2) && Requeue(s, s1) && Woke(s1, s2, woken, now)
            ==> Kept(s4) && SwitchDone(s, s4, woken, Front(s2), now, stopped, started)
  {
    var s4 := Jump(Pick(s2).1, Pick(s2).0, stopped, started);
    if Kept(s) && Kept(s2) && Requeue(s, s1) && Woke(s1, s2, woken, now) {
      assert Kept(s4) by {
        assert Inside(0);
        PickGood(s2);
        JumpGood(Pick(s2).1, Pick(s2).0, stopped, started);
      }
      assert SwitchDone(s, s4, woken, Front(s2), now, stopped, started) by {
        assert Inside(0);
        SwitchedNow(s, s1, s2, woken, now, stopped, started);
      }
    }
  }

  lemma SwitchedNow(s: Sys, s1: Sys, s2: Sys, woken: seq<Ptr>, now: nat, stopped: nat, started: nat)
    requires Good(s) && Requeued(s, s1) && Waking(s1, s2, woken, now) && Pick(s2).0 in s2.threads
    ensures Switched(s, Jump(Pick(s2).1, Pick(s2).0, stopped, started), woken, Front(s2), now, stopped, started)
  {
    var next, s3 := Pick(s2).0, Pick(s2).1;
    var s4 := Jump(s3, next, stopped, started);
    SwitchThreads(s, s1, s2, woken, now);
    PickFront(s2);
    assert multiset(s2.run) == multiset(s.run) + multiset(Runnable(s)) + multiset(woken);
    assert Ordered(s) ==> s2.run == InsertAll(s.run, Runnable(s) + woken, VRuntime(s.threads)) by {
      if Ordered(s) { SwitchOrder(s, s1, s2, woken, now); }
    }
    JumpFields(s3, next, stopped, started);
    JumpFields(s.(threads := s2.threads), next, stopped, started);
  }

  lemma PickFront(s: Sys)
    ensures Front(s) + Pick(s).1.run == s.run && (Front(s) == [] ==> s.run == [])
  {
    if s.run != [] { assert s.run == [s.run[0]] + s.run[1..]; }
  }

  lemma JumpFields(s: Sys, next: Ptr, stopped: nat, started: nat)
    requires next in s.threads
    ensures Jump(s, next, stopped, started) ==
            s.(threads := Jump(s, next, stopped, started).threads, current := next)
    ensures forall r, u ::
              Jump(s.(run := r, sleep := u), next, stopped, started).threads == Jump(s, next, stopped, started).threads
  {
  }

  /** Who is left in the sleep tree still has the wake-up time it had before. */
  lemma NotWoken(s: Sys, s1: Sys, s2: Sys, woken: seq<Ptr>, now: nat)
    ensures Kept(s) && Requeue(s, s1) && Woke(s1, s2, woken, now) && s2.sleep != [] && s2.sleep[0] in s2.threads
            ==> s2.sleep[0] in s.threads && s2.threads[s2.sleep[0]].target == s.threads[s2.sleep[0]].target
  {
    assert Inside(0);
    if Kept(s) && Requeue(s, s1) && Woke(s1, s2, woken, now) && s2.sleep != [] && s2.sleep[0] in s2.threads {
      NotYetWoken(woken, s2.sleep);
    }
  }

  lemma KeptRun(s: Sys)
    requires Kept(s) && s.run != []
    ensures s.run[0] in s.threads
  {
    assert Inside(0);
    var t := s.run[0];
    assert t in s.run;
  }

  lemma SwitchThreads(s: Sys, s1: Sys, s2: Sys, woken: seq<Ptr>, now: nat)
    requires Good(s) && Requeued(s, s1) && Waking(s1, s2, woken, now)
    ensures s2.threads == Settled(s, woken)
    ensures s.sleep == woken + s2.sleep
    ensures forall t :: t in woken ==> t in s.threads && s.threads[t].target <= now
  {
  }

  lemma SwitchOrder(s: Sys, s1: Sys, s2: Sys, woken: seq<Ptr>, now: nat)
    requires Ordered(s) && Good(s) && Requeued(s, s1) && Waking(s1, s2, woken, now)
    ensures s2.run == InsertAll(s.run, Runnable(s) + woken, VRuntime(s.threads))
  {
    SameRuntimesKeys(s1.threads, s.threads, s1.run);
    InsertAllSorted(s.run, Runnable(s), VRuntime(s.threads));
    InsertAllSame(s1.run, woken, VRuntime(s1.threads), VRuntime(s.threads));
    InsertAllAppend(s.run, Runnable(s), woken, VRuntime(s.threads));
  }

  /** Every queued thread is runnable and off the processor, and queued once. */
  ghost predicate Exclusive(s: Sys) {
    && Good(s) && NoDup(s.run + s.sleep)
    && forall t :: t in s.run ==> s.threads[t].state == Running && !s.threads[t].onCpu && t != s.current
  }

  /** A thread taken from the run tree is dropped, and the idle thread runs instead, exactly if it
      is the current thread, woken by this very switch while still flagged as running. */
  lemma DroppedExactly(s: Sys, s': Sys, woken: seq<Ptr>, picked: seq<Ptr>, now: nat, stopped: nat, started: nat)
    requires Exclusive(s) && Switched(s, s', woken, picked, now, stopped, started)
    ensures picked != [] && s'.current == s.idle
            <==> picked == [s.current] && s.current in woken && s.threads[s.current].onCpu
  {
    if picked != [] {
      var p := picked[0];
      assert p in multiset(picked + s'.run);
      assert p in s.run || p in Runnable(s) || p in woken;
      assert p in woken ==> p in s.sleep;
    }
  }

  /** No thread is lost or duplicated: those runnable or queued before are those running or queued
      afterwards, unless the switch dropped one. */
  lemma Conserved(s: Sys, s': Sys, woken: seq<Ptr>, picked: seq<Ptr>, now: nat, stopped: nat, started: nat)
    requires Exclusive(s) && Switched(s, s', woken, picked, now, stopped, started)
    requires !(picked == [s.current] && s.current in woken && s.threads[s.current].onCpu)
    ensures multiset(Runnable(s)) + multiset(s.run) + multiset(s.sleep)
            == multiset(if s'.current == s.idle then [] else [s'.current]) + multiset(s'.run) + multiset(s'.sleep)
  {
    DroppedExactly(s, s', woken, picked, now, stopped, started);
    if picked != [] { assert picked == [picked[0]]; }
  }

  /** With a run tree in order, the next thread has the least virtual runtime, and the earliest
      queued of those goes first: the run tree's, then the preempted thread, then the woken. */
  lemma PickedIsFirst(s: Sys, s': Sys, woken: seq<Ptr>, picked: seq<Ptr>, now: nat, stopped: nat, started: nat)
    requires Ordered(s) && Switched(s, s', woken, picked, now, stopped, started)
    ensures picked == [] <==> s.run + (Runnable(s) + woken) == []
    ensures picked != [] ==> picked[0] == FirstMin(s.run + (Runnable(s) + woken), VRuntime(s.threads))
  {
    if s.run + (Runnable(s) + woken) != [] {
      InsertAllHead(s.run, Runnable(s) + woken, VRuntime(s.threads));
      assert picked != [] ==> (picked + s'.run)[0] == picked[0];
    }
  }

  /** All who had expired when the switch began are woken, as long as the first of the rest had
      not at the last reading. */
  lemma AllExpiredWoken(s: Sys, s': Sys, woken: seq<Ptr>, now: nat, t: Ptr)
    requires Good(s) && s.sleep == woken + s'.sleep && t in s.sleep
    requires s'.sleep != [] ==> s'.sleep[0] in s.threads && now < s.threads[s'.sleep[0]].target
    requires s.threads[t].target <= now
    ensures t in woken
  {
    if s'.sleep != [] {
      SortedConcat(woken, s'.sleep, WakeTime(s.threads));
      forall j | 0 <= j < |s'.sleep| ensures now < WakeTime(s.threads)(s'.sleep[j]) {
        if j > 0 { assert Before(s'.sleep, 0, j); }
      }
    }
  }

  /** A switch keeps every queued thread runnable, off the processor, and queued once. */
  lemma SwitchedExclusive(s: Sys, s': Sys, woken: seq<Ptr>, picked: seq<Ptr>, now: nat, stopped: nat, started: nat)
    requires Exclusive(s) && Good(s') && Switched(s, s', woken, picked, now, stopped, started)
    ensures Exclusive(s')
  {
    SwitchedOnce(s, s', woken, picked);
    forall t | t in s'.run
      ensures s'.threads[t].state == Running && !s'.threads[t].onCpu && t != s'.current
    {
      SwitchedQueued(s, s', woken, picked, now, stopped, started, t);
    }
  }

  lemma SwitchedQueued(s: Sys, s': Sys, woken: seq<Ptr>, picked: seq<Ptr>, now: nat, stopped: nat, started: nat, t: Ptr)
    requires Exclusive(s) && Good(s') && Switched(s, s', woken, picked, now, stopped, started)
    requires t in s'.run && t !in picked
    ensures s'.threads[t].state == Running && !s'.threads[t].onCpu && t != s'.current
  {
    var th := Settled(s, woken);
    assert th[t].state == Running && (th[t].onCpu ==> t == s.current) by {
      assert t in multiset(picked + s'.run);
      assert t in s.run || t in Runnable(s) || t in woken;
      assert t in woken ==> t in s.sleep;
    }
    assert t != s'.current;
  }

  lemma SwitchedOnce(s: Sys, s': Sys, woken: seq<Ptr>, picked: seq<Ptr>)
    requires Exclusive(s) && s.sleep == woken + s'.sleep
    requires multiset(picked + s'.run) == multiset(s.run) + multiset(Runnable(s)) + multiset(woken)
    ensures NoDup(s'.run + s'.sleep) && forall t :: t in s'.run ==> t !in picked
  {
    var all := s.run + s.sleep;
    var c := Runnable(s);
    OnceMultiset(all);
    var m := multiset(all) + multiset(c);
    forall t ensures m[t] <= 1 {
      if t in c { assert t !in s.run && t !in s.sleep; assert t !in all; assert t !in multiset(all); }
    }
    var p, r, u := multiset(picked), multiset(s'.run), multiset(s'.sleep);
    assert multiset(all) == multiset(s.run) + multiset(s.sleep);
    assert multiset(s.sleep) == multiset(woken) + u;
    assert multiset(picked + s'.run) == p + r;
    assert m == p + r + u;
    assert multiset(s'.run + s'.sleep) == r + u;
    forall t ensures multiset(s'.run + s'.sleep)[t] <= 1 && (t in s'.run ==> t !in picked) {
      assert m[t] == p[t] + r[t] + u[t];
      assert t in s'.run ==> t in r;
      assert t in picked ==> t in p;
    }
    OnceSeq(s'.run + s'.sleep);
  }

  lemma {:induction false} OnceMultiset(s: seq<Ptr>)
    requires NoDup(s)
    ensures forall t :: multiset(s)[t] <= 1
  {
    if s != [] {
      var h, u := [s[0]], s[1..];
      assert s == h + u;
      NoDupConcat(h, u);
      OnceMultiset(u);
      var x := s[0];
      assert x in Elems(h) && (x in u ==> x in Elems(u));
      assert multiset(s) == multiset{x} + multiset(u);
      assert x !in multiset(u);
    }
  }

  lemma OnceSeq(s: seq<Ptr>)
    requires forall t :: multiset(s)[t] <= 1
    ensures NoDup(s)
  {
    forall i, j, x | Pos(s, i, x) && Pos(s, j, x) ensures i == j {
      if i < j {
        TwicePos(s, i, j);
      } else if j < i {
        TwicePos(s, j, i);
      }
    }
  }

  lemma TwicePos(s: seq<Ptr>, i: nat, j: nat)
    requires i < j < |s| && s[i] == s[j]
    ensures multiset(s)[s[i]] >= 2
  {
    assert s == s[..j] + s[j..];
    assert s[..j][i] == s[i] && s[j..][0] == s[j];
    var x := s[i];
    assert x in s[..j] && x in s[j..];
    assert x in multiset(s[..j]) && x in multiset(s[j..]);
  }

  // ---------------------------------------------------------------- the other operations

  /** src/scheduler.c:276-278: the current thread goes to sleep until `target`. */
  function Asleep(threads: Threads, t: Ptr, target: nat): Threads
    requires t in threads
  {
    threads[t := threads[t].(state := Sleeping, target := target)]
  }

  lemma AsleepSorted(s: Sys, target: nat, q: seq<Ptr>)
    requires Good(s) && s.current in s.threads && s.current !in s.sleep && target <= MAX64
    requires Entered(s.sleep, s.current, q, WakeTime(Asleep(s.threads, s.current, target)))
    ensures var key := WakeTime(Asleep(s.threads, s.current, target));
            q == StableInsert(s.sleep, s.current, key) && Sorted(q, key)
    ensures forall t :: t in q <==> t in s.sleep || t == s.current
  {
    var th := Asleep(s.threads, s.current, target);
    SortedSame(s.sleep, WakeTime(s.threads), WakeTime(th));
    StableInsertSorted(s.sleep, s.current, WakeTime(th));
    Members(s.sleep, s.current, q);
  }

  /** Going to sleep keeps the sleep tree sorted, and puts the thread behind all that wake no later. */
  lemma AsleepGood(s: Sys, target: nat, q: seq<Ptr>)
    requires Good(s) && s.current in s.threads && s.current != s.idle && s.threads[s.current].state == Running
    requires target <= MAX64
    requires Entered(s.sleep, s.current, q, WakeTime(Asleep(s.threads, s.current, target)))
    ensures Good(s.(sleep := q, threads := Asleep(s.threads, s.current, target)))
    ensures q == StableInsert(s.sleep, s.current, WakeTime(Asleep(s.threads, s.current, target)))
  {
    AsleepSorted(s, target, q);
    OnceMoreAlone(s.sleep, s.current, q);
  }

  lemma AsleepExclusive(s: Sys, target: nat, q: seq<Ptr>)
    requires Exclusive(s) && s.current in s.threads && s.current != s.idle && s.threads[s.current].state == Running
    requires target <= MAX64
    requires Entered(s.sleep, s.current, q, WakeTime(Asleep(s.threads, s.current, target)))
    ensures Exclusive(s.(sleep := q, threads := Asleep(s.threads, s.current, target)))
  {
    AsleepGood(s, target, q);
    OnceMore(s.run, s.sleep, s.current, q);
  }

  /** Going to sleep as its user sees it. */
  lemma SleepStep(s: Sys, target: nat, q: seq<Ptr>)
    requires s.current in s.threads
    ensures var s' := s.(sleep := q, threads := Asleep(s.threads, s.current, target));
            Kept(s) && s.current != s.idle && s.threads[s.current].state == Running && target <= MAX64
            && Entered(s.sleep, s.current, q, WakeTime(s'.threads))
            ==> Kept(s')
  {
    if Kept(s) && s.current != s.idle && s.threads[s.current].state == Running && target <= MAX64
       && Entered(s.sleep, s.current, q, WakeTime(Asleep(s.threads, s.current, target))) {
      assert Inside(0);
      AsleepGood(s, target, q);
    }
  }

  /** One more element, not there before. */
  lemma OnceMore(r: seq<Ptr>, s: seq<Ptr>, t: Ptr, q: seq<Ptr>)
    requires NoDup(r + s) && t !in r && t !in s && multiset(q) == multiset(s) + multiset{t}
    ensures NoDup(r + q) && NoDup(q)
  {
    OnceMultiset(r + s);
    assert multiset(r + s) == multiset(r) + multiset(s);
    assert multiset(r + q) == multiset(r + s) + multiset{t};
    assert t !in r + s;
    assert t !in multiset(r + s);
    OnceSeq(r + q);
    NoDupConcat(r, q);
  }

  lemma OnceMoreAlone(s: seq<Ptr>, t: Ptr, q: seq<Ptr>)
    requires NoDup(s) && t !in s && multiset(q) == multiset(s) + multiset{t}
    ensures NoDup(q)
  {
    assert [] + s == s;
    OnceMore([], s, t, q);
  }

  /** src/scheduler.c:234-238 */
  function Stop(s: Sys, t: Ptr): Sys
    requires t in s.threads
  {
    if s.threads[t].state == Running then s.(threads := s.threads[t := s.threads[t].(state := Stopped)]) else s
  }

  /** Stopping a thread keeps the queues exclusive exactly if it is not in the run tree. */
  lemma StopExactly(s: Sys, t: Ptr)
    requires Exclusive(s) && t in s.threads
    ensures Exclusive(Stop(s, t)) <==> t !in s.run
  {
    SortedSame(s.sleep, WakeTime(s.threads), WakeTime(Stop(s, t).threads));
  }

  /** A thread stopped while queued, and continued, is queued twice. */
  lemma StopContinueDuplicates(s: Sys, t: Ptr, q: seq<Ptr>)
    requires Exclusive(s) && t in s.run && Entered(s.run, t, q, VRuntime(Stop(s, t).threads))
    ensures Stop(s, t).threads[t].state == Stopped && multiset(q)[t] == 2
  {
    assert t in multiset(s.run);
    OnceMultiset(s.run + s.sleep);
    assert multiset(s.run + s.sleep) == multiset(s.run) + multiset(s.sleep);
    assert multiset(s.run + s.sleep)[t] <= 1;
  }

  // ---------------------------------------------------------------- adding, continuing, stopping

  lemma StopStep(s: Sys, t: Ptr)
    requires t in s.threads
    ensures Kept(s) ==> Kept(Stop(s, t))
  {
    if Kept(s) {
      assert Inside(0);
      SortedSame(s.sleep, WakeTime(s.threads), WakeTime(Stop(s, t).threads));
    }
  }

  /** src/scheduler.c:222-228: a stopped thread becomes runnable. */
  function Continued(s: Sys, t: Ptr): Sys
    requires t in s.threads
  {
    s.(threads := s.threads[t := s.threads[t].(state := Running, faulted := false)])
  }

  lemma ContinueStep(s: Sys, t: Ptr, q: seq<Ptr>)
    requires t in s.threads
    ensures Kept(s) && t != s.idle && s.threads[t].state == Stopped
            && Entered(s.run, t, q, VRuntime(Continued(s, t).threads))
            ==> Kept(Continued(s, t).(run := q))
  {
    if Kept(s) && t != s.idle && s.threads[t].state == Stopped
      && Entered(s.run, t, q, VRuntime(Continued(s, t).threads)) {
      assert Inside(0);
      SortedSame(s.sleep, WakeTime(s.threads), WakeTime(Continued(s, t).threads));
      EnteredGood(Continued(s, t), t, q);
    }
  }

  /** A runnable thread queued: the queues stay exclusive exactly if it is off the processor, not
      current and not queued. */
  lemma AddExactly(s: Sys, t: Ptr, q: seq<Ptr>)
    requires Exclusive(s) && t in s.threads && t != s.idle && s.threads[t].state == Running
    requires Entered(s.run, t, q, VRuntime(s.threads))
    ensures Exclusive(s.(run := q)) <==> t !in s.run && t != s.current && !s.threads[t].onCpu
  {
    EnteredGood(s, t, q);
    Members(s.run, t, q);
    if t !in s.run {
      assert t !in s.sleep;
      OnceMoreFirst(s.run, s.sleep, t, q);
    } else {
      QueuedTwice(s.run, s.sleep, t, q);
    }
  }

  lemma QueuedTwice(r: seq<Ptr>, s: seq<Ptr>, t: Ptr, q: seq<Ptr>)
    requires t in r && multiset(q) == multiset(r) + multiset{t}
    ensures !NoDup(q + s)
  {
    assert t in multiset(r);
    assert multiset(q + s) == multiset(q) + multiset(s);
    assert multiset(q + s)[t] >= 2;
    if NoDup(q + s) {
      OnceMultiset(q + s);
    }
  }

  lemma OnceMoreFirst(r: seq<Ptr>, s: seq<Ptr>, t: Ptr, q: seq<Ptr>)
    requires NoDup(r + s) && t !in r && t !in s && multiset(q) == multiset(r) + multiset{t}
    ensures NoDup(q + s)
  {
    OnceMultiset(r + s);
    assert multiset(r + s) == multiset(r) + multiset(s);
    assert multiset(q + s) == multiset(r + s) + multiset{t};
    assert t !in r + s;
    assert t !in multiset(r + s);
    OnceSeq(q + s);
  }

  lemma AddStep(s: Sys, t: Ptr, q: seq<Ptr>)
    requires t in s.threads
    ensures Kept(s) && t != s.idle && Entered(s.run, t, q, VRuntime(s.threads)) ==> Kept(s.(run := q))
  {
    if Kept(s) && t != s.idle && Entered(s.run, t, q, VRuntime(s.threads)) {
      assert Inside(0);
      EnteredGood(s, t, q);
    }
  }
}
