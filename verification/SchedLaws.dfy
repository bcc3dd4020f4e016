/** What a switch does, said of the state before it and the clock: whom it loses, whether it leaves
    the run tree in order, and what every run of the scheduler's operations keeps. */
module SchedLaws {
  import opened Pointers
  import opened AaOrder
  import opened SchedSpec

  // ---------------------------------------------------------------- who is woken

  /** The front part of the sleep tree that has expired at `now`. */
  ghost function Expired(threads: Threads, sleep: seq<Ptr>, now: nat): seq<Ptr> {
    if sleep == [] || sleep[0] !in threads || threads[sleep[0]].target > now then []
    else [sleep[0]] + Expired(threads, sleep[1..], now)
  }

  /** The first thread left asleep, if any, had not expired. */
  ghost predicate StillAsleep(s: Sys, s': Sys, now: nat) {
    s'.sleep != [] ==> s'.sleep[0] in s.threads && now < s.threads[s'.sleep[0]].target
  }

  lemma {:induction false} ExpiredPrefix(threads: Threads, woken: seq<Ptr>, rest: seq<Ptr>, now: nat)
    requires forall t :: t in woken ==> t in threads && threads[t].target <= now
    requires rest != [] ==> rest[0] in threads && now < threads[rest[0]].target
    ensures Expired(threads, woken + rest, now) == woken
  {
    if woken == [] {
      assert woken + rest == rest;
    } else {
      var t := woken[0];
      assert t in woken;
      assert (woken + rest)[0] == t && (woken + rest)[1..] == woken[1..] + rest;
      ExpiredPrefix(threads, woken[1..], rest, now);
    }
  }

  /** A switch wakes exactly the expired front part of the sleep tree. */
  lemma WokenAreExpired(s: Sys, s': Sys, woken: seq<Ptr>, picked: seq<Ptr>, now: nat, stopped: nat, started: nat)
    requires Switched(s, s', woken, picked, now, stopped, started) && StillAsleep(s, s', now)
    ensures woken == Expired(s.threads, s.sleep, now)
  {
    ExpiredPrefix(s.threads, woken, s'.sleep, now);
  }

  // ---------------------------------------------------------------- the thread a switch loses

  /** Who may be picked: the run tree, the current thread if it still runs, and the expired. */
  ghost function Candidates(s: Sys, now: nat): seq<Ptr> {
    s.run + (Runnable(s) + Expired(s.threads, s.sleep, now))
  }

  /** The current thread is asleep, has expired while it is still flagged as running, and comes
      first of all candidates. */
  ghost predicate Drops(s: Sys, now: nat) {
    && s.current in s.sleep && s.current in s.threads && s.threads[s.current].onCpu
    && s.threads[s.current].target <= now
    && Candidates(s, now) != [] && FirstMin(Candidates(s, now), VRuntime(s.threads)) == s.current
  }

  lemma AsleepWoken(s: Sys, s': Sys, woken: seq<Ptr>, now: nat)
    requires Good(s) && s.sleep == woken + s'.sleep && StillAsleep(s, s', now)
    requires forall t :: t in woken ==> t in s.threads && s.threads[t].target <= now
    ensures forall t :: t in woken <==> t in s.sleep && s.threads[t].target <= now
  {
    forall t ensures t in woken <==> t in s.sleep && s.threads[t].target <= now {
      if t in s.sleep && s.threads[t].target <= now { AllExpiredWoken(s, s', woken, now, t); }
    }
  }

  /** A switch picks a thread and runs the idle thread all the same exactly if the state before it
      and the clock say so; the thread is then in neither tree. */
  lemma LosesExactly(s: Sys, s': Sys, woken: seq<Ptr>, picked: seq<Ptr>, now: nat, stopped: nat, started: nat)
    requires Exclusive(s) && Ordered(s) && Switched(s, s', woken, picked, now, stopped, started)
    requires StillAsleep(s, s', now)
    ensures picked != [] && s'.current == s.idle <==> Drops(s, now)
    ensures Drops(s, now) ==>
              && picked == [s.current] && s.current !in s'.run && s.current !in s'.sleep
              && s'.current == s.idle != s.current
  {
    DroppedExactly(s, s', woken, picked, now, stopped, started);
    PickedIsFirst(s, s', woken, picked, now, stopped, started);
    WokenAreExpired(s, s', woken, picked, now, stopped, started);
    AsleepWoken(s, s', woken, now);
    if Drops(s, now) {
      assert picked == [picked[0]];
      SwitchedOnce(s, s', woken, picked);
      assert s.current in picked;
      WokenLeave(woken, s'.sleep, s.current);
    }
  }

  lemma WokenLeave(woken: seq<Ptr>, rest: seq<Ptr>, t: Ptr)
    requires NoDup(woken + rest) && t in woken
    ensures t !in rest
  {
    NoDupConcat(woken, rest);
    assert t in Elems(woken) && (t in rest ==> t in Elems(rest));
  }

  /** No thread is lost or duplicated, those runnable or queued before being those running or queued
      afterwards, exactly if the switch does not drop the current thread. */
  lemma ConservedExactly(s: Sys, s': Sys, woken: seq<Ptr>, picked: seq<Ptr>, now: nat, stopped: nat, started: nat)
    requires Exclusive(s) && Ordered(s) && Switched(s, s', woken, picked, now, stopped, started)
    requires StillAsleep(s, s', now)
    ensures multiset(Runnable(s)) + multiset(s.run) + multiset(s.sleep)
            == multiset(if s'.current == s.idle then [] else [s'.current]) + multiset(s'.run) + multiset(s'.sleep)
            <==> !Drops(s, now)
  {
    LosesExactly(s, s', woken, picked, now, stopped, started);
    if Drops(s, now) {
      Lost(s.current, multiset(Runnable(s)) + multiset(s.run), s.sleep, s'.run, s'.sleep);
    } else {
      DroppedExactly(s, s', woken, picked, now, stopped, started);
      Conserved(s, s', woken, picked, now, stopped, started);
    }
  }

  lemma Lost(c: Ptr, m: multiset<Ptr>, sleep: seq<Ptr>, run': seq<Ptr>, sleep': seq<Ptr>)
    requires c in sleep && c !in run' && c !in sleep'
    ensures m + multiset(sleep) != multiset([]) + multiset(run') + multiset(sleep')
  {
    assert c in m + multiset(sleep);
    assert c !in multiset(run') && c !in multiset(sleep');
  }

  /** Whatever the order of the run tree: no thread is lost or duplicated if the current thread is
      not asleep and expired while flagged as running. */
  lemma ConservedAwake(s: Sys, s': Sys, woken: seq<Ptr>, picked: seq<Ptr>, now: nat, stopped: nat, started: nat)
    requires Exclusive(s) && Switched(s, s', woken, picked, now, stopped, started)
    requires !(s.current in s.sleep && s.threads[s.current].onCpu && s.threads[s.current].target <= now)
    ensures multiset(Runnable(s)) + multiset(s.run) + multiset(s.sleep)
            == multiset(if s'.current == s.idle then [] else [s'.current]) + multiset(s'.run) + multiset(s'.sleep)
  {
    assert s.current in woken ==> s.current in s.sleep;
    Conserved(s, s', woken, picked, now, stopped, started);
  }

  // ---------------------------------------------------------------- the order of the run tree

  const WRAP64: int := 0x1_0000_0000_0000_0000

  /** The key that the current thread has once its runtime is brought up to date; the sum wraps. */
  ghost function NewKey(s: Sys, stopped: nat): int
    requires s.current in s.threads
  {
    var c := s.threads[s.current];
    if c.priority > 0 then NewRuntime(c, stopped) / c.priority else 0
  }

  /** The run tree once the expired are in it and the first is taken out. */
  ghost function Left(s: Sys, now: nat): seq<Ptr> {
    var q := InsertAll(s.run, Runnable(s) + Expired(s.threads, s.sleep, now), VRuntime(s.threads));
    if q == [] then [] else q[1..]
  }

  /** `k` is between the keys of the neighbours of position `i`. */
  ghost predicate Between(q: seq<Ptr>, i: int, k: int, key: Key) {
    && (0 < i < |q| ==> key(q[i - 1]) <= k)
    && (0 <= i < |q| - 1 ==> k <= key(q[i + 1]))
  }

  /** The current thread's new key fits where the switch has put it by its old one: it does not pass
      the key behind it, nor, having wrapped around, fall below the key before it. */
  ghost predicate FitsPlace(s: Sys, now: nat, stopped: nat) {
    forall i {:trigger Pos(Left(s, now), i, s.current)} ::
      Pos(Left(s, now), i, s.current) && s.current in s.threads ==>
          Between(Left(s, now), i, NewKey(s, stopped), VRuntime(s.threads))
  }

  /** One key of a sorted sequence changes: the order holds exactly if it stays between its neighbours'. */
  lemma KeyChanges(q: seq<Ptr>, i: nat, key: Key, key': Key)
    requires Sorted(q, key) && NoDup(q) && i < |q| && forall x :: x in q && x != q[i] ==> key'(x) == key(x)
    ensures Sorted(q, key') <==> Between(q, i, key'(q[i]), key)
  {
    var t := q[i];
    forall j | 0 <= j < |q| && j != i ensures key'(q[j]) == key(q[j]) {
      assert Pos(q, i, t) && (q[j] == t ==> Pos(q, j, t));
      var x := q[j];
      assert x in q;
    }
    if Sorted(q, key') {
      assert i > 0 ==> Before(q, i - 1, i);
      assert i + 1 < |q| ==> Before(q, i, i + 1);
    }
    if Between(q, i, key'(t), key) {
      forall a, b | Before(q, a, b) ensures key'(q[a]) <= key'(q[b]) {
        assert a < i - 1 ==> Before(q, a, i - 1);
        assert i + 1 < b ==> Before(q, i + 1, b);
      }
    }
  }

  /** The runtimes after a jump. */
  lemma JumpRuntimes(s: Sys, next: Ptr, stopped: nat, started: nat)
    requires next in s.threads
    ensures var th := Jump(s, next, stopped, started).threads;
            && th.Keys == s.threads.Keys
            && forall t :: t in th ==>
                 && th[t].priority == s.threads[t].priority
                 && th[t].runtime == if t == s.current && next != s.current && t != NULL
                                     then NewRuntime(s.threads[t], stopped) else s.threads[t].runtime
  {
  }

  lemma SettledRuntimes(s: Sys, woken: seq<Ptr>)
    ensures var th := Settled(s, woken);
            && th.Keys == s.threads.Keys
            && forall t :: t in th ==>
                 && th[t].priority == s.threads[t].priority && th[t].runtime == s.threads[t].runtime
                 && th[t].start == s.threads[t].start
  {
  }

  /** Only the current thread's runtime has changed, and only if it has left the processor. */
  ghost predicate Aged(s: Sys, th: Threads, next: Ptr, stopped: nat) {
    && th.Keys == s.threads.Keys
    && forall t :: t in th ==>
         && th[t].priority == s.threads[t].priority
         && th[t].runtime == if t == s.current && next != s.current
                             then NewRuntime(s.threads[t], stopped) else s.threads[t].runtime
  }

  lemma SwitchAges(s: Sys, s': Sys, woken: seq<Ptr>, picked: seq<Ptr>, now: nat, stopped: nat, started: nat)
    requires Good(s) && Switched(s, s', woken, picked, now, stopped, started)
    ensures Aged(s, s'.threads, s'.current, stopped)
  {
    var th := Settled(s, woken);
    SettledRuntimes(s, woken);
    JumpRuntimes(s.(threads := th), s'.current, stopped, started);
    if s.current in s.threads { SameNewRuntime(th[s.current], s.threads[s.current], stopped); }
  }

  /** The keys after a switch. */
  lemma KeysAfter(s: Sys, th: Threads, next: Ptr, stopped: nat)
    requires Aged(s, th, next, stopped)
    ensures forall t :: t != s.current || next == s.current ==> VRuntime(th)(t) == VRuntime(s.threads)(t)
    ensures s.current in s.threads && next != s.current ==> VRuntime(th)(s.current) == NewKey(s, stopped)
  {
    forall t | t != s.current || next == s.current ensures VRuntime(th)(t) == VRuntime(s.threads)(t) {
      SameKey(th, s.threads, t);
    }
  }

  lemma SameKey(a: Threads, b: Threads, t: Ptr)
    requires t in a <==> t in b
    requires t in a ==> a[t].runtime == b[t].runtime && a[t].priority == b[t].priority
    ensures VRuntime(a)(t) == VRuntime(b)(t)
  {
  }

  lemma SameNewRuntime(a: Thread, b: Thread, stopped: nat)
    requires a.runtime == b.runtime && a.start == b.start
    ensures NewRuntime(a, stopped) == NewRuntime(b, stopped)
  {
  }

  /** The run tree after a switch, in terms of the state before it. */
  lemma RunAfter(s: Sys, s': Sys, woken: seq<Ptr>, picked: seq<Ptr>, now: nat, stopped: nat, started: nat)
    requires Exclusive(s) && Ordered(s) && Switched(s, s', woken, picked, now, stopped, started)
    requires StillAsleep(s, s', now)
    ensures s'.run == Left(s, now) && Sorted(s'.run, VRuntime(s.threads)) && NoDup(s'.run) && s'.current !in s'.run
  {
    WokenAreExpired(s, s', woken, picked, now, stopped, started);
    InsertAllSorted(s.run, Runnable(s) + woken, VRuntime(s.threads));
    SortedConcat(picked, s'.run, VRuntime(s.threads));
    assert picked + s'.run != [] ==> (picked + s'.run)[1..] == s'.run;
    SwitchedOnce(s, s', woken, picked);
    NoDupConcat(s'.run, s'.sleep);
    RunMembers(s, s', woken, picked, now, stopped, started);
  }

  lemma RunMembers(s: Sys, s': Sys, woken: seq<Ptr>, picked: seq<Ptr>, now: nat, stopped: nat, started: nat)
    requires Exclusive(s) && Switched(s, s', woken, picked, now, stopped, started)
    ensures s'.current !in s'.run && forall t :: t in s'.run ==> t in s.threads && t != s.idle
  {
    SwitchedOnce(s, s', woken, picked);
    forall t | t in s'.run ensures t in s.threads && t != s.idle && t !in picked {
      assert t in multiset(picked + s'.run);
      assert t in s.run || t in Runnable(s) || t in woken;
      assert t in woken ==> t in s.sleep;
    }
  }

  /** A switch leaves a sorted run tree sorted exactly if the current thread, queued by the runtime it
      had before, fits its place by the runtime it has after. */
  lemma SortedExactly(s: Sys, s': Sys, woken: seq<Ptr>, picked: seq<Ptr>, now: nat, stopped: nat, started: nat)
    requires Exclusive(s) && Ordered(s) && Switched(s, s', woken, picked, now, stopped, started)
    requires StillAsleep(s, s', now)
    ensures Sorted(s'.run, VRuntime(s'.threads)) <==> FitsPlace(s, now, stopped)
  {
    RunAfter(s, s', woken, picked, now, stopped, started);
    SwitchAges(s, s', woken, picked, now, stopped, started);
    KeysAfter(s, s'.threads, s'.current, stopped);
    var q, key, key' := s'.run, VRuntime(s.threads), VRuntime(s'.threads);
    if s.current in q {
      var i :| 0 <= i < |q| && q[i] == s.current;
      assert Pos(q, i, s.current);
      RunMembers(s, s', woken, picked, now, stopped, started);
      KeyChanges(q, i, key, key');
    } else {
      SortedSame(q, key, key');
    }
  }

  lemma NewKeyGrows(s: Sys, stopped: nat)
    requires s.current in s.threads
    requires var c := s.threads[s.current]; c.start <= stopped && c.runtime + stopped - c.start < WRAP64
    ensures VRuntime(s.threads)(s.current) <= NewKey(s, stopped)
  {
    var c := s.threads[s.current];
    NoWrap(c, stopped);
    if c.priority > 0 { DivGrows(c.runtime, NewRuntime(c, stopped), c.priority); }
  }

  lemma NoWrap(c: Thread, stopped: nat)
    requires c.start <= stopped && c.runtime + stopped - c.start < WRAP64
    ensures NewRuntime(c, stopped) == c.runtime + stopped - c.start >= c.runtime
  {
  }

  lemma DivGrows(a: nat, b: nat, d: nat)
    requires a <= b && d > 0
    ensures a / d <= b / d
  {
    var x, y := a / d, b / d;
    assert a == x * d + a % d && b == y * d + b % d;
    if x > y { MulGap(y, x - y - 1, d); }
  }

  lemma MulGap(y: nat, k: nat, d: nat)
    ensures (y + 1 + k) * d >= y * d + d
  {
    assert (y + 1 + k) * d == y * d + d + k * d;
  }

  lemma GrownFits(s: Sys, now: nat, stopped: nat, i: nat)
    requires s.current in s.threads && Pos(Left(s, now), i, s.current) && NoDup(Left(s, now))
    requires Sorted(Left(s, now), VRuntime(s.threads))
    requires VRuntime(s.threads)(s.current) <= NewKey(s, stopped)
    ensures FitsPlace(s, now, stopped) <==>
            i + 1 == |Left(s, now)| || NewKey(s, stopped) <= VRuntime(s.threads)(Left(s, now)[i + 1])
  {
    assert i > 0 ==> Before(Left(s, now), i - 1, i);
  }

  /** Where the sum does not wrap, the key grows, and only the thread behind matters. */
  lemma GrownExactly(s: Sys, s': Sys, woken: seq<Ptr>, picked: seq<Ptr>, now: nat, stopped: nat, started: nat, i: nat)
    requires Exclusive(s) && Ordered(s) && Switched(s, s', woken, picked, now, stopped, started)
    requires StillAsleep(s, s', now)
    requires s.current in s.threads && Pos(Left(s, now), i, s.current)
    requires var c := s.threads[s.current]; c.start <= stopped && c.runtime + stopped - c.start < WRAP64
    ensures Sorted(s'.run, VRuntime(s'.threads)) <==>
            i + 1 == |Left(s, now)| || NewKey(s, stopped) <= VRuntime(s.threads)(Left(s, now)[i + 1])
  {
    SortedExactly(s, s', woken, picked, now, stopped, started);
    RunAfter(s, s', woken, picked, now, stopped, started);
    NewKeyGrows(s, stopped);
    GrownFits(s, now, stopped, i);
  }

  // ---------------------------------------------------------------- two runs that go wrong

  /** Whom a switch takes out of the run tree. */
  ghost function Taken(s: Sys, now: nat): seq<Ptr> {
    var q := InsertAll(s.run, Runnable(s) + Expired(s.threads, s.sleep, now), VRuntime(s.threads));
    if q == [] then [] else [q[0]]
  }

  /** The thread that a switch runs next. */
  ghost function Chosen(s: Sys, now: nat): Ptr {
    var p := Taken(s, now);
    if p != [] && Fit(Settled(s, Expired(s.threads, s.sleep, now)), p[0]) then p[0] else s.idle
  }

  /** The state after a switch from a sorted run tree. */
  ghost function After(s: Sys, now: nat, stopped: nat, started: nat): Sys
    requires Good(s)
  {
    var woken := Expired(s.threads, s.sleep, now);
    ExpiredFront(s.threads, s.sleep, now);
    Sys(Left(s, now), s.sleep[|woken|..],
        Jump(s.(threads := Settled(s, woken)), Chosen(s, now), stopped, started).threads, Chosen(s, now), s.idle)
  }

  lemma {:induction false} ExpiredFront(threads: Threads, sleep: seq<Ptr>, now: nat)
    ensures var w := Expired(threads, sleep, now);
            && |w| <= |sleep| && sleep == w + sleep[|w|..]
            && (forall t :: t in w ==> t in threads && threads[t].target <= now)
            && (|w| < |sleep| ==> sleep[|w|] in threads ==> now < threads[sleep[|w|]].target)
  {
    if sleep != [] && sleep[0] in threads && threads[sleep[0]].target <= now {
      ExpiredFront(threads, sleep[1..], now);
      var v := Expired(threads, sleep[1..], now);
      assert sleep == [sleep[0]] + (v + sleep[1..][|v|..]);
      assert sleep[1..][|v|..] == sleep[|v| + 1..];
    }
  }

  /** From a sorted run tree there is such a switch, for every reading of the clock. */
  lemma AfterSwitched(s: Sys, now: nat, stopped: nat, started: nat)
    requires Good(s) && Ordered(s)
    ensures Switched(s, After(s, now, stopped, started), Expired(s.threads, s.sleep, now), Taken(s, now), now,
                     stopped, started)
    ensures StillAsleep(s, After(s, now, stopped, started), now)
  {
    var s', woken := After(s, now, stopped, started), Expired(s.threads, s.sleep, now);
    AfterSleep(s, now, stopped, started);
    AfterThreads(s, now, stopped, started);
    TakenLeft(s, now);
    Assembled(s, s', woken, Taken(s, now), now, stopped, started);
  }

  /** A switch, from what it does to the sleep tree, the run tree and the threads. */
  lemma Assembled(s: Sys, s': Sys, woken: seq<Ptr>, picked: seq<Ptr>, now: nat, stopped: nat, started: nat)
    requires s.sleep == woken + s'.sleep && forall t :: t in woken ==> t in s.threads && s.threads[t].target <= now
    requires |picked| <= 1 && (picked == [] ==> s'.run == [])
    requires multiset(picked + s'.run) == multiset(s.run) + multiset(Runnable(s)) + multiset(woken)
    requires picked + s'.run == InsertAll(s.run, Runnable(s) + woken, VRuntime(s.threads))
    requires ThreadsSwitched(s, s', woken, picked, stopped, started)
    ensures Switched(s, s', woken, picked, now, stopped, started)
  {
  }

  ghost predicate ThreadsSwitched(s: Sys, s': Sys, woken: seq<Ptr>, picked: seq<Ptr>, stopped: nat, started: nat) {
    && s'.idle == s.idle && s'.current in Settled(s, woken)
    && s'.current == (if picked != [] && Fit(Settled(s, woken), picked[0]) then picked[0] else s.idle)
    && s'.threads == Jump(s.(threads := Settled(s, woken)), s'.current, stopped, started).threads
  }

  lemma AfterThreads(s: Sys, now: nat, stopped: nat, started: nat)
    requires Good(s)
    ensures var s', woken := After(s, now, stopped, started), Expired(s.threads, s.sleep, now);
            s'.run == Left(s, now) && ThreadsSwitched(s, s', woken, Taken(s, now), stopped, started)
  {
  }

  lemma AfterSleep(s: Sys, now: nat, stopped: nat, started: nat)
    requires Good(s)
    ensures var s', woken := After(s, now, stopped, started), Expired(s.threads, s.sleep, now);
            && s.sleep == woken + s'.sleep && StillAsleep(s, s', now)
            && forall t :: t in woken ==> t in s.threads && s.threads[t].target <= now
  {
    ExpiredFront(s.threads, s.sleep, now);
    var n := |Expired(s.threads, s.sleep, now)|;
    if n < |s.sleep| { var t := s.sleep[n]; assert t in s.sleep; }
  }

  lemma TakenLeft(s: Sys, now: nat)
    requires Ordered(s)
    ensures var woken, key := Expired(s.threads, s.sleep, now), VRuntime(s.threads);
            && Taken(s, now) + Left(s, now) == InsertAll(s.run, Runnable(s) + woken, key)
            && multiset(Taken(s, now) + Left(s, now)) == multiset(s.run) + multiset(Runnable(s)) + multiset(woken)
            && |Taken(s, now)| <= 1 && (Taken(s, now) == [] ==> Left(s, now) == [])
  {
    var woken := Expired(s.threads, s.sleep, now);
    var xs := Runnable(s) + woken;
    var q := InsertAll(s.run, xs, VRuntime(s.threads));
    HeadTail(q);
    InsertAllSorted(s.run, xs, VRuntime(s.threads));
    assert multiset(xs) == multiset(Runnable(s)) + multiset(woken);
  }

  lemma HeadTail(q: seq<Ptr>)
    ensures q != [] ==> [q[0]] + q[1..] == q
  {
  }

  /** Threads: 1 is idle, 2 is on the processor with runtime 1, 3 and 4 have runtimes 0 and 5. */
  function FourThreads(): Threads {
    map[1 := Thread(Running, false, false, 0, 0, 0, 1),
        2 := Thread(Running, true, false, 1, 0, 0, 1),
        3 := Thread(Running, false, false, 0, 0, 0, 1),
        4 := Thread(Running, false, false, 5, 0, 0, 1)]
  }

  lemma SingleSorted(x: Ptr, key: Key)
    ensures Sorted([], key) && Sorted([x], key) && NoDup([]) && NoDup([x])
  {
  }

  lemma PairSorted(x: Ptr, y: Ptr, key: Key)
    requires x != y
    ensures NoDup([x, y]) && (Sorted([x, y], key) <==> key(x) <= key(y))
  {
    assert Before([x, y], 0, 1);
  }

  lemma InsertMiddle(x: Ptr, y: Ptr, z: Ptr, key: Key)
    requires key(x) <= key(y) < key(z)
    ensures InsertAll([x, z], [y], key) == [x, y, z]
  {
    var q := [x, z];
    assert [y][..0] == [] && [x, z][1..] == [z] && [z][1..] == [];
    assert InsertAll(q, [], key) == q;
    assert StableInsert([z], y, key) == [y, z];
    assert StableInsert(q, y, key) == [x] + StableInsert([z], y, key);
  }

  /** Threads 3 and 4 are queued. */
  function Preempted(): Sys {
    Sys([3, 4], [], FourThreads(), 2, 1)
  }

  lemma FourBounded(target: nat)
    requires target <= MAX64
    ensures Bounded(FourThreads()) && Bounded(Asleep(FourThreads(), 2, target))
  {
  }

  /** Nobody is queued. */
  function Alone(): Sys {
    Sys([], [], FourThreads(), 2, 1)
  }

  lemma AloneOk()
    ensures Exclusive(Alone())
  {
    SingleSorted(2, WakeTime(FourThreads()));
    assert Alone().run + Alone().sleep == [];
  }

  lemma FirstQueued()
    ensures Exclusive(Alone().(run := [3]))
  {
    AloneOk();
    assert Entered([], 3, [3], VRuntime(FourThreads()));
    AddExactly(Alone(), 3, [3]);
  }

  lemma PairInserted(x: Ptr, y: Ptr, key: Key)
    requires key(x) <= key(y)
    ensures Entered([x], y, [x, y], key)
  {
    assert [x][1..] == [] && StableInsert([x], y, key) == [x, y];
  }

  lemma PreemptedOk()
    ensures Exclusive(Preempted()) && Ordered(Preempted())
  {
    var key := VRuntime(FourThreads());
    FirstQueued();
    FourBounded(0);
    PairSorted(3, 4, key);
    PairInserted(3, 4, key);
    AddExactly(Alone().(run := [3]), 4, [3, 4]);
  }

  /** Thread 2 is preempted with runtime 1, is queued before thread 4 with runtime 5, and then has 10
      added to its runtime: the run tree is no longer sorted. */
  lemma SwitchUnsorts()
    ensures Exclusive(Preempted()) && Ordered(Preempted())
    ensures var s' := After(Preempted(), 0, 10, 10); s'.run == [2, 4] && !Sorted(s'.run, VRuntime(s'.threads))
  {
    var s := Preempted();
    PreemptedOk();
    AfterSwitched(s, 0, 10, 10);
    SortedExactly(s, After(s, 0, 10, 10), Expired(s.threads, [], 0), Taken(s, 0), 0, 10, 10);
    UnfitPlace();
  }

  lemma UnfitPlace()
    ensures Left(Preempted(), 0) == [2, 4] && !FitsPlace(Preempted(), 0, 10)
  {
    var s := Preempted();
    var key := VRuntime(s.threads);
    assert key(3) == 0 && key(2) == 1 && key(4) == 5;
    InsertMiddle(3, 2, 4, key);
    assert Runnable(s) == [2] && Runnable(s) + Expired(s.threads, s.sleep, 0) == [2];
    assert [3, 2, 4][1..] == [2, 4];
    assert Pos(Left(s, 0), 0, s.current) && NewKey(s, 10) == 11;
  }

  /** Nobody is queued, and thread 2 has gone to sleep until 1000. */
  function Dozing(): Sys {
    Sys([], [2], Asleep(FourThreads(), 2, 1000), 2, 1)
  }

  lemma DozingOk()
    ensures Exclusive(Alone()) && Exclusive(Dozing()) && Ordered(Dozing())
    ensures Entered(Alone().sleep, 2, Dozing().sleep, WakeTime(Dozing().threads))
  {
    AloneOk();
    FourBounded(1000);
    SingleSorted(2, VRuntime(Dozing().threads));
    assert Entered(Alone().sleep, 2, Dozing().sleep, WakeTime(Dozing().threads));
    AsleepExclusive(Alone(), 1000, [2]);
  }

  lemma DozingDrops()
    ensures Drops(Dozing(), 1000)
  {
    var s := Dozing();
    assert s.sleep[1..] == [];
    assert Expired(s.threads, s.sleep, 1000) == [2];
    assert Runnable(s) == [] && Candidates(s, 1000) == [2];
  }

  /** Thread 2 goes to sleep until 1000, and the switch that follows reads the clock at 1000: thread 2
      is taken out of both trees and does not run. */
  lemma SleeperLost()
    ensures Exclusive(Alone()) && Entered(Alone().sleep, 2, Dozing().sleep, WakeTime(Dozing().threads))
    ensures Exclusive(Dozing())
    ensures var s' := After(Dozing(), 1000, 1000, 1000); 2 !in s'.run && 2 !in s'.sleep && s'.current == s'.idle != 2
  {
    var s := Dozing();
    DozingOk();
    DozingDrops();
    AfterSwitched(s, 1000, 1000, 1000);
    LosesExactly(s, After(s, 1000, 1000, 1000), Expired(s.threads, s.sleep, 1000), Taken(s, 1000), 1000, 1000, 1000);
  }

  // ---------------------------------------------------------------- what a switch keeps

  /** The other fields after a jump. */
  lemma JumpFlags(s: Sys, next: Ptr, stopped: nat, started: nat)
    requires next in s.threads && NULL !in s.threads
    requires forall t :: t in s.threads && s.threads[t].onCpu ==> t == s.current
    ensures forall t :: t in Jump(s, next, stopped, started).threads ==>
              var u := Jump(s, next, stopped, started).threads[t];
              u.state == s.threads[t].state && u.target == s.threads[t].target && (u.onCpu ==> t == next)
  {
  }

  lemma SettledFlags(s: Sys, woken: seq<Ptr>)
    ensures var th := Settled(s, woken);
            forall t :: t in th ==>
              && (th[t].onCpu ==> s.threads[t].onCpu)
              && (if t in woken then th[t].state == Running && th[t].target == 0
                  else th[t].state == s.threads[t].state && th[t].target == s.threads[t].target)
  {
  }

  lemma SleepAfter(s: Sys, woken: seq<Ptr>, rest: seq<Ptr>, th: Threads)
    requires Good(s) && s.sleep == woken + rest && th.Keys == s.threads.Keys
    requires forall t :: t in th && t !in woken ==>
               th[t].state == s.threads[t].state && th[t].target == s.threads[t].target
    ensures NoDup(rest) && Sorted(rest, WakeTime(th))
    ensures forall t :: t in rest ==> t in th && t != s.idle && th[t].state == Sleeping
  {
    NoDupConcat(woken, rest);
    SortedConcat(woken, rest, WakeTime(s.threads));
    forall t | t in rest ensures t in s.sleep && t !in woken {
      if t in woken { WokenLeave(woken, rest, t); }
    }
    SortedSame(rest, WakeTime(s.threads), WakeTime(th));
  }

  /** A switch keeps what every operation keeps. */
  lemma SwitchedGood(s: Sys, s': Sys, woken: seq<Ptr>, picked: seq<Ptr>, now: nat, stopped: nat, started: nat)
    requires Exclusive(s) && Switched(s, s', woken, picked, now, stopped, started)
    ensures Good(s')
  {
    var th := Settled(s, woken);
    SettledRuntimes(s, woken);
    SettledFlags(s, woken);
    JumpRuntimes(s.(threads := th), s'.current, stopped, started);
    JumpFlags(s.(threads := th), s'.current, stopped, started);
    SleepAfter(s, woken, s'.sleep, s'.threads);
    RunMembers(s, s', woken, picked, now, stopped, started);
  }

  /** The current thread goes to sleep until `target`. */
  ghost predicate FallsAsleep(s: Sys, target: nat, s': Sys) {
    && s.current in s.threads && s.current != s.idle && s.threads[s.current].state == Running && target <= MAX64
    && s' == s.(sleep := s'.sleep, threads := Asleep(s.threads, s.current, target))
    && Entered(s.sleep, s.current, s'.sleep, WakeTime(s'.threads))
  }

  /** The same, looked into only where a proof says so. */
  ghost predicate Slept(s: Sys, target: nat, s': Sys) {
    forall z {:trigger Inside(z)} :: Inside(z) ==> FallsAsleep(s, target, s')
  }

  // ---------------------------------------------------------------- whole runs

  /** What happens to the scheduler.  A switch carries its outcome and its clock readings. */
  datatype Event =
    | Switch(woken: seq<Ptr>, picked: seq<Ptr>, now: nat, stopped: nat, started: nat)
    | Sleep(target: nat)
    | Add(t: Ptr)
    | Continue(t: Ptr)
    | Halt(t: Ptr)

  ghost predicate Next(s: Sys, e: Event, s': Sys) {
    match e
    case Switch(woken, picked, now, stopped, started) => Switched(s, s', woken, picked, now, stopped, started)
    case Sleep(target) => FallsAsleep(s, target, s')
    case Add(t) =>
      && t in s.threads && t != s.idle && s.threads[t].state == Running
      && s' == s.(run := s'.run) && Entered(s.run, t, s'.run, VRuntime(s.threads))
    case Continue(t) =>
      && t in s.threads && t != s.idle && s.threads[t].state == Stopped
      && s' == Continued(s, t).(run := s'.run) && Entered(s.run, t, s'.run, VRuntime(s'.threads))
    case Halt(t) => t in s.threads && s' == Stop(s, t)
  }

  /** What a caller has to see to: a thread that is added or continued is not on the processor, nor
      queued; a thread that is stopped is not queued. */
  ghost predicate Proper(s: Sys, e: Event) {
    match e
    case Switch(_, _, _, _, _) => true
    case Sleep(_) => true
    case Add(t) => t !in s.run && t != s.current
    case Continue(t) => t != s.current
    case Halt(t) => t !in s.run
  }

  /** A stopped thread that is continued: the queues stay exclusive exactly if it is not the current
      one. */
  lemma ContinueExactly(s: Sys, t: Ptr, q: seq<Ptr>)
    requires Exclusive(s) && t in s.threads && t != s.idle && s.threads[t].state == Stopped
    requires Entered(s.run, t, q, VRuntime(Continued(s, t).threads))
    ensures Exclusive(Continued(s, t).(run := q)) <==> t != s.current
  {
    var s1 := Continued(s, t);
    SortedSame(s.sleep, WakeTime(s.threads), WakeTime(s1.threads));
    assert Exclusive(s1);
    AddExactly(s1, t, q);
  }

  /** Each operation keeps every thread in one place, runnable and off the processor if queued,
      exactly if it is called properly. */
  lemma ExclusiveStep(s: Sys, e: Event, s': Sys)
    requires Exclusive(s) && Next(s, e, s')
    ensures Exclusive(s') <==> Proper(s, e)
  {
    match e
    case Switch(woken, picked, now, stopped, started) => {
      SwitchedGood(s, s', woken, picked, now, stopped, started);
      SwitchedExclusive(s, s', woken, picked, now, stopped, started);
    }
    case Sleep(target) => AsleepExclusive(s, target, s'.sleep);
    case Add(t) => AddExactly(s, t, s'.run);
    case Continue(t) => ContinueExactly(s, t, s'.run);
    case Halt(t) => StopExactly(s, t);
  }

  ghost predicate Runs(s: Sys, es: seq<Event>, states: seq<Sys>)
    decreases |es|
  {
    if es == [] then states == [s]
    else
      && |states| > 1 && states[0] == s && Next(s, es[0], states[1]) && Proper(s, es[0])
      && Runs(states[1], es[1..], states[1..])
  }

  /** In every run of proper calls, in every state: each thread is in one place only, queued threads
      are runnable and off the processor, and the sleep tree is sorted by wake-up time. */
  lemma {:induction false} RunExclusive(s: Sys, es: seq<Event>, states: seq<Sys>)
    requires Exclusive(s) && Runs(s, es, states)
    ensures |states| == |es| + 1 && forall i :: 0 <= i < |states| ==> Exclusive(states[i])
    decreases |es|
  {
    if es != [] {
      ExclusiveStep(s, es[0], states[1]);
      RunExclusive(states[1], es[1..], states[1..]);
      forall i | 0 <= i < |states| ensures Exclusive(states[i]) { if i > 0 { assert states[i] == states[1..][i - 1]; } }
    }
  }

  // ---------------------------------------------------------------- time on the processor

  /** src/scheduler.c:24-34: the key of the run tree is the runtime divided by the priority, rounded down. */
  lemma VRuntimeIs(threads: Threads, t: Ptr)
    requires t in threads && threads[t].priority > 0
    ensures var k, th := VRuntime(threads)(t), threads[t];
            k * th.priority <= th.runtime < (k + 1) * th.priority
  {
    var th := threads[t];
    var k := th.runtime / th.priority;
    assert th.runtime == k * th.priority + th.runtime % th.priority;
    assert (k + 1) * th.priority == k * th.priority + th.priority;
  }

  /** The thread that a switch or a jump brings onto the processor is flagged and has started now; the one
      that leaves has its time added; nothing else of the times changes. */
  ghost predicate Timed(s: Sys, th: Threads, next: Ptr, stopped: nat, started: nat) {
    && th.Keys == s.threads.Keys && next in th
    && (next != s.current ==> th[next].onCpu && th[next].start == started)
    && (forall t :: t in th && (t != next || next == s.current) ==> th[t].start == s.threads[t].start)
    && (forall t :: t in th && (t != s.current || next == s.current) ==> th[t].runtime == s.threads[t].runtime)
    && (s.current in th && next != s.current ==>
          var c := s.threads[s.current];
          && th[s.current].runtime == (c.runtime + stopped - c.start) % 0x1_0000_0000_0000_0000
          && !th[s.current].onCpu)
  }

  lemma JumpTimes(s: Sys, next: Ptr, stopped: nat, started: nat)
    requires next in s.threads && NULL !in s.threads
    ensures Timed(s, Jump(s, next, stopped, started).threads, next, stopped, started)
  {
  }

  /** A switch keeps time. */
  lemma SwitchTimes(s: Sys, s': Sys, woken: seq<Ptr>, picked: seq<Ptr>, now: nat, stopped: nat, started: nat)
    requires Good(s) && Switched(s, s', woken, picked, now, stopped, started)
    ensures Timed(s, s'.threads, s'.current, stopped, started)
  {
    var th := Settled(s, woken);
    SettledRuntimes(s, woken);
    JumpTimes(s.(threads := th), s'.current, stopped, started);
  }

  /** While `t` stays on the processor, its start and its runtime stay as they are. */
  lemma StaysOn(s: Sys, e: Event, s': Sys, t: Ptr)
    requires Exclusive(s) && Next(s, e, s') && s.current == t && s'.current == t && t in s.threads
    ensures t in s'.threads && s'.threads[t].start == s.threads[t].start
    ensures s'.threads[t].runtime == s.threads[t].runtime
  {
    if e.Switch? { SwitchTimes(s, s', e.woken, e.picked, e.now, e.stopped, e.started); }
  }

  lemma {:induction false} RunStaysOn(s: Sys, es: seq<Event>, states: seq<Sys>, t: Ptr)
    requires Exclusive(s) && Runs(s, es, states) && t in s.threads
    requires forall i :: 0 <= i < |states| ==> states[i].current == t
    ensures var l := states[|states| - 1];
            && Exclusive(l) && t in l.threads
            && l.threads[t].start == s.threads[t].start && l.threads[t].runtime == s.threads[t].runtime
    decreases |es|
  {
    RunExclusive(s, es, states);
    if es != [] {
      assert states[0].current == t && states[1].current == t;
      StaysOn(s, es[0], states[1], t);
      ExclusiveStep(s, es[0], states[1]);
      forall i | 0 <= i < |states[1..]| ensures states[1..][i].current == t { assert states[1..][i] == states[i + 1]; }
      RunStaysOn(states[1], es[1..], states[1..], t);
      assert states[1..][|states[1..]| - 1] == states[|states| - 1];
    }
  }

  /** From an exclusive state the event leads to `s'`; looked into only where a proof says so. */
  ghost predicate Leads(s: Sys, e: Event, s': Sys) {
    forall z {:trigger Inside(z)} :: Inside(z) ==> Exclusive(s) && Next(s, e, s')
  }

  /** A run with the same thread on the processor throughout; looked into only where a proof says so. */
  ghost predicate Remains(s: Sys, es: seq<Event>, states: seq<Sys>) {
    forall z {:trigger Inside(z)} :: Inside(z) ==>
      Runs(s, es, states) && forall i :: 0 <= i < |states| ==> states[i].current == s.current
  }

  /** A thread that one switch brings onto the processor, and that stays there over any run until another
      takes it off, gains exactly the time between the two, modulo 2^64. */
  lemma GainedExactly(s0: Sys, on: Event, s1: Sys, es: seq<Event>, states: seq<Sys>, off: Event, s3: Sys)
    requires on.Switch? && Leads(s0, on, s1) && s1.current != s0.current && Remains(s1, es, states)
    requires off.Switch? && states != [] && Leads(states[|states| - 1], off, s3) && s3.current != s1.current
    ensures var t := s1.current;
            && t in s0.threads && t in s3.threads
            && s3.threads[t].runtime == (s0.threads[t].runtime + off.stopped - on.started) % 0x1_0000_0000_0000_0000
  {
    BroughtOn(s0, on, s1, es, states);
    TakenOff(states[|states| - 1], off, s3);
  }

  lemma BroughtOn(s0: Sys, on: Event, s1: Sys, es: seq<Event>, states: seq<Sys>)
    requires on.Switch? && Leads(s0, on, s1) && s1.current != s0.current && Remains(s1, es, states) && states != []
    ensures var t, l := s1.current, states[|states| - 1];
            && t in s0.threads && t in l.threads && l.current == t
            && l.threads[t].start == on.started && l.threads[t].runtime == s0.threads[t].runtime
  {
    assert Inside(0);
    EventTimes(s0, on, s1);
    RunStaysOn(s1, es, states, s1.current);
  }

  lemma TakenOff(l: Sys, off: Event, s3: Sys)
    requires off.Switch? && Leads(l, off, s3) && s3.current != l.current && l.current in l.threads
    ensures var c := l.threads[l.current];
            && l.current in s3.threads
            && s3.threads[l.current].runtime == (c.runtime + off.stopped - c.start) % 0x1_0000_0000_0000_0000
  {
    assert Inside(0);
    EventTimes(l, off, s3);
  }

  lemma EventTimes(s: Sys, e: Event, s': Sys)
    requires Exclusive(s) && e.Switch? && Next(s, e, s')
    ensures Exclusive(s') && Timed(s, s'.threads, s'.current, e.stopped, e.started)
  {
    SwitchTimes(s, s', e.woken, e.picked, e.now, e.stopped, e.started);
    ExclusiveStep(s, e, s');
  }

  /** A current thread that is still to run is not forgotten: it is queued, or it runs on. */
  lemma PreemptedStays(s: Sys, s': Sys, woken: seq<Ptr>, picked: seq<Ptr>, now: nat, stopped: nat, started: nat)
    requires Exclusive(s) && Switched(s, s', woken, picked, now, stopped, started)
    requires s.current in s.threads && s.current != s.idle && s.threads[s.current].state == Running
    ensures s.current in s'.run || s'.current == s.current
  {
    var c := s.current;
    assert c != NULL && c in Runnable(s);
    assert c in multiset(picked + s'.run);
    if c in picked {
      assert picked == [c];
      WokenRunning(s, woken, c);
    }
  }

  lemma WokenRunning(s: Sys, woken: seq<Ptr>, c: Ptr)
    requires c in s.threads && c == s.current && c != NULL && c != s.idle && s.threads[c].state == Running
    ensures Fit(Settled(s, woken), c)
  {
  }
}
