/** The scheduler of src/scheduler.c on one processor, over two Andersson trees: runnable threads by
    virtual runtime, sleeping threads by wake-up time.  Each locked section is one step.  The
    timer is a parameter: `clock(k)` is its k-th reading. */
module Scheduler {
  import opened Pointers
  import opened AaOrder
  import opened ThreadTree
  import opened SchedSpec
  import opened SchedLaws

  /** Timer readings do not decrease, and leave room for a sleep of 2^32 - 1 microseconds. */
  ghost predicate Clock(clock: nat -> nat) {
    && (forall i, j :: i <= j ==> clock(i) <= clock(j))
    && (forall i :: clock(i) + 0xffff_ffff * 1000 <= MAX64)
  }

  class Sched {
    const run: Queue
    const sleep: Queue
    const idle: Ptr
    var threads: Threads
    var current: Ptr

    /** src/scheduler.c:42-55: two empty trees over the sentinel, no current thread. */
    constructor (idle: Ptr, threads: Threads, sentinel: Ptr)
      requires sentinel != NULL && NULL !in threads && idle in threads
      requires forall t :: t in threads ==> threads[t].target <= MAX64 && !threads[t].onCpu
      ensures Valid() && Sys() == SchedSpec.Sys.Sys([], [], threads, NULL, idle)
      ensures Exclusive(Sys())
    {
      this.idle, this.threads, current := idle, threads, NULL;
      run := new Queue(sentinel);
      sleep := new Queue(sentinel);
    }

    ghost function Sys(): Sys
      reads this, run, sleep
    {
      SchedSpec.Sys.Sys(run.items, sleep.items, threads, current, idle)
    }

    ghost predicate Trees()
      reads run, sleep, run.tree, sleep.tree
    {
      run != sleep && run.tree != sleep.tree && run.Valid() && sleep.Valid()
    }

    ghost predicate Valid()
      reads this, run, sleep, run.tree, sleep.tree
    {
      Trees() && Kept(Sys())
    }

    /** src/scheduler.c:64-72 */
    method RequeueCurrent()
      requires Valid()
      modifies this`threads, run, run.tree
      ensures Valid() && Requeue(old(Sys()), Sys())
      ensures current != NULL && current != idle && current in old(threads) && old(threads)[current].state == Running
              ==>
                && multiset(run.items) == multiset(old(run.items)) + multiset{current}
                && threads == old(threads)[current := old(threads)[current].(onCpu := false)]
      ensures current == NULL || current == idle ==> Sys() == old(Sys())
      ensures current in old(threads) && old(threads)[current].state != Running ==> Sys() == old(Sys())
    {
      KeptThreads(Sys());
      if current != NULL && current != idle && threads[current].state == Running {
        threads := threads[current := threads[current].(onCpu := false)];
        run.Insert(current, VRuntime(threads));
        RequeueStep(old(Sys()), run.items);
      } else {
        RequeueNone(Sys());
      }
    }

    /** src/scheduler.c:82-90: `sleeper`, the first of the sleep tree, is woken. */
    method WakeOne(node: Ptr, sleeper: Ptr, ghost s0: Sys, ghost woken: seq<Ptr>, ghost was: nat, ghost now: nat)
      requires Trees() && Kept(Sys()) && Kept(s0) && Woke(s0, Sys(), woken, was) && was <= now
      requires sleep.Front(node) && sleep.items[0] == sleeper && sleeper in threads && threads[sleeper].target <= now
      modifies this`threads, run, run.tree, sleep, sleep.tree
      ensures Trees() && Kept(Sys()) && Woke(s0, Sys(), woken + [sleeper], now)
      ensures sleep.items == old(sleep.items)[1..]
    {
      ghost var s := Sys();
      sleep.Pop(node);
      threads := threads[sleeper := threads[sleeper].(target := 0, state := Running)];
      run.Insert(sleeper, VRuntime(threads));
      WakeRound(s0, s, woken, was, now, run.items);
      assert Sys() == WakeFirst(s).(run := run.items);
    }

    /** src/scheduler.c:76-95: the wake-up loop.  The woken are a front part of the sleep tree, and
        had expired at the last reading of the clock; whoever is first in the sleep tree then had
        not. */
    method WakeSleepers(clock: nat -> nat, k: nat) returns (k': nat, ghost woken: seq<Ptr>, ghost now: nat)
      requires Valid() && Clock(clock)
      modifies this`threads, run, run.tree, sleep, sleep.tree
      ensures Valid() && Woke(old(Sys()), Sys(), woken, now)
      ensures k <= k' && (old(sleep.items) != [] ==> k < k' && now == clock(k' - 1))
      ensures sleep.items != [] ==> sleep.items[0] in threads && now < threads[sleep.items[0]].target
    {
      ghost var s0 := Sys();
      k', woken, now := k, [], 0;
      WokeNone(s0);
      KeptThreads(s0);
      var sleeper, node := sleep.First();
      while sleeper != NULL
        invariant Trees() && Kept(Sys()) && Woke(s0, Sys(), woken, now)
        invariant k <= k' && (k < k' ==> now == clock(k' - 1)) && (k == k' ==> now == 0 && sleep.items == s0.sleep)
        invariant sleeper != NULL ==> sleep.Front(node) && sleep.items[0] == sleeper
        invariant sleeper == NULL ==> sleep.items == [] ||
                                      (k < k' && sleep.items[0] in threads && now < threads[sleep.items[0]].target)
        decreases |sleep.items|, sleeper != NULL
      {
        KeptThreads(Sys());
        assert sleeper in sleep.items;
        ghost var was := now;
        now := clock(k');
        k' := k' + 1;
        if clock(k' - 1) >= threads[sleeper].target {
          WakeOne(node, sleeper, s0, woken, was, now);
          woken := woken + [sleeper];
          KeptThreads(Sys());
          sleeper, node := sleep.First();
        } else {
          WokeLater(s0, Sys(), woken, was, now);
          sleeper := NULL;
        }
      }
    }

    /** src/scheduler.c:97-115 */
    method PickNext() returns (next: Ptr)
      requires Valid()
      modifies run, run.tree
      ensures Trees() && next in threads && (next, Sys()) == Pick(old(Sys()))
    {
      KeptThreads(Sys());
      next := idle;
      var first, node := run.First();
      if first != NULL {
        next := first;
        run.Pop(node);
        KeptRun(old(Sys()));
        if threads[next].state != Running || threads[next].onCpu {
          next := idle;
        }
      }
    }

    /** src/scheduler.c:124-165 */
    method JumpTo(thread: Ptr, clock: nat -> nat, k: nat)
      requires thread in threads && (current == NULL || current in threads)
      modifies this`threads, this`current
      ensures Sys() == Jump(old(Sys()), thread, clock(k), clock(k + 1))
      ensures current == thread
      ensures NULL !in old(threads) ==> Timed(old(Sys()), threads, thread, clock(k), clock(k + 1))
    {
      if NULL !in threads { JumpTimes(Sys(), thread, clock(k), clock(k + 1)); }
      var cur := current;
      current := thread;
      if cur == thread {
        return;
      }
      if cur != NULL {
        var c := threads[cur];
        var runtime := (c.runtime + clock(k) - c.start) % 0x1_0000_0000_0000_0000;
        threads := threads[cur := c.(runtime := runtime, onCpu := false)];
      }
      threads := threads[thread := threads[thread].(onCpu := true, start := clock(k + 1))];
    }

    /** src/scheduler.c:59-119 */
    method SwitchThread(clock: nat -> nat, k: nat)
      returns (k': nat, ghost woken: seq<Ptr>, ghost picked: seq<Ptr>, ghost now: nat)
      requires Valid() && Clock(clock)
      modifies this, run, run.tree, sleep, sleep.tree
      ensures Valid() && k' >= k + 2
      ensures SwitchDone(old(Sys()), Sys(), woken, picked, now, clock(k' - 2), clock(k' - 1))
      ensures old(sleep.items) != [] ==> k' >= k + 3 && now == clock(k' - 3)
      ensures sleep.items != [] ==> sleep.items[0] in old(threads) && now < old(threads)[sleep.items[0]].target
    {
      ghost var s0 := Sys();
      RequeueCurrent();
      ghost var s1 := Sys();
      k', woken, now := WakeSleepers(clock, k);
      ghost var s2 := Sys();
      picked := Front(s2);
      KeptThreads(Sys());
      NotWoken(s0, s1, s2, woken, now);
      var next := PickNext();
      JumpTo(next, clock, k');
      SwitchStep(s0, s1, s2, woken, now, clock(k'), clock(k' + 1));
      k' := k' + 2;
    }

    method Doze(target: nat)
      requires Valid() && target <= MAX64
      requires current in threads && current != idle && threads[current].state == Running
      modifies this`threads, sleep, sleep.tree
      ensures Valid()
      ensures Sys() == old(Sys()).(sleep := sleep.items, threads := Asleep(old(threads), current, target))
      ensures Entered(old(sleep.items), current, sleep.items, WakeTime(threads))
    {
      threads := threads[current := threads[current].(state := Sleeping, target := target)];
      sleep.Insert(current, WakeTime(threads));
      SleepStep(old(Sys()), target, sleep.items);
    }

    /** src/scheduler.c:267-282, up to the switch: the current thread is queued by its wake-up time. */
    method FallAsleep(useconds: nat, clock: nat -> nat, k: nat)
      requires Valid() && Clock(clock) && 0 < useconds <= 0xffff_ffff
      requires current in threads && current != idle && threads[current].state == Running
      modifies this`threads, sleep, sleep.tree
      ensures Valid()
      ensures Sys() ==
              old(Sys()).(sleep := sleep.items, threads := Asleep(old(threads), current, clock(k) + useconds * 1000))
      ensures Entered(old(sleep.items), current, sleep.items, WakeTime(threads))
      ensures Slept(old(Sys()), clock(k) + useconds * 1000, Sys())
    {
      var target := clock(k) + useconds * 1000;
      assert target <= MAX64;
      Doze(target);
    }

    /** src/scheduler.c:267-282: nothing for a sleep of 0; else the current thread is queued by its
        wake-up time, which gives the state `mid`, and the switch follows. */
    method ThreadSleep(useconds: nat, clock: nat -> nat, k: nat)
      returns (k': nat, ghost mid: Sys, ghost woken: seq<Ptr>, ghost picked: seq<Ptr>, ghost now: nat)
      requires Valid() && Clock(clock) && useconds <= 0xffff_ffff
      requires useconds > 0 ==> current in threads && current != idle && threads[current].state == Running
      modifies this, run, run.tree, sleep, sleep.tree
      ensures Valid()
      ensures useconds == 0 ==> Sys() == old(Sys()) && k' == k
      ensures useconds > 0 ==>
                && old(current) in old(threads)
                && var c := old(threads[current]);
                   var target := clock(k) + useconds * 1000;
                   mid.threads == old(threads)[old(current) := c.(state := Sleeping, target := target)]
      ensures useconds > 0 ==>
                && Slept(old(Sys()), clock(k) + useconds * 1000, mid) && k' >= k + 3
                && SwitchDone(mid, Sys(), woken, picked, now, clock(k' - 2), clock(k' - 1))
                && StillAsleep(mid, Sys(), now)
    {
      k', mid, woken, picked, now := k, Sys(), [], [], 0;
      if useconds == 0 {
        return;
      }
      FallAsleep(useconds, clock, k);
      mid := Sys();
      k', woken, picked, now := SwitchThread(clock, k + 1);
    }

    /** src/scheduler.c:178-187; the yield to a thread of larger runtime is not modelled. */
    method AddThread(t: Ptr)
      requires Valid() && t in threads && t != idle
      modifies run, run.tree
      ensures Valid()
      ensures threads[t].state != Running ==> run.items == old(run.items)
      ensures threads[t].state == Running ==> Entered(old(run.items), t, run.items, VRuntime(threads))
      ensures Exclusive(old(Sys())) && threads[t].state == Running ==>
                (Exclusive(Sys()) <==> t !in old(run.items) && t != current && !threads[t].onCpu)
    {
      if threads[t].state == Running {
        run.Insert(t, VRuntime(threads));
        AddStep(old(Sys()), t, run.items);
        if Exclusive(old(Sys())) { AddExactly(old(Sys()), t, run.items); }
      }
    }

    /** src/scheduler.c:219-232 */
    method ThreadContinue(t: Ptr)
      requires Valid() && t in threads && t != idle
      modifies this`threads, run, run.tree
      ensures Valid()
      ensures old(threads)[t].state != Stopped ==> Sys() == old(Sys())
      ensures old(threads)[t].state == Stopped ==>
                && threads == old(threads)[t := old(threads)[t].(state := Running, faulted := false)]
                && threads == Continued(old(Sys()), t).threads
                && Entered(old(run.items), t, run.items, VRuntime(threads))
      ensures Exclusive(old(Sys())) && old(threads)[t].state == Stopped ==> (Exclusive(Sys()) <==> t != current)
    {
      if threads[t].state == Stopped {
        threads := threads[t := threads[t].(state := Running, faulted := false)];
        run.Insert(t, VRuntime(threads));
        ContinueStep(old(Sys()), t, run.items);
        if Exclusive(old(Sys())) { ContinueExactly(old(Sys()), t, run.items); }
      }
    }

    /** src/scheduler.c:234-238 */
    method ThreadStop(t: Ptr)
      requires Valid() && t in threads
      modifies this`threads
      ensures Valid() && Sys() == Stop(old(Sys()), t)
      ensures old(threads)[t].state != Running ==> Sys() == old(Sys())
      ensures old(threads)[t].state == Running ==>
                Sys() == old(Sys()).(threads := old(threads)[t := old(threads)[t].(state := Stopped)])
    {
      if threads[t].state == Running {
        threads := threads[t := threads[t].(state := Stopped)];
      }
      StopStep(old(Sys()), t);
    }
  }
}
