/** Synchronous message passing in place (src/message.c on src/klib/queue.c): every endpoint has two
    doubly linked queues of threads, and the protocol's endpoints are what they hold. */
module IpcSystem {
  import opened Pointers
  import opened IpcSync
  import KQueue

  /** The queues of an endpoint. */
  datatype Ends = Ends(receivers: KQueue.Queue, senders: KQueue.Queue)

  /** The protocol's invariant, looked into only where a proof says so. */
  ghost predicate InOrder(s: Sys) {
    forall z {:trigger Inside(z)} :: Inside(z) ==> Inv(s)
  }

  lemma SendKeeps(s: Sys, cur: Ptr, q: Ptr, message: Message)
    requires Closed(s) && cur in s.threads && q in s.endpoints
    ensures InOrder(s) && Enabled(s, DoSend(cur, q, message)) ==>
              (InOrder(Send(s, cur, q, message)) <==> s.endpoints[q].receivers == [] || !Intercepted(message))
  {
    assert Inside(0);
    if InOrder(s) && Enabled(s, DoSend(cur, q, message)) { InterceptExactly(s, cur, q, message); }
  }

  /** The thread calls receive on the endpoint, or retries it. */
  predicate Receives(s: Sys, cur: Ptr, q: Ptr)
    requires cur in s.threads
  {
    Enabled(s, DoReceive(cur, q)) || (Enabled(s, Resume(cur)) && s.threads[cur].place == InReceive(q))
  }

  lemma ReceiveKeeps(s: Sys, cur: Ptr, q: Ptr)
    requires Closed(s) && cur in s.threads && q in s.endpoints
    ensures InOrder(s) && Receives(s, cur, q) ==> InOrder(Receive(s, cur, q))
  {
    assert Inside(0);
    if InOrder(s) && Enabled(s, DoReceive(cur, q)) {
      StepInv(s, DoReceive(cur, q));
    } else if InOrder(s) && Receives(s, cur, q) {
      StepInv(s, Resume(cur));
    }
  }

  /** The linked queues hold the threads that the endpoint names. */
  ghost predicate Holds(e: Endpoint, n: Ends)
    reads n.receivers, n.senders
  {
    && n.receivers.Valid() && n.senders.Valid()
    && e.receivers == n.receivers.Contents() && e.senders == n.senders.Contents()
  }

  /** No queue serves twice. */
  ghost predicate Apart(ends: map<Ptr, Ends>) {
    forall q, r :: q in ends && r in ends ==>
      && ends[q].receivers != ends[r].senders
      && (q != r ==> ends[q].receivers != ends[r].receivers && ends[q].senders != ends[r].senders)
  }

  lemma AddedApart(ends: map<Ptr, Ends>, q: Ptr, n: Ends)
    requires Apart(ends) && n.receivers != n.senders
    requires forall r :: r in ends ==> {ends[r].receivers, ends[r].senders} !! {n.receivers, n.senders}
    ensures Apart(ends[q := n])
  {
  }

  method NewEnds() returns (n: Ends)
    ensures fresh(n.receivers) && fresh(n.senders) && n.receivers != n.senders && Holds(Endpoint([], [], [], []), n)
  {
    var receivers := new KQueue.Queue();
    var senders := new KQueue.Queue();
    n := Ends(receivers, senders);
  }

  class Ipc {
    var threads: map<Ptr, Thread>
    var ends: map<Ptr, Ends>
    ghost var endpoints: map<Ptr, Endpoint>

    ghost function Queues(): set<KQueue.Queue>
      reads this`ends
    {
      (set q | q in ends :: ends[q].receivers) + (set q | q in ends :: ends[q].senders)
    }

    /** The linked queues hold the protocol's endpoints. */
    ghost predicate Valid()
      reads this`ends, this`endpoints, Queues()
    {
      && endpoints.Keys == ends.Keys
      && forall z {:trigger Inside(z)} :: Inside(z) ==>
           Apart(ends) && forall q :: q in ends ==> Holds(endpoints[q], ends[q])
    }

    ghost function View(): Sys
      reads this
    {
      Sys(threads, endpoints)
    }

    constructor (threads: map<Ptr, Thread>)
      ensures Valid() && View() == Sys(threads, map[])
    {
      this.threads, ends, endpoints := threads, map[], map[];
    }

    /** src/message.c:188-204 */
    method CreateEndpoint(q: Ptr)
      requires Valid() && q !in ends
      modifies this
      ensures Valid() && View() == old(View()).(endpoints := old(endpoints)[q := Endpoint([], [], [], [])])
    {
      assert Inside(0);
      ghost var was, held := ends, endpoints;
      var n := NewEnds();
      assert forall r :: r in was ==> {was[r].receivers, was[r].senders} !! {n.receivers, n.senders};
      ends := ends[q := n];
      endpoints := endpoints[q := Endpoint([], [], [], [])];
      forall r | r in ends ensures Holds(endpoints[r], ends[r]) {
        if r != q {
          assert old(Holds(held[r], was[r]));
          assert Holds(held[r], was[r]);
        }
      }
      AddedApart(was, q, n);
    }

    /** The histories of an endpoint, which no queue shows. */
    ghost method Record(q: Ptr, sent: seq<Message>, handed: seq<Message>)
      requires Valid() && q in ends
      modifies this`endpoints
      ensures Valid() && endpoints == old(endpoints)[q := old(endpoints)[q].(sent := sent, handed := handed)]
    {
      assert Inside(0);
      endpoints := endpoints[q := endpoints[q].(sent := sent, handed := handed)];
    }

    method PopReceiver(q: Ptr) returns (found: bool, t: Ptr)
      requires Valid() && q in ends
      modifies this`endpoints, ends[q].receivers
      ensures Valid() && (found <==> old(endpoints)[q].receivers != [])
      ensures found ==> t == old(endpoints)[q].receivers[0]
                        && endpoints ==
                           old(endpoints)[q := old(endpoints)[q].(receivers := old(endpoints)[q].receivers[1..])]
      ensures !found ==> endpoints == old(endpoints)
    {
      assert Inside(0);
      ghost var e := endpoints[q];
      found, t := ends[q].receivers.PopFront();
      if found {
        endpoints := endpoints[q := e.(receivers := e.receivers[1..])];
      }
    }

    /** The first blocked sender is off the queue, and its message counts as handed over. */
    method PopSender(q: Ptr) returns (found: bool, t: Ptr)
      requires Valid() && Closed(View()) && q in ends
      modifies this`endpoints, ends[q].senders
      ensures Valid() && (found <==> old(endpoints)[q].senders != [])
      ensures found ==> t == old(endpoints)[q].senders[0] && t in threads
                        && endpoints == old(endpoints)[q := TakenFrom(old(endpoints)[q], threads[t].message)]
      ensures !found ==> endpoints == old(endpoints)
    {
      assert Inside(0);
      ghost var e := endpoints[q];
      found, t := ends[q].senders.PopFront();
      if found {
        assert t in e.senders;
        endpoints := endpoints[q := TakenFrom(e, threads[t].message)];
      }
    }

    method PushReceiver(q: Ptr, t: Ptr, node: Ptr)
      requires Valid() && q in ends && node != NULL && node !in ends[q].receivers.links
      modifies this`endpoints, ends[q].receivers
      ensures Valid()
      ensures endpoints == old(endpoints)[q := old(endpoints)[q].(receivers := old(endpoints)[q].receivers + [t])]
    {
      assert Inside(0);
      ends[q].receivers.PushBack(t, node);
      endpoints := endpoints[q := endpoints[q].(receivers := endpoints[q].receivers + [t])];
    }

    /** A sender is put behind the others, and its message counts as sent. */
    method PushSender(q: Ptr, t: Ptr, node: Ptr, ghost message: Message)
      requires Valid() && q in ends && node != NULL && node !in ends[q].senders.links
      modifies this`endpoints, ends[q].senders
      ensures Valid() && endpoints == old(endpoints)[q := JoinedBy(old(endpoints)[q], t, message)]
    {
      assert Inside(0);
      ends[q].senders.PushBack(t, node);
      endpoints := endpoints[q := JoinedBy(endpoints[q], t, message)];
    }

    /** src/message.c:78-109 */
    method MessageTrySend(cur: Ptr, q: Ptr, message: Message) returns (ok: bool)
      requires Valid() && Closed(View()) && cur in threads && q in ends
      modifies this`threads, this`endpoints, ends[q].receivers
      ensures Valid() && (ok, View()) == TrySend(old(View()), cur, q, message)
      ensures Delivered(old(View()), View(), cur, q, message, ok)
    {
      ghost var s, e := View(), endpoints[q];
      DeliveredBy(s, cur, q, message);
      var found, t := PopReceiver(q);
      if !found {
        return false;
      }
      assert t in e.receivers;
      if message.kind < END_RESERVED && message.kind != GRANT_OBJECT && message.kind != PAGE_FAULT {
        return true;
      }
      var m := message.(sender := threads[cur].id);
      threads := threads[t := threads[t].(pending := true, state := Running, message := m,
                                          got := threads[t].got + [(q, m)])];
      Record(q, e.sent + [m], e.handed + [m]);
      ghost var s' := TrySend(s, cur, q, message).1;
      assert threads == s'.threads && endpoints == s'.endpoints;
      return true;
    }

    /** src/message.c:111-133; `node` is the address the slab allocator returns for the place in the
        queue of senders. */
    method MessageSend(cur: Ptr, q: Ptr, message: Message, node: Ptr)
      requires Valid() && Closed(View()) && cur in threads && q in ends && node != NULL
      requires node !in ends[q].senders.links
      modifies this`threads, this`endpoints, ends[q].receivers, ends[q].senders
      ensures Valid() && View() == Send(old(View()), cur, q, message)
      ensures Departed(old(View()), View(), cur, q, message)
      ensures InOrder(old(View())) && Enabled(old(View()), DoSend(cur, q, message)) ==>
                (InOrder(View()) <==> old(endpoints)[q].receivers == [] || !Intercepted(message))
    {
      ghost var s := View();
      SendKeeps(s, cur, q, message);
      SendParts(s, cur, q, message);
      DepartedBy(s, cur, q, message);
      assert ends[q].receivers != ends[q].senders by { assert Inside(0); }
      var ok := MessageTrySend(cur, q, message);
      if !ok {
        WaitBehind(cur, q, message, node);
      } else {
        Release(cur);
      }
    }

    /** src/message.c:122-124 */
    method WaitBehind(cur: Ptr, q: Ptr, message: Message, node: Ptr)
      requires Valid() && cur in threads && q in ends && node != NULL && node !in ends[q].senders.links
      modifies this`threads, this`endpoints, ends[q].senders
      ensures Valid() && threads == Blocked(old(threads), cur, q, message)
      ensures endpoints == old(endpoints)[q := JoinedBy(old(endpoints)[q], cur, message)]
    {
      Block(cur, q, message);
      PushSender(q, cur, node, message);
    }

    /** src/message.c:122-123 */
    method Block(cur: Ptr, q: Ptr, message: Message)
      requires cur in threads
      modifies this`threads
      ensures threads == Blocked(old(threads), cur, q, message)
    {
      threads := threads[cur := threads[cur].(message := message, state := State.Sending, place := InSend(q))];
    }

    /** src/message.c:18-25 */
    method Release(t: Ptr)
      requires t in threads
      modifies this`threads
      ensures threads == Released(old(threads), t)
    {
      if threads[t].faulted {
        threads := threads[t := threads[t].(state := Stopped)];
      } else {
        threads := threads[t := threads[t].(state := Running)];
      }
    }

    /** src/message.c:70-72 */
    method Return(cur: Ptr, q: Ptr)
      requires cur in threads
      modifies this`threads
      ensures threads == Took(old(threads), cur, q)
    {
      var c := threads[cur];
      threads := threads[cur := c.(state := Running, pending := false, place := Outside,
                                   took := c.took + [(q, c.message)])];
    }

    /** src/message.c:35-75, from the label `retry` on: true if a message was received, false if the
        thread blocks and retries when it runs again. */
    method MessageReceive(cur: Ptr, q: Ptr, node: Ptr) returns (received: bool)
      requires Valid() && Closed(View()) && cur in threads && q in ends && node != NULL
      requires node !in ends[q].receivers.links
      modifies this`threads, this`endpoints, ends[q].receivers, ends[q].senders
      ensures Valid() && View() == Receive(old(View()), cur, q)
      ensures Received(old(View()), View(), cur, q, received)
      ensures InOrder(old(View())) && Receives(old(View()), cur, q) ==> InOrder(View())
    {
      ghost var s := View();
      ReceiveKeeps(s, cur, q);
      ReceiveParts(s, cur, q);
      ReceivedBy(s, cur, q);
      if !threads[cur].pending {
        var found := TakeOrWait(cur, q, node);
        if !found {
          return false;
        }
      }
      Return(cur, q);
      return true;
    }

    /** src/message.c:42-60 */
    method TakeOrWait(cur: Ptr, q: Ptr, node: Ptr) returns (found: bool)
      requires Valid() && Closed(View()) && cur in threads && q in ends && node != NULL
      requires node !in ends[q].receivers.links
      modifies this`threads, this`endpoints, ends[q].receivers, ends[q].senders
      ensures Valid() && (found <==> old(endpoints)[q].senders != [])
      ensures found ==> old(endpoints)[q].senders[0] in old(threads) && View() == TakenUp(old(View()), cur, q)
      ensures !found ==> View() == Waits(old(View()), cur, q)
    {
      assert ends[q].receivers != ends[q].senders by { assert Inside(0); }
      var sender;
      found, sender := PopSender(q);
      if found {
        var m := threads[sender].message;
        threads := threads[cur := threads[cur].(message := m, got := threads[cur].got + [(q, m)])];
        Release(sender);
      } else {
        threads := threads[cur := threads[cur].(state := Waiting, place := InReceive(q))];
        PushReceiver(q, cur, node);
      }
    }
  }

  // ---------------------------------------------------------------- the parts of a step

  ghost function TakenFrom(e: Endpoint, m: Message): Endpoint {
    if e.senders == [] then e else e.(senders := e.senders[1..], handed := e.handed + [m])
  }

  ghost function JoinedBy(e: Endpoint, t: Ptr, m: Message): Endpoint {
    e.(senders := e.senders + [t], sent := e.sent + [m])
  }

  ghost function Blocked(threads: map<Ptr, Thread>, cur: Ptr, q: Ptr, m: Message): map<Ptr, Thread>
    requires cur in threads
  {
    threads[cur := threads[cur].(message := m, state := State.Sending, place := InSend(q))]
  }

  ghost function Released(threads: map<Ptr, Thread>, t: Ptr): map<Ptr, Thread>
    requires t in threads
  {
    threads[t := threads[t].(state := SenderState(threads[t]))]
  }

  ghost function Took(threads: map<Ptr, Thread>, cur: Ptr, q: Ptr): map<Ptr, Thread>
    requires cur in threads
  {
    var c := threads[cur];
    threads[cur := c.(state := Running, pending := false, place := Outside, took := c.took + [(q, c.message)])]
  }

  lemma SendParts(s: Sys, cur: Ptr, q: Ptr, message: Message)
    requires Closed(s) && cur in s.threads && q in s.endpoints
    ensures var (ok, s1) := TrySend(s, cur, q, message);
            && cur in s1.threads && q in s1.endpoints
            && (ok ==> Send(s, cur, q, message) == s1.(threads := Released(s1.threads, cur)))
            && (!ok ==> Send(s, cur, q, message) ==
                        Sys(Blocked(s1.threads, cur, q, message),
                            s1.endpoints[q := JoinedBy(s1.endpoints[q], cur, message)]))
  {
  }

  ghost function TakenUp(s: Sys, cur: Ptr, q: Ptr): Sys
    requires cur in s.threads && q in s.endpoints && s.endpoints[q].senders != []
    requires s.endpoints[q].senders[0] in s.threads
  {
    var c, e := s.threads[cur], s.endpoints[q];
    var m := s.threads[e.senders[0]].message;
    Sys(Released(s.threads[cur := c.(message := m, got := c.got + [(q, m)])], e.senders[0]),
        s.endpoints[q := TakenFrom(e, m)])
  }

  ghost function Waits(s: Sys, cur: Ptr, q: Ptr): Sys
    requires cur in s.threads && q in s.endpoints
  {
    var e := s.endpoints[q];
    Sys(s.threads[cur := s.threads[cur].(state := Waiting, place := InReceive(q))],
        s.endpoints[q := e.(receivers := e.receivers + [cur])])
  }

  lemma ReceiveParts(s: Sys, cur: Ptr, q: Ptr)
    requires Closed(s) && cur in s.threads && q in s.endpoints
    ensures s.threads[cur].pending ==> Receive(s, cur, q) == s.(threads := Took(s.threads, cur, q))
    ensures !s.threads[cur].pending && s.endpoints[q].senders == [] ==> Receive(s, cur, q) == Waits(s, cur, q)
    ensures !s.threads[cur].pending && s.endpoints[q].senders != [] ==>
              && s.endpoints[q].senders[0] in s.threads
              && Receive(s, cur, q) == TakenUp(s, cur, q).(threads := Took(TakenUp(s, cur, q).threads, cur, q))
  {
    var e := s.endpoints[q];
    if !s.threads[cur].pending && e.senders != [] {
      var t := e.senders[0];
      assert t in e.senders;
    }
  }

  /** A receive returns exactly if a message is pending or a sender is blocked.  It returns the pending
      message, else that of the first sender, who is off the queue and runs again unless it has
      faulted; otherwise the thread waits behind the other receivers. */
  ghost predicate Received(s: Sys, s': Sys, cur: Ptr, q: Ptr, received: bool)
    requires q in s.endpoints && cur in s.threads
  {
    forall z {:trigger Inside(z)} :: Inside(z) ==>
      var c, e := s.threads[cur], s.endpoints[q];
      && (received <==> c.pending || e.senders != [])
      && cur in s'.threads && q in s'.endpoints
      && (received ==>
            && s'.threads[cur].state == Running && !s'.threads[cur].pending && s'.endpoints[q].receivers == e.receivers
            && s'.threads[cur].took == c.took + [(q, s'.threads[cur].message)])
      && (c.pending ==> s'.threads[cur].message == c.message && s'.endpoints == s.endpoints)
      && (received && !c.pending ==>
            && e.senders[0] in s.threads && e.senders[0] in s'.threads && s'.endpoints[q].senders == e.senders[1..]
            && s'.threads[cur].message == s.threads[e.senders[0]].message
            && (e.senders[0] != cur ==> SetGoing(s.threads[e.senders[0]], s'.threads[e.senders[0]])))
      && (!received ==> s'.threads[cur].state == Waiting && s'.endpoints[q].receivers == e.receivers + [cur])
      && forall t :: t in s'.threads && t != cur && (e.senders == [] || t != e.senders[0]) ==>
         t in s.threads && s'.threads[t] == s.threads[t]
  }

  /** A sender whose message was taken runs again, or is stopped if it has faulted; nothing else of it
      changes. */
  ghost predicate SetGoing(t: Thread, t': Thread) {
    && (t.faulted ==> t'.state == Stopped) && (!t.faulted ==> t'.state == Running)
    && t' == t.(state := t'.state)
  }

  /** A send without a waiting receiver leaves the whole message with the sender, who waits behind the
      other senders; no other thread and no other endpoint changes.  Otherwise the sender goes on. */
  ghost predicate Departed(s: Sys, s': Sys, cur: Ptr, q: Ptr, message: Message)
    requires q in s.endpoints && cur in s.threads
  {
    forall z {:trigger Inside(z)} :: Inside(z) ==>
      var e := s.endpoints[q];
      && cur in s'.threads && q in s'.endpoints
      && (e.receivers == [] ==>
            && s'.threads[cur] == s.threads[cur].(message := message, state := State.Sending, place := InSend(q))
            && s'.endpoints[q].senders == e.senders + [cur] && s'.endpoints[q].receivers == []
            && (forall t :: t in s'.threads && t != cur ==> t in s.threads && s'.threads[t] == s.threads[t])
            && (forall r :: r in s'.endpoints && r != q ==> r in s.endpoints && s'.endpoints[r] == s.endpoints[r]))
      && (e.receivers != [] && e.receivers[0] != cur ==> SetGoing(s.threads[cur], s'.threads[cur]))
      && (e.receivers != [] && !Intercepted(message) && e.receivers[0] != cur ==>
            && e.receivers[0] in s'.threads && s'.threads[e.receivers[0]].pending
            && s'.threads[e.receivers[0]].message == Message(message.kind, s.threads[cur].id, message.data))
  }

  lemma DepartedBy(s: Sys, cur: Ptr, q: Ptr, message: Message)
    requires Closed(s) && cur in s.threads && q in s.endpoints
    ensures Departed(s, Send(s, cur, q, message), cur, q, message)
  {
    assert Inside(0);
    var r := s.endpoints[q].receivers;
    if r != [] { var t := r[0]; assert t in r; }
  }

  lemma ReceivedBy(s: Sys, cur: Ptr, q: Ptr)
    requires Closed(s) && cur in s.threads && q in s.endpoints
    ensures Received(s, Receive(s, cur, q), cur, q, s.threads[cur].pending || s.endpoints[q].senders != [])
  {
    assert Inside(0);
    var e := s.endpoints[q];
    if e.senders != [] { var t := e.senders[0]; assert t in e.senders; }
  }

  /** A send finds a receiver exactly if one waits, and then the first leaves the queue.  It is given
      the message and made to run, unless the kernel keeps the message for itself; no other thread
      changes. */
  ghost predicate Delivered(s: Sys, s': Sys, cur: Ptr, q: Ptr, message: Message, ok: bool)
    requires q in s.endpoints && cur in s.threads
  {
    forall z {:trigger Inside(z)} :: Inside(z) ==>
      var r := s.endpoints[q].receivers;
      && (ok <==> r != [])
      && (!ok || Intercepted(message) ==> s'.threads == s.threads)
      && (ok ==>
          q in s'.endpoints && s'.endpoints[q].receivers == r[1..] && s'.endpoints[q].senders == s.endpoints[q].senders)
      && (ok && !Intercepted(message) ==>
            && r[0] in s'.threads && s'.threads[r[0]].pending && s'.threads[r[0]].state == Running
            && s'.threads[r[0]].message == Message(message.kind, s.threads[cur].id, message.data)
            && forall t :: t in s'.threads && t != r[0] ==> t in s.threads && s'.threads[t] == s.threads[t])
  }

  lemma DeliveredBy(s: Sys, cur: Ptr, q: Ptr, message: Message)
    requires Closed(s) && cur in s.threads && q in s.endpoints
    ensures var (ok, s') := TrySend(s, cur, q, message); Delivered(s, s', cur, q, message, ok)
  {
    assert Inside(0);
    var r := s.endpoints[q].receivers;
    if r != [] { var t := r[0]; assert t in r; }
  }
}
