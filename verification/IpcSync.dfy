/** Synchronous message passing (src/message.c:18-146): endpoints on which senders and receivers
    meet.  Each locked section is one step of a thread; a blocked call goes on, once its thread
    runs again, with the step it retries. */
module IpcSync {
  import opened Pointers

  datatype State = Running | Stopped | Waiting | Sending

  datatype Message = Message(kind: nat, sender: nat, data: seq<nat>)

  const GRANT_OBJECT := 2
  const PAGE_FAULT := 9
  const END_RESERVED := 0x100

  /** src/message.c:11-13, 321-349: kernel messages that do not reach a waiting receiver. */
  predicate Intercepted(m: Message) {
    m.kind < END_RESERVED && m.kind != GRANT_OBJECT && m.kind != PAGE_FAULT
  }

  /** Of the kernel's own messages, only grants and page faults are forwarded; all others are. */
  lemma Forwarded(m: Message)
    ensures m.kind >= 0x100 || m.kind == 2 || m.kind == 9 ==> !Intercepted(m)
    ensures m.kind < 0x100 && m.kind != 2 && m.kind != 9 ==> Intercepted(m)
  {
  }

  /** Where a thread is: outside of message passing, or in a blocked call on an endpoint. */
  datatype Place = Outside | InReceive(endpoint: Ptr) | InSend(endpoint: Ptr)

  /** `got` and `took` are histories: what was copied into the thread's message buffer, and what its
      receive calls returned, with the endpoints. */
  datatype Thread = Thread(id: nat, state: State, pending: bool, faulted: bool, message: Message, place: Place,
                           got: seq<(Ptr, Message)>, took: seq<(Ptr, Message)>)

  /** `sent` and `handed` are histories: the messages of all sends, and those handed to receivers. */
  datatype Endpoint = Endpoint(receivers: seq<Ptr>, senders: seq<Ptr>, sent: seq<Message>, handed: seq<Message>)

  datatype Sys = Sys(threads: map<Ptr, Thread>, endpoints: map<Ptr, Endpoint>)

  // ---------------------------------------------------------------- the steps

  /** src/message.c:18-25 */
  function SenderState(t: Thread): State {
    if t.faulted then Stopped else Running
  }

  /** Copy a message into the buffer of `t`. */
  function Assign(s: Sys, q: Ptr, t: Ptr, m: Message): Sys
    requires t in s.threads && q in s.endpoints
  {
    var th, e := s.threads[t], s.endpoints[q];
    Sys(s.threads[t := th.(message := m, got := th.got + [(q, m)])], s.endpoints[q := e.(handed := e.handed + [m])])
  }

  /** src/message.c:78-109 */
  function TrySend(s: Sys, cur: Ptr, q: Ptr, msg: Message): (bool, Sys)
    requires cur in s.threads && q in s.endpoints && forall t :: t in s.endpoints[q].receivers ==> t in s.threads
  {
    var e := s.endpoints[q];
    if e.receivers == [] then (false, s)
    else
      var t := e.receivers[0];
      var popped := s.(endpoints := s.endpoints[q := e.(receivers := e.receivers[1..])]);
      if Intercepted(msg) then (true, popped)
      else
        var m := msg.(sender := s.threads[cur].id);
        var s1 := Assign(popped, q, t, m);
        var e1 := s1.endpoints[q];
        (true, Sys(s1.threads[t := s1.threads[t].(pending := true, state := Running)],
                   s1.endpoints[q := e1.(sent := e1.sent + [m])]))
  }

  /** src/message.c:111-133 */
  function Send(s: Sys, cur: Ptr, q: Ptr, msg: Message): Sys
    requires cur in s.threads && q in s.endpoints && forall t :: t in s.endpoints[q].receivers ==> t in s.threads
  {
    var (ok, s1) := TrySend(s, cur, q, msg);
    var c := s1.threads[cur];
    if ok then s1.(threads := s1.threads[cur := c.(state := SenderState(c))])
    else
      var e := s1.endpoints[q];
      Sys(s1.threads[cur := c.(message := msg, state := State.Sending, place := InSend(q))],
          s1.endpoints[q := e.(senders := e.senders + [cur], sent := e.sent + [msg])])
  }

  /** src/message.c:70-72 */
  function Finish(s: Sys, cur: Ptr, q: Ptr): Sys
    requires cur in s.threads
  {
    var c := s.threads[cur];
    s.(threads := s.threads[cur := c.(state := Running, pending := false, place := Outside,
                                      took := c.took + [(q, c.message)])])
  }

  /** src/message.c:35-75, from the label `retry` on. */
  function Receive(s: Sys, cur: Ptr, q: Ptr): Sys
    requires cur in s.threads && q in s.endpoints && forall t :: t in s.endpoints[q].senders ==> t in s.threads
  {
    var c, e := s.threads[cur], s.endpoints[q];
    if c.pending then Finish(s, cur, q)
    else if e.senders == [] then
      Sys(s.threads[cur := c.(state := Waiting, place := InReceive(q))],
          s.endpoints[q := e.(receivers := e.receivers + [cur])])
    else
      var sender := e.senders[0];
      var popped := s.(endpoints := s.endpoints[q := e.(senders := e.senders[1..])]);
      var s1 := Assign(popped, q, cur, s.threads[sender].message);
      var th := s1.threads[sender];
      Finish(s1.(threads := s1.threads[sender := th.(state := SenderState(th))]), cur, q)
  }

  /** What threads do.  Resume is a blocked thread going on once it is made to run again. */
  datatype Action =
    | DoSend(cur: Ptr, endpoint: Ptr, msg: Message)
    | DoReceive(cur: Ptr, endpoint: Ptr)
    | Resume(cur: Ptr)
    | Fault(cur: Ptr)
    | Stop(cur: Ptr)
    | Continue(cur: Ptr)

  predicate Enabled(s: Sys, a: Action) {
    && a.cur in s.threads
    && var c := s.threads[a.cur];
       match a
       case DoSend(_, q, _) => q in s.endpoints && c.state == Running && c.place == Outside
       case DoReceive(_, q) => q in s.endpoints && c.state == Running && c.place == Outside
       case Resume(_) => c.state == Running && c.place != Outside && c.place.endpoint in s.endpoints
       case Fault(_) => c.state == Running && c.place == Outside
       case Stop(_) => c.state == Running
       case Continue(_) => c.state == Stopped
  }

  /** The threads in the queues exist. */
  ghost predicate Closed(s: Sys) {
    forall q, t :: q in s.endpoints && (t in s.endpoints[q].receivers || t in s.endpoints[q].senders) ==> t in s.threads
  }

  ghost function Step(s: Sys, a: Action): Sys
    requires Closed(s) && Enabled(s, a)
  {
    var c := s.threads[a.cur];
    match a
    case DoSend(cur, q, msg) => Send(s, cur, q, msg)
    case DoReceive(cur, q) => Receive(s, cur, q)
    case Resume(cur) =>
      if c.place.InReceive? then Receive(s, cur, c.place.endpoint)
      else s.(threads := s.threads[cur := c.(place := Outside)])
    case Fault(cur) => s.(threads := s.threads[cur := c.(faulted := true)])
    case Stop(cur) => s.(threads := s.threads[cur := c.(state := Stopped)])
    case Continue(cur) => s.(threads := s.threads[cur := c.(state := Running, faulted := false)])
  }

  // ---------------------------------------------------------------- the invariant

  /** The messages of blocked senders. */
  function Buffers(threads: map<Ptr, Thread>, ts: seq<Ptr>): seq<Message>
    requires forall t :: t in ts ==> t in threads
  {
    if ts == [] then []
    else
      var t := ts[0];
      assert t in ts;
      [threads[t].message] + Buffers(threads, ts[1..])
  }

  /** An endpoint's queues: blocked threads, each once; never both kinds; and what was sent is what
      was assigned, followed by what the blocked senders hold. */
  ghost predicate EndpointInv(s: Sys, q: Ptr)
    requires q in s.endpoints
  {
    var e := s.endpoints[q];
    && (e.receivers == [] || e.senders == [])
    && NoDup(e.receivers) && NoDup(e.senders)
    && (forall t :: t in e.receivers ==>
        t in s.threads && s.threads[t].state == Waiting && s.threads[t].place == InReceive(q))
    && (forall t :: t in e.senders ==>
        t in s.threads && s.threads[t].state == State.Sending && s.threads[t].place == InSend(q))
    && e.sent == e.handed + Buffers(s.threads, e.senders)
  }

  /** A thread: it is in the queue it is blocked on; a pending message is the one assigned to it, and
      all assigned before were returned, in order. */
  ghost predicate ThreadInv(s: Sys, t: Ptr)
    requires t in s.threads
  {
    var th := s.threads[t];
    && (th.state == Waiting ==> th.place.InReceive? && !th.pending && th.place.endpoint in s.endpoints
                                && t in s.endpoints[th.place.endpoint].receivers)
    && (th.state == State.Sending ==> th.place.InSend? && th.place.endpoint in s.endpoints
                                      && t in s.endpoints[th.place.endpoint].senders)
    && (th.pending ==> th.place.InReceive?)
    && th.got == th.took + (if th.pending then [(th.place.endpoint, th.message)] else [])
  }

  ghost predicate Inv(s: Sys) {
    && (forall q :: q in s.endpoints ==> EndpointInv(s, q))
    && (forall t :: t in s.threads ==> ThreadInv(s, t))
  }

  lemma {:induction false} BuffersFrame(a: map<Ptr, Thread>, b: map<Ptr, Thread>, ts: seq<Ptr>)
    requires forall t :: t in ts ==> t in a && t in b && a[t].message == b[t].message
    ensures Buffers(a, ts) == Buffers(b, ts)
  {
    if ts != [] {
      var t := ts[0];
      assert t in ts;
      BuffersFrame(a, b, ts[1..]);
    }
  }

  lemma {:induction false} BuffersSnoc(a: map<Ptr, Thread>, ts: seq<Ptr>, t: Ptr)
    requires t in a && forall x :: x in ts ==> x in a
    ensures (forall x :: x in ts + [t] ==> x in a) && Buffers(a, ts + [t]) == Buffers(a, ts) + [a[t].message]
  {
    if ts != [] {
      BuffersSnoc(a, ts[1..], t);
      assert (ts + [t])[1..] == ts[1..] + [t];
      assert (ts + [t])[0] == ts[0];
    }
  }

  lemma EndpointFrame(s: Sys, s': Sys, q: Ptr)
    requires q in s.endpoints && q in s'.endpoints && s'.endpoints[q] == s.endpoints[q] && EndpointInv(s, q)
    requires forall t :: t in s.endpoints[q].receivers || t in s.endpoints[q].senders ==>
               t in s'.threads && s'.threads[t] == s.threads[t]
    ensures EndpointInv(s', q)
  {
    BuffersFrame(s.threads, s'.threads, s.endpoints[q].senders);
  }

  /** Threads blocked on other endpoints are not touched by a step of `cur` and `t` on `q`. */
  lemma OthersKept(s: Sys, s': Sys, q: Ptr, cur: Ptr, t: Ptr)
    requires Inv(s) && q in s.endpoints && cur in s.threads && t in s.threads
    requires s'.endpoints.Keys == s.endpoints.Keys && s'.threads.Keys == s.threads.Keys
    requires forall x :: x in s.endpoints && x != q ==> s'.endpoints[x] == s.endpoints[x]
    requires forall x :: x in s.threads && x != cur && x != t ==> s'.threads[x] == s.threads[x]
    requires s.threads[cur].place in {Outside, InReceive(q), InSend(q)}
    requires s.threads[t].place in {Outside, InReceive(q), InSend(q)}
    ensures forall x :: x in s.endpoints && x != q ==> EndpointInv(s', x)
  {
    forall x | x in s.endpoints && x != q ensures EndpointInv(s', x) {
      EndpointFrame(s, s', x);
    }
  }

  /** A thread whose record did not change, in an endpoint's queues as before. */
  lemma ThreadsKept(s: Sys, s': Sys, q: Ptr, cur: Ptr, t: Ptr)
    requires Inv(s) && q in s.endpoints && cur in s.threads && t in s.threads
    requires s'.endpoints.Keys == s.endpoints.Keys && s'.threads.Keys == s.threads.Keys
    requires forall x :: x in s.endpoints && x != q ==> s'.endpoints[x] == s.endpoints[x]
    requires forall x :: x in s.threads && x != cur && x != t ==> s'.threads[x] == s.threads[x]
    requires forall x :: x in s.endpoints[q].receivers && x != cur && x != t ==> x in s'.endpoints[q].receivers
    requires forall x :: x in s.endpoints[q].senders && x != cur && x != t ==> x in s'.endpoints[q].senders
    ensures forall x :: x in s.threads && x != cur && x != t ==> ThreadInv(s', x)
  {
  }

  /** A message handed directly to a waiting receiver. */
  lemma DirectInv(s: Sys, cur: Ptr, q: Ptr, msg: Message)
    requires Inv(s) && Enabled(s, DoSend(cur, q, msg)) && s.endpoints[q].receivers != [] && !Intercepted(msg)
    ensures Inv(Send(s, cur, q, msg))
  {
    var e := s.endpoints[q];
    var t := e.receivers[0];
    assert t in e.receivers;
    NoDupTail(e.receivers);
    var s' := Send(s, cur, q, msg);
    assert cur != t;
    OthersKept(s, s', q, cur, t);
    ThreadsKept(s, s', q, cur, t);
    assert e.senders == [];
    assert EndpointInv(s', q);
    assert ThreadInv(s', t) && ThreadInv(s', cur);
  }

  /** A sender that blocks. */
  lemma BlockedSendInv(s: Sys, cur: Ptr, q: Ptr, msg: Message)
    requires Inv(s) && Enabled(s, DoSend(cur, q, msg)) && s.endpoints[q].receivers == []
    ensures Inv(Send(s, cur, q, msg))
  {
    var e := s.endpoints[q];
    var s' := Send(s, cur, q, msg);
    OthersKept(s, s', q, cur, cur);
    ThreadsKept(s, s', q, cur, cur);
    assert cur !in e.senders;
    BuffersFrame(s.threads, s'.threads, e.senders);
    BuffersSnoc(s'.threads, e.senders, cur);
    NoDupSnoc(e.senders, cur);
    assert EndpointInv(s', q);
    assert ThreadInv(s', cur);
  }

  /** A receiver that finds a blocked sender: the endpoint, */
  lemma TakeEndpoint(s: Sys, cur: Ptr, q: Ptr)
    requires q in s.endpoints && EndpointInv(s, q) && cur in s.threads && s.threads[cur].state == Running
    requires s.endpoints[q].senders != []
    requires !s.threads[cur].pending
    ensures EndpointInv(Receive(s, cur, q), q)
  {
    var e, s' := s.endpoints[q], Receive(s, cur, q);
    NoDupTail(e.senders);
    BuffersFrame(s.threads, s'.threads, e.senders[1..]);
    assert Buffers(s.threads, e.senders) == [s.threads[e.senders[0]].message] + Buffers(s.threads, e.senders[1..]);
  }

  /** and the two threads. */
  lemma TakeThreads(s: Sys, cur: Ptr, t: Ptr, q: Ptr)
    requires q in s.endpoints && cur in s.threads && t in s.threads && cur != t && ThreadInv(s, cur) && ThreadInv(s, t)
    requires s.threads[cur].state == Running && !s.threads[cur].pending && s.threads[t].place == InSend(q)
    requires s.endpoints[q].senders != [] && s.endpoints[q].senders[0] == t
    requires forall x :: x in s.endpoints[q].senders ==> x in s.threads
    ensures ThreadInv(Receive(s, cur, q), cur) && ThreadInv(Receive(s, cur, q), t)
  {
  }

  lemma TakeInv(s: Sys, cur: Ptr, q: Ptr)
    requires Inv(s) && cur in s.threads && q in s.endpoints && s.threads[cur].state == Running
    requires s.threads[cur].place in {Outside, InReceive(q)} && !s.threads[cur].pending && s.endpoints[q].senders != []
    ensures Inv(Receive(s, cur, q))
  {
    var e := s.endpoints[q];
    var t := e.senders[0];
    assert t in e.senders;
    NoDupTail(e.senders);
    var s' := Receive(s, cur, q);
    OthersKept(s, s', q, cur, t);
    ThreadsKept(s, s', q, cur, t);
    TakeEndpoint(s, cur, q);
    TakeThreads(s, cur, t, q);
  }

  /** A receiver that blocks, or goes on with the message it was handed. */
  lemma WaitInv(s: Sys, cur: Ptr, q: Ptr)
    requires Inv(s) && cur in s.threads && q in s.endpoints && s.threads[cur].state == Running
    requires s.threads[cur].place in {Outside, InReceive(q)} && (s.threads[cur].pending || s.endpoints[q].senders == [])
    ensures Inv(Receive(s, cur, q))
  {
    var e := s.endpoints[q];
    var s' := Receive(s, cur, q);
    OthersKept(s, s', q, cur, cur);
    ThreadsKept(s, s', q, cur, cur);
    assert cur !in e.receivers && cur !in e.senders;
    NoDupSnoc(e.receivers, cur);
    BuffersFrame(s.threads, s'.threads, e.senders);
    assert EndpointInv(s', q);
    assert ThreadInv(s', cur);
  }

  /** Steps that change nothing but the running thread's own state, flags or place. */
  lemma LocalInv(s: Sys, a: Action)
    requires Inv(s) && Enabled(s, a)
    requires a.Fault? || a.Stop? || a.Continue? || (a.Resume? && s.threads[a.cur].place.InSend?)
    ensures Closed(s) && Inv(Step(s, a))
  {
    var s' := Step(s, a);
    forall q | q in s.endpoints ensures EndpointInv(s', q) {
      EndpointFrame(s, s', q);
    }
    forall t | t in s.threads ensures ThreadInv(s', t) {
      assert t != a.cur ==> s'.threads[t] == s.threads[t];
    }
  }

  /** The step reaches no waiting receiver with an intercepted kernel message. */
  predicate Forwards(s: Sys, a: Action) {
    a.DoSend? && a.endpoint in s.endpoints && s.endpoints[a.endpoint].receivers != [] ==> !Intercepted(a.msg)
  }

  lemma StepInv(s: Sys, a: Action)
    requires Inv(s) && Enabled(s, a) && Forwards(s, a)
    ensures Closed(s) && Inv(Step(s, a))
  {
    match a
    case DoSend(cur, q, msg) =>
      if s.endpoints[q].receivers == [] { BlockedSendInv(s, cur, q, msg); } else { DirectInv(s, cur, q, msg); }
    case DoReceive(cur, q) =>
      if s.endpoints[q].senders == [] { WaitInv(s, cur, q); } else { TakeInv(s, cur, q); }
    case Resume(cur) =>
      if s.threads[cur].place.InReceive? {
        var q := s.threads[cur].place.endpoint;
        if s.threads[cur].pending || s.endpoints[q].senders == [] { WaitInv(s, cur, q); } else { TakeInv(s, cur, q); }
      } else {
        LocalInv(s, a);
      }
    case Fault(_) => LocalInv(s, a);
    case Stop(_) => LocalInv(s, a);
    case Continue(_) => LocalInv(s, a);
  }

  /** An intercepted message takes a waiting receiver out of the queue: the invariant is kept exactly
      by the sends that are forwarded or find nobody waiting. */
  lemma InterceptExactly(s: Sys, cur: Ptr, q: Ptr, msg: Message)
    requires Inv(s) && Enabled(s, DoSend(cur, q, msg))
    ensures Inv(Send(s, cur, q, msg)) <==> s.endpoints[q].receivers == [] || !Intercepted(msg)
  {
    var e := s.endpoints[q];
    if e.receivers == [] || !Intercepted(msg) {
      StepInv(s, DoSend(cur, q, msg));
    } else {
      var t := e.receivers[0];
      assert t in e.receivers;
      NoDupTail(e.receivers);
      var s' := Send(s, cur, q, msg);
      assert s'.threads[t] == s.threads[t] && t !in s'.endpoints[q].receivers;
      assert !ThreadInv(s', t);
    }
  }

  /** The thread waits for a message, and no queue holds it. */
  ghost predicate Stranded(s: Sys, t: Ptr) {
    && t in s.threads && s.threads[t].state == Waiting && !s.threads[t].pending
    && forall q :: q in s.endpoints ==> t !in s.endpoints[q].receivers && t !in s.endpoints[q].senders
  }

  /** An intercepted message strands the receiver that it takes out of the queue. */
  lemma InterceptStrands(s: Sys, cur: Ptr, q: Ptr, msg: Message)
    requires Inv(s) && Enabled(s, DoSend(cur, q, msg)) && s.endpoints[q].receivers != [] && Intercepted(msg)
    ensures Stranded(Send(s, cur, q, msg), s.endpoints[q].receivers[0])
  {
    var e := s.endpoints[q];
    var t := e.receivers[0];
    assert t in e.receivers;
    NoDupTail(e.receivers);
    forall r | r in s.endpoints && r != q ensures t !in s.endpoints[r].receivers && t !in s.endpoints[r].senders {
      assert EndpointInv(s, r) && EndpointInv(s, q);
    }
  }

  /** Whatever any thread does, kernel messages included. */
  ghost predicate Follows(s: Sys, acts: seq<Action>, s': Sys)
    decreases |acts|
  {
    if acts == [] then s' == s else Closed(s) && Enabled(s, acts[0]) && Follows(Step(s, acts[0]), acts[1..], s')
  }

  /** It is out for good: in no run does it receive a message, or run, or join a queue. */
  lemma {:induction false} StrandedForever(s: Sys, acts: seq<Action>, s': Sys, t: Ptr)
    requires Stranded(s, t) && Follows(s, acts, s')
    ensures Stranded(s', t) && s'.threads[t].took == s.threads[t].took
    decreases |acts|
  {
    if acts != [] {
      StrandedStep(s, acts[0], t);
      StrandedForever(Step(s, acts[0]), acts[1..], s', t);
    }
  }

  lemma StrandedStep(s: Sys, a: Action, t: Ptr)
    requires Stranded(s, t) && Closed(s) && Enabled(s, a)
    ensures Stranded(Step(s, a), t) && Step(s, a).threads[t].took == s.threads[t].took
  {
    if a.DoSend? {
      StrandedSend(s, a.cur, a.endpoint, a.msg, t);
    } else if a.DoReceive? {
      StrandedReceive(s, a.cur, a.endpoint, t);
    } else if a.Resume? && s.threads[a.cur].place.InReceive? {
      StrandedReceive(s, a.cur, s.threads[a.cur].place.endpoint, t);
    }
  }

  lemma StrandedSend(s: Sys, cur: Ptr, q: Ptr, msg: Message, t: Ptr)
    requires Stranded(s, t) && Closed(s) && cur in s.threads && q in s.endpoints && cur != t
    ensures Stranded(Send(s, cur, q, msg), t) && Send(s, cur, q, msg).threads[t].took == s.threads[t].took
  {
    var r := s.endpoints[q].receivers;
    if r != [] { var x := r[0]; assert x in r; }
  }

  lemma StrandedReceive(s: Sys, cur: Ptr, q: Ptr, t: Ptr)
    requires Stranded(s, t) && Closed(s) && cur in s.threads && q in s.endpoints && cur != t
    ensures Stranded(Receive(s, cur, q), t) && Receive(s, cur, q).threads[t].took == s.threads[t].took
  {
    var e := s.endpoints[q];
    if e.senders != [] { var x := e.senders[0]; assert x in e.senders; }
  }

  // ---------------------------------------------------------------- whole runs

  /** `s'` is reached from `s` by the actions, each enabled and forwarded. */
  ghost predicate Runs(s: Sys, acts: seq<Action>, s': Sys)
    decreases |acts|
  {
    if acts == [] then s' == s
    else Closed(s) && Enabled(s, acts[0]) && Forwards(s, acts[0]) && Runs(Step(s, acts[0]), acts[1..], s')
  }

  /** Nobody blocked, nothing sent. */
  ghost predicate Fresh(s: Sys) {
    && (forall q :: q in s.endpoints ==> s.endpoints[q] == Endpoint([], [], [], []))
    && (forall t :: t in s.threads ==>
          var th := s.threads[t];
          && (th.state == Running || th.state == Stopped) && !th.pending && th.place == Outside
          && th.got == [] && th.took == [])
  }

  /** In every run, messages arrive in the order they were sent, none lost, duplicated or
      overwritten, and no endpoint has both blocked senders and blocked receivers. */
  lemma {:induction false} RunInv(s: Sys, acts: seq<Action>, s': Sys)
    requires Inv(s) && Runs(s, acts, s')
    ensures Inv(s')
    decreases |acts|
  {
    if acts != [] {
      StepInv(s, acts[0]);
      RunInv(Step(s, acts[0]), acts[1..], s');
    }
  }

  lemma RunFromFresh(s: Sys, acts: seq<Action>, s': Sys, q: Ptr)
    requires Fresh(s) && Runs(s, acts, s') && q in s'.endpoints
    ensures var e := s'.endpoints[q];
            && (e.receivers == [] || e.senders == [])
            && (forall t :: t in e.senders ==> t in s'.threads)
            && e.sent == e.handed + Buffers(s'.threads, e.senders)
    ensures forall t :: t in s'.threads ==>
              var th := s'.threads[t];
              && (th.pending ==> th.place.InReceive?)
              && th.got == th.took + (if th.pending then [(th.place.endpoint, th.message)] else [])
  {
    assert Inv(s);
    RunInv(s, acts, s');
    assert EndpointInv(s', q);
  }

  // ---------------------------------------------------------------- what is sent

  /** The message that a step sends on `q`, if it is a send: with the sender's number filled in if a
      receiver waits, else as the sender gave it. */
  ghost function SentBy(s: Sys, a: Action, q: Ptr): seq<Message>
    requires q in s.endpoints && a.cur in s.threads
  {
    if !a.DoSend? || a.endpoint != q then []
    else if s.endpoints[q].receivers != [] then [Message(a.msg.kind, s.threads[a.cur].id, a.msg.data)]
    else [Message(a.msg.kind, a.msg.sender, a.msg.data)]
  }

  /** The threads are the same, with the same numbers. */
  ghost predicate SameIds(a: map<Ptr, Thread>, b: map<Ptr, Thread>) {
    a.Keys == b.Keys && forall t :: t in a ==> a[t].id == b[t].id
  }

  lemma SendSends(s: Sys, cur: Ptr, r: Ptr, msg: Message, q: Ptr)
    requires Closed(s) && cur in s.threads && r in s.endpoints && q in s.endpoints
    requires s.endpoints[r].receivers != [] ==> !Intercepted(msg)
    ensures var s' := Send(s, cur, r, msg);
            && SameIds(s'.threads, s.threads) && q in s'.endpoints
            && s'.endpoints[q].sent == s.endpoints[q].sent + SentBy(s, DoSend(cur, r, msg), q)
  {
    var e := s.endpoints[r];
    if e.receivers != [] { var t := e.receivers[0]; assert t in e.receivers; }
  }

  lemma ReceiveSends(s: Sys, cur: Ptr, r: Ptr, q: Ptr)
    requires Closed(s) && cur in s.threads && r in s.endpoints && q in s.endpoints
    ensures var s' := Receive(s, cur, r);
            SameIds(s'.threads, s.threads) && q in s'.endpoints && s'.endpoints[q].sent == s.endpoints[q].sent
  {
    var e := s.endpoints[r];
    if e.senders != [] { var t := e.senders[0]; assert t in e.senders; }
  }

  /** A step adds to what was sent on an endpoint exactly the message that it was given, if it is a send. */
  lemma StepSends(s: Sys, a: Action, q: Ptr)
    requires Closed(s) && Enabled(s, a) && Forwards(s, a) && q in s.endpoints
    ensures var s' := Step(s, a);
            && SameIds(s'.threads, s.threads) && q in s'.endpoints
            && s'.endpoints[q].sent == s.endpoints[q].sent + SentBy(s, a, q)
  {
    if a.DoSend? {
      SendSends(s, a.cur, a.endpoint, a.msg, q);
    } else if a.DoReceive? {
      ReceiveSends(s, a.cur, a.endpoint, q);
    } else if a.Resume? && s.threads[a.cur].place.InReceive? {
      ReceiveSends(s, a.cur, s.threads[a.cur].place.endpoint, q);
    }
  }

  /** The messages of the send actions on `q`, as the senders gave them. */
  ghost function Given(acts: seq<Action>, q: Ptr): seq<Message> {
    if acts == [] then []
    else (if acts[0].DoSend? && acts[0].endpoint == q then [acts[0].msg] else []) + Given(acts[1..], q)
  }

  /** The threads of the send actions on `q`. */
  ghost function Givers(acts: seq<Action>, q: Ptr): (r: seq<Ptr>)
    ensures |r| == |Given(acts, q)|
  {
    if acts == [] then []
    else (if acts[0].DoSend? && acts[0].endpoint == q then [acts[0].cur] else []) + Givers(acts[1..], q)
  }

  /** `m` is the message that `t` gave, as it was or with the sender's number filled in. */
  ghost predicate Stamped(threads: map<Ptr, Thread>, m: Message, given: Message, t: Ptr) {
    && m.kind == given.kind && m.data == given.data
    && t in threads && (m.sender == given.sender || m.sender == threads[t].id)
  }

  /** In every run, what is sent on an endpoint is what the sends in the run were given, in order. */
  lemma {:induction false} RunSends(s: Sys, acts: seq<Action>, s': Sys, q: Ptr)
    requires Runs(s, acts, s') && q in s.endpoints
    ensures q in s'.endpoints && s.endpoints[q].sent <= s'.endpoints[q].sent
    ensures var sent := s'.endpoints[q].sent[|s.endpoints[q].sent|..];
            AllStamped(s.threads, sent, Given(acts, q), Givers(acts, q))
    decreases |acts|
  {
    if acts != [] {
      var a, n := acts[0], Step(s, acts[0]);
      StepSends(s, a, q);
      RunSends(n, acts[1..], s', q);
      var first := SentBy(s, a, q);
      Spliced(s.endpoints[q].sent, first, s'.endpoints[q].sent);
      var rest := s'.endpoints[q].sent[|n.endpoints[q].sent|..];
      assert AllStamped(s.threads, first, Given([a], q), Givers([a], q));
      assert AllStamped(s.threads, rest, Given(acts[1..], q), Givers(acts[1..], q)) by {
        assert AllStamped(n.threads, rest, Given(acts[1..], q), Givers(acts[1..], q));
      }
      StampedConcat(s.threads, first, Given([a], q), Givers([a], q), rest, Given(acts[1..], q), Givers(acts[1..], q));
    }
  }

  lemma Spliced(before: seq<Message>, first: seq<Message>, after: seq<Message>)
    requires before + first <= after
    ensures before <= after && after[|before|..] == first + after[|before + first|..]
  {
  }

  ghost predicate AllStamped(threads: map<Ptr, Thread>, ms: seq<Message>, given: seq<Message>, ts: seq<Ptr>) {
    && |ms| == |given| == |ts|
    && forall i :: 0 <= i < |ms| ==> Stamped(threads, ms[i], given[i], ts[i])
  }

  lemma StampedConcat(threads: map<Ptr, Thread>, ms: seq<Message>, given: seq<Message>, ts: seq<Ptr>,
                      ms': seq<Message>, given': seq<Message>, ts': seq<Ptr>)
    requires AllStamped(threads, ms, given, ts) && AllStamped(threads, ms', given', ts')
    ensures AllStamped(threads, ms + ms', given + given', ts + ts')
  {
  }

  /** From a fresh start: the messages handed to receivers, then those of the blocked senders, are the
      messages that the sends in the run were given, in order. */
  lemma RunDelivers(s: Sys, acts: seq<Action>, s': Sys, q: Ptr)
    requires Fresh(s) && Runs(s, acts, s') && q in s.endpoints
    ensures q in s'.endpoints && forall t :: t in s'.endpoints[q].senders ==> t in s'.threads
    ensures var got := s'.endpoints[q].handed + Buffers(s'.threads, s'.endpoints[q].senders);
            AllStamped(s.threads, got, Given(acts, q), Givers(acts, q))
  {
    assert Inv(s);
    RunSends(s, acts, s', q);
    RunFromFresh(s, acts, s', q);
    assert s'.endpoints[q].sent[0..] == s'.endpoints[q].sent;
  }

  /** Nothing is handed to anyone by this step. */
  ghost predicate HandsNothing(s: Sys, s': Sys)
    requires s'.threads.Keys == s.threads.Keys && s'.endpoints.Keys == s.endpoints.Keys
  {
    && (forall t :: t in s.threads ==> s'.threads[t].got == s.threads[t].got)
    && (forall q :: q in s.endpoints ==> s'.endpoints[q].handed == s.endpoints[q].handed)
  }

  /** One message of `q` is handed to `t`, and nothing else to anyone. */
  ghost predicate HandsOver(s: Sys, s': Sys, q: Ptr, t: Ptr, m: Message)
    requires q in s.endpoints && t in s.threads && s'.threads.Keys == s.threads.Keys
    requires s'.endpoints.Keys == s.endpoints.Keys
  {
    && s'.threads[t].got == s.threads[t].got + [(q, m)]
    && s'.endpoints[q].handed == s.endpoints[q].handed + [m]
    && (forall x :: x in s.threads && x != t ==> s'.threads[x].got == s.threads[x].got)
    && (forall x :: x in s.endpoints && x != q ==> s'.endpoints[x].handed == s.endpoints[x].handed)
  }

  /** A message that leaves an endpoint goes to exactly one thread: to the first waiting receiver, or
      to the receiver that finds a blocked sender. */
  lemma HandedOnce(s: Sys, a: Action)
    requires Inv(s) && Enabled(s, a) && Forwards(s, a)
    ensures var s' := Step(s, a);
            && s'.threads.Keys == s.threads.Keys && s'.endpoints.Keys == s.endpoints.Keys
            && (|| HandsNothing(s, s')
                || exists q, t, m :: q in s.endpoints && t in s.threads && HandsOver(s, s', q, t, m))
  {
    var s' := Step(s, a);
    if a.DoSend? && s.endpoints[a.endpoint].receivers != [] {
      var q := a.endpoint;
      var t := s.endpoints[q].receivers[0];
      assert t in s.endpoints[q].receivers;
      assert HandsOver(s, s', q, t, a.msg.(sender := s.threads[a.cur].id));
    } else if a.DoReceive? || (a.Resume? && s.threads[a.cur].place.InReceive?) {
      var q := if a.DoReceive? then a.endpoint else s.threads[a.cur].place.endpoint;
      if !s.threads[a.cur].pending && s.endpoints[q].senders != [] {
        var x := s.endpoints[q].senders[0];
        assert x in s.endpoints[q].senders;
        assert HandsOver(s, s', q, a.cur, s.threads[x].message);
      } else {
        assert HandsNothing(s, s');
      }
    } else {
      assert HandsNothing(s, s');
    }
  }
}
