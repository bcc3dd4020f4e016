/** Asynchronous message queues (src/message.c:148-182, 253-314): a bounded queue of messages that
    receivers may block on.  Each locked section is one step. */
module IpcAsync {
  import opened Pointers
  import opened Chains
  import IpcSync
  import KQueue

  type Message = IpcSync.Message

  const MAX_ELEMENTS: nat := 64

  // ---------------------------------------------------------------- the protocol

  /** A queue as a value.  `woken` are the receivers that a send has taken off the queue and that
      have not run again yet; `accepted` and `taken` are histories. */
  datatype AQueue = AQueue(messages: seq<Message>, receivers: seq<Ptr>, woken: set<Ptr>,
                           accepted: seq<Message>, taken: seq<Message>)

  /** src/message.c:253-281: false, and nothing changed, if the queue is full. */
  function SendAsync(q: AQueue, msg: Message): (bool, AQueue) {
    if |q.messages| >= MAX_ELEMENTS then (false, q)
    else
      var q1 := q.(messages := q.messages + [msg], accepted := q.accepted + [msg]);
      (true, if q.receivers == [] then q1
             else q1.(receivers := q.receivers[1..], woken := q.woken + {q.receivers[0]}))
  }

  datatype Outcome = Got(message: Message) | Blocked | Empty

  /** src/message.c:291-314, from the label `retry` on. */
  function ReceiveAsync(q: AQueue, cur: Ptr, block: bool): (Outcome, AQueue) {
    var q0 := q.(woken := q.woken - {cur});
    if q.messages != [] then
      (Got(q.messages[0]), q0.(messages := q.messages[1..], taken := q.taken + [q.messages[0]]))
    else if block then (Blocked, q0.(receivers := q.receivers + [cur]))
    else (Empty, q0)
  }

  /** Resume is a woken receiver that runs again, and retries. */
  datatype Action = Send(msg: Message) | Receive(cur: Ptr, block: bool) | Resume(cur: Ptr)

  predicate Enabled(q: AQueue, a: Action) {
    match a
    case Send(_) => true
    case Receive(cur, _) => cur !in q.receivers && cur !in q.woken
    case Resume(cur) => cur in q.woken
  }

  function Step(q: AQueue, a: Action): AQueue
    requires Enabled(q, a)
  {
    match a
    case Send(msg) => SendAsync(q, msg).1
    case Receive(cur, block) => ReceiveAsync(q, cur, block).1
    case Resume(cur) => ReceiveAsync(q, cur, true).1
  }

  /** Bounded, first in first out, and no wake-up is lost: as long as receivers are blocked, there
      are no more messages than receivers on their way to take them. */
  ghost predicate Inv(q: AQueue) {
    && |q.messages| <= MAX_ELEMENTS
    && NoDup(q.receivers) && (forall t :: t in q.receivers ==> t !in q.woken)
    && (q.receivers != [] ==> |q.messages| <= |q.woken|)
    && q.taken + q.messages == q.accepted
  }

  lemma SendInv(q: AQueue, msg: Message)
    requires Inv(q)
    ensures Inv(SendAsync(q, msg).1)
  {
    var r := q.receivers;
    if |q.messages| < MAX_ELEMENTS {
      assert q.taken + (q.messages + [msg]) == q.accepted + [msg];
      if r != [] {
        var t := r[0];
        assert t in r;
        NoDupTail(r);
        assert |q.woken + {t}| == |q.woken| + 1;
      }
    }
  }

  lemma ReceiveInv(q: AQueue, cur: Ptr, block: bool)
    requires Inv(q) && cur !in q.receivers
    ensures Inv(ReceiveAsync(q, cur, block).1)
  {
    if q.messages != [] {
      assert q.taken + q.messages == (q.taken + [q.messages[0]]) + q.messages[1..];
      assert cur in q.woken ==> |q.woken - {cur}| == |q.woken| - 1;
      assert cur !in q.woken ==> q.woken - {cur} == q.woken;
    } else if block {
      NoDupSnoc(q.receivers, cur);
    }
  }

  lemma StepInv(q: AQueue, a: Action)
    requires Inv(q) && Enabled(q, a)
    ensures Inv(Step(q, a))
  {
    match a
    case Send(msg) => SendInv(q, msg);
    case Receive(cur, block) => ReceiveInv(q, cur, block);
    case Resume(cur) =>
      assert cur !in q.receivers;
      ReceiveInv(q, cur, true);
  }

  ghost predicate Runs(q: AQueue, acts: seq<Action>, q': AQueue)
    decreases |acts|
  {
    if acts == [] then q' == q
    else Enabled(q, acts[0]) && Runs(Step(q, acts[0]), acts[1..], q')
  }

  lemma {:induction false} RunInv(q: AQueue, acts: seq<Action>, q': AQueue)
    requires Inv(q) && Runs(q, acts, q')
    ensures Inv(q')
    decreases |acts|
  {
    if acts != [] {
      StepInv(q, acts[0]);
      RunInv(Step(q, acts[0]), acts[1..], q');
    }
  }

  /** The messages of the sends in a run that found room. */
  ghost function Accepted(q: AQueue, acts: seq<Action>): seq<Message>
    requires Follows(q, acts)
    decreases |acts|
  {
    if acts == [] then []
    else
      (if acts[0].Send? && |q.messages| < 64 then [acts[0].msg] else []) + Accepted(Step(q, acts[0]), acts[1..])
  }

  /** What a receive, or its retry, returns to its caller. */
  ghost function Returned(q: AQueue, a: Action): Outcome {
    match a
    case Send(_) => Empty
    case Receive(cur, block) => ReceiveAsync(q, cur, block).0
    case Resume(cur) => ReceiveAsync(q, cur, true).0
  }

  /** The messages that the receives in a run returned to their callers. */
  ghost function Received(q: AQueue, acts: seq<Action>): seq<Message>
    requires Follows(q, acts)
    decreases |acts|
  {
    if acts == [] then []
    else
      (if Returned(q, acts[0]).Got? then [Returned(q, acts[0]).message] else []) + Received(Step(q, acts[0]), acts[1..])
  }

  ghost predicate Follows(q: AQueue, acts: seq<Action>)
    decreases |acts|
  {
    acts == [] || (Enabled(q, acts[0]) && Follows(Step(q, acts[0]), acts[1..]))
  }

  /** The histories are those of the run. */
  lemma {:induction false} RunHistories(q: AQueue, acts: seq<Action>, q': AQueue)
    requires Runs(q, acts, q')
    ensures Follows(q, acts) && q'.accepted == q.accepted + Accepted(q, acts) && q'.taken == q.taken + Received(q, acts)
    decreases |acts|
  {
    if acts != [] {
      var a, n := acts[0], Step(q, acts[0]);
      RunHistories(n, acts[1..], q');
      StepHistories(q, a);
      var x := if a.Send? && |q.messages| < 64 then [a.msg] else [];
      var y := if Returned(q, a).Got? then [Returned(q, a).message] else [];
      Grouped(q.accepted, x, Accepted(n, acts[1..]));
      Grouped(q.taken, y, Received(n, acts[1..]));
    }
  }

  lemma StepHistories(q: AQueue, a: Action)
    requires Enabled(q, a)
    ensures Step(q, a).accepted == q.accepted + if a.Send? && |q.messages| < 64 then [a.msg] else []
    ensures Step(q, a).taken == q.taken + if Returned(q, a).Got? then [Returned(q, a).message] else []
  {
  }

  lemma Grouped(a: seq<Message>, b: seq<Message>, c: seq<Message>)
    ensures (a + b) + c == a + (b + c)
  {
  }

  /** In every run from an empty queue: the messages that receives returned, then those in the queue,
      are the messages of the sends that found room, in order. */
  lemma RunReturns(acts: seq<Action>, q: AQueue)
    requires Runs(AQueue([], [], {}, [], []), acts, q)
    ensures Follows(AQueue([], [], {}, [], []), acts)
    ensures Received(AQueue([], [], {}, [], []), acts) + q.messages == Accepted(AQueue([], [], {}, [], []), acts)
  {
    var start := AQueue([], [], {}, [], []);
    RunInv(start, acts, q);
    RunHistories(start, acts, q);
    assert [] + Accepted(start, acts) == Accepted(start, acts) && [] + Received(start, acts) == Received(start, acts);
  }

  /** What a send does: a message that finds room goes behind the others, and the first blocked
      receiver, if any, is woken; otherwise nothing changes. */
  lemma SendExactly(q: AQueue, msg: Message)
    ensures var (sent, q') := SendAsync(q, msg);
            && (sent <==> |q.messages| < 64)
            && (!sent ==> q' == q)
            && (sent ==> q'.messages == q.messages + [msg])
            && (sent && q.receivers != [] ==>
                  q.receivers == [q.receivers[0]] + q'.receivers && q'.woken == q.woken + {q.receivers[0]})
            && (sent && q.receivers == [] ==> q'.receivers == [] && q'.woken == q.woken)
  {
  }

  /** What a receive does: it returns the first message, if there is one; otherwise it blocks behind
      the other receivers, or returns nothing, as the caller asked. */
  lemma ReceiveExactly(q: AQueue, cur: Ptr, block: bool)
    ensures var (r, q') := ReceiveAsync(q, cur, block);
            && (r.Got? <==> q.messages != [])
            && (r.Got? ==> q.messages == [r.message] + q'.messages && q'.receivers == q.receivers)
            && (r.Blocked? <==> q.messages == [] && block)
            && (r.Blocked? ==> q'.messages == [] && q'.receivers == q.receivers + [cur])
            && (r.Empty? ==> q'.messages == [] && q'.receivers == q.receivers)
  {
  }

  /** From an empty queue, in every run: the messages taken are the first of those accepted, in
      order; and as long as receivers are blocked, there are no more messages than woken receivers on
      their way to take them. */
  lemma RunFromEmpty(acts: seq<Action>, q: AQueue)
    requires Runs(AQueue([], [], {}, [], []), acts, q)
    ensures q.taken <= q.accepted && q.accepted[|q.taken|..] == q.messages && |q.messages| <= MAX_ELEMENTS
    ensures q.receivers != [] ==> |q.messages| <= |q.woken|
  {
    RunInv(AQueue([], [], {}, [], []), acts, q);
  }

  // ---------------------------------------------------------------- the linked list of messages

  /** Node `i` points at node `i + 1`. */
  ghost predicate Next(next: map<Ptr, Ptr>, nodes: seq<Ptr>, i: int) {
    0 <= i < |nodes| ==> nodes[i] != NULL && nodes[i] in next && next[nodes[i]] == At(nodes, i + 1)
  }

  ghost predicate List(first: Ptr, last: Ptr, elements: nat, next: map<Ptr, Ptr>, messages: map<Ptr, Message>,
                       nodes: seq<Ptr>) {
    && NoDup(nodes)
    && (forall i {:trigger Next(next, nodes, i)} :: Next(next, nodes, i))
    && next.Keys == Elems(nodes) && messages.Keys == Elems(nodes)
    && first == At(nodes, 0) && (nodes != [] ==> last == nodes[|nodes| - 1])
    && elements == |nodes|
  }

  ghost predicate Kept(first: Ptr, last: Ptr, elements: nat, next: map<Ptr, Ptr>, messages: map<Ptr, Message>,
                       nodes: seq<Ptr>) {
    forall z {:trigger Inside(z)} :: Inside(z) ==> List(first, last, elements, next, messages, nodes)
  }

  const NOTHING: Message := IpcSync.Message(0, 0, [])

  function Texts(messages: map<Ptr, Message>, nodes: seq<Ptr>): (r: seq<Message>)
    ensures |r| == |nodes|
  {
    if nodes == [] then []
    else [if nodes[0] in messages then messages[nodes[0]] else NOTHING] + Texts(messages, nodes[1..])
  }

  lemma {:induction false} TextsFrame(a: map<Ptr, Message>, b: map<Ptr, Message>, nodes: seq<Ptr>)
    requires forall n :: n in nodes ==> n in a && n in b && a[n] == b[n]
    ensures Texts(a, nodes) == Texts(b, nodes)
  {
    if nodes != [] {
      var n := nodes[0];
      assert n in nodes;
      TextsFrame(a, b, nodes[1..]);
    }
  }

  lemma {:induction false} TextsSnoc(a: map<Ptr, Message>, nodes: seq<Ptr>, n: Ptr)
    requires n in a
    ensures Texts(a, nodes + [n]) == Texts(a, nodes) + [a[n]]
  {
    if nodes != [] {
      assert (nodes + [n])[1..] == nodes[1..] + [n] && (nodes + [n])[0] == nodes[0];
      TextsSnoc(a, nodes[1..], n);
    }
  }

  lemma ListEnds(first: Ptr, last: Ptr, elements: nat, next: map<Ptr, Ptr>, messages: map<Ptr, Message>,
                 nodes: seq<Ptr>)
    requires Kept(first, last, elements, next, messages, nodes)
    ensures elements == |nodes| && (first == NULL <==> nodes == [])
    ensures nodes != [] ==> last in next && last != NULL && first in next && first in messages && first == nodes[0]
    ensures nodes != [] ==> (At(nodes, 1) == NULL <==> |nodes| == 1)
    ensures nodes != [] ==>
              next[first] == At(nodes, 1) && Texts(messages, nodes) == [messages[first]] + Texts(messages, nodes[1..])
  {
    assert Inside(0);
    if nodes != [] {
      assert Next(next, nodes, 0) && Next(next, nodes, |nodes| - 1) && Next(next, nodes, 1);
      var n := nodes[0];
      assert n in Elems(nodes);
    }
  }

  /** Memory with `node` linked behind the last node. */
  function Linked(next: map<Ptr, Ptr>, first: Ptr, last: Ptr, node: Ptr): map<Ptr, Ptr> {
    (if first == NULL then next else next[last := node])[node := NULL]
  }

  lemma Inserted(first: Ptr, last: Ptr, elements: nat, next: map<Ptr, Ptr>, messages: map<Ptr, Message>,
                 nodes: seq<Ptr>, node: Ptr, m: Message)
    requires Kept(first, last, elements, next, messages, nodes) && node != NULL && node !in next
    ensures Kept(if first == NULL then node else first, node, elements + 1, Linked(next, first, last, node),
                 messages[node := m], nodes + [node])
    ensures Texts(messages[node := m], nodes + [node]) == Texts(messages, nodes) + [m]
  {
    assert Inside(0);
    ListEnds(first, last, elements, next, messages, nodes);
    var ns, n' := nodes + [node], Linked(next, first, last, node);
    assert forall n :: n in nodes ==> n in Elems(nodes);
    NoDupSnoc(nodes, node);
    forall i ensures Next(n', ns, i) {
      assert Next(next, nodes, i);
      if 0 <= i < |nodes| - 1 { assert Pos(nodes, i, nodes[i]) && !Pos(nodes, |nodes| - 1, nodes[i]); }
    }
    if nodes != [] { assert last in Elems(nodes); }
    assert n'.Keys == next.Keys + {node};
    TextsSnoc(messages[node := m], nodes, node);
    TextsFrame(messages, messages[node := m], nodes);
  }

  lemma Removed(first: Ptr, last: Ptr, elements: nat, next: map<Ptr, Ptr>, messages: map<Ptr, Message>, nodes: seq<Ptr>)
    requires Kept(first, last, elements, next, messages, nodes) && nodes != []
    ensures Kept(At(nodes, 1), if |nodes| == 1 then NULL else last, |nodes| - 1, next - {first},
                 messages - {first}, nodes[1..])
    ensures Texts(messages - {first}, nodes[1..]) == Texts(messages, nodes[1..])
  {
    assert Inside(0);
    var rest := nodes[1..];
    NoDupTail(nodes);
    assert Elems(nodes) == {first} + Elems(rest) && first !in Elems(rest);
    forall i ensures Next(next - {first}, rest, i) {
      assert Next(next, nodes, i + 1);
      if 0 <= i < |rest| { var n := rest[i]; assert n in Elems(rest); }
    }
    assert forall n :: n in rest ==> n in Elems(rest);
    TextsFrame(messages, messages - {first}, rest);
  }

  class Queue {
    var first: Ptr
    var last: Ptr
    var elements: nat
    var next: map<Ptr, Ptr>
    var messages: map<Ptr, Message>
    const receivers: KQueue.Queue
    ghost var nodes: seq<Ptr>

    ghost predicate Valid()
      reads this, receivers
    {
      Kept(first, last, elements, next, messages, nodes) && receivers.Valid()
    }

    /** The queue's part of the protocol's state is this. */
    ghost predicate Shows(q: AQueue)
      reads this, receivers
    {
      q.messages == Contents() && q.receivers == receivers.Contents()
    }

    ghost function Contents(): seq<Message>
      reads this
    {
      Texts(messages, nodes)
    }

    /** An empty queue, in zeroed memory. */
    constructor ()
      ensures Valid() && Contents() == [] && receivers.Contents() == [] && fresh(receivers)
    {
      first, last, elements, next, messages, nodes := NULL, NULL, 0, map[], map[], [];
      receivers := new KQueue.Queue();
    }

    /** src/message.c:149-164 */
    method Insert(node: Ptr, m: Message)
      requires Valid() && node != NULL && node !in next
      modifies this`first, this`last, this`elements, this`next, this`messages, this`nodes
      ensures Valid() && Contents() == old(Contents()) + [m] && elements == old(elements) + 1
    {
      ListEnds(first, last, elements, next, messages, nodes);
      Inserted(first, last, elements, next, messages, nodes, node, m);
      messages := messages[node := m];
      if first != NULL {
        next := next[last := node];
        last := node;
      } else {
        first := node;
        last := node;
      }
      elements := elements + 1;
      next := next[node := NULL];
      nodes := nodes + [node];
    }

    /** src/message.c:166-182; the node is freed once its message has been copied. */
    method Remove() returns (found: bool, m: Message)
      requires Valid()
      modifies this`first, this`last, this`elements, this`next, this`messages, this`nodes
      ensures Valid() && (found <==> old(Contents()) != [])
      ensures found ==> old(Contents()) == [m] + Contents()
      ensures !found ==> Contents() == []
    {
      ListEnds(first, last, elements, next, messages, nodes);
      found, m := false, NOTHING;
      if first != NULL {
        Removed(first, last, elements, next, messages, nodes);
        var ret := first;
        first := next[first];
        if first == NULL {
          last := NULL;
        }
        elements := elements - 1;
        found, m := true, messages[ret];
        next, messages := next - {ret}, messages - {ret};
        nodes := nodes[1..];
        ListEnds(first, last, elements, next, messages, nodes);
      }
    }

    /** src/message.c:253-281; `node` is the address the slab allocator returned, and the woken
        thread, if any, is handed to the scheduler. */
    method MessageSendAsync(message: Message, node: Ptr) returns (sent: bool, woke: bool, thread: Ptr)
      requires Valid() && node != NULL && node !in next
      modifies this, receivers
      ensures Valid() && sent == (old(|Contents()|) < MAX_ELEMENTS)
      ensures Contents() == if sent then old(Contents()) + [message] else old(Contents())
      ensures woke <==> sent && old(receivers.Contents()) != []
      ensures old(receivers.Contents()) == if woke then [thread] + receivers.Contents() else receivers.Contents()
      ensures forall q: AQueue :: old(Shows(q)) ==>
                var r := SendAsync(q, message);
                && r.0 == sent && Shows(r.1)
                && r.1.woken == (if woke then q.woken + {thread} else q.woken)
    {
      ListEnds(first, last, elements, next, messages, nodes);
      woke, thread := false, NULL;
      if elements >= MAX_ELEMENTS {
        return false, false, NULL;
      }
      Insert(node, message);
      woke, thread := receivers.PopFront();
      return true, woke, thread;
    }

    /** src/message.c:283-314, from the label `retry` on; `node` is the address the slab allocator
        returns for the place in the queue of receivers. */
    method MessageReceiveAsync(cur: Ptr, block: bool, node: Ptr) returns (outcome: Outcome)
      requires Valid() && node != NULL && node !in receivers.links
      modifies this, receivers
      ensures Valid()
      ensures outcome.Got? <==> old(Contents()) != []
      ensures outcome.Got? ==> old(Contents()) == [outcome.message] + Contents()
      ensures !outcome.Got? ==> Contents() == [] && (outcome.Blocked? <==> block)
      ensures receivers.Contents() == old(receivers.Contents()) + if outcome.Blocked? then [cur] else []
      ensures forall q: AQueue :: old(Shows(q)) ==>
                var r := ReceiveAsync(q, cur, block);
                r.0 == outcome && Shows(r.1)
    {
      var found, m := Remove();
      if found {
        return Got(m);
      } else if block {
        receivers.PushBack(cur, node);
        return Blocked;
      }
      return Empty;
    }
  }
}
