/** The doubly linked queue of src/klib/queue.c.  Node memory is kept by field: the links and the
    data of every node, by address; popping a node frees it. */
module KQueue {
  import opened Pointers
  import opened Chains

  /** The elements that the nodes hold. */
  function Datas(data: map<Ptr, Ptr>, nodes: seq<Ptr>): seq<Ptr> {
    if nodes == [] then []
    else [if nodes[0] in data then data[nodes[0]] else NULL] + Datas(data, nodes[1..])
  }

  lemma {:induction false} DatasFrame(d: map<Ptr, Ptr>, d': map<Ptr, Ptr>, nodes: seq<Ptr>)
    requires forall n :: n in nodes ==> n in d && n in d' && d[n] == d'[n]
    ensures Datas(d, nodes) == Datas(d', nodes)
  {
    if nodes != [] {
      var n := nodes[0];
      assert n in nodes;
      DatasFrame(d, d', nodes[1..]);
    }
  }

  lemma {:induction false} DatasConcat(d: map<Ptr, Ptr>, a: seq<Ptr>, b: seq<Ptr>)
    ensures Datas(d, a + b) == Datas(d, a) + Datas(d, b)
  {
    if a == [] {
      assert a + b == b;
    } else {
      assert (a + b)[1..] == a[1..] + b && (a + b)[0] == a[0];
      DatasConcat(d, a[1..], b);
    }
  }

  /** The queue `nodes` in memory, and nothing else. */
  ghost predicate Holds(front: Ptr, back: Ptr, items: nat, links: LinkMap, data: map<Ptr, Ptr>, nodes: seq<Ptr>) {
    && Chain(links, nodes)
    && links.Keys == Elems(nodes) && data.Keys == Elems(nodes)
    && front == At(nodes, 0) && back == At(nodes, |nodes| - 1)
    && items == |nodes|
  }

  /** The same, looked into only where a proof says so. */
  ghost predicate Kept(front: Ptr, back: Ptr, items: nat, links: LinkMap, data: map<Ptr, Ptr>, nodes: seq<Ptr>) {
    forall z {:trigger Inside(z)} :: Inside(z) ==> Holds(front, back, items, links, data, nodes)
  }

  /** The pointers at the ends. */
  lemma Ends(front: Ptr, back: Ptr, items: nat, links: LinkMap, data: map<Ptr, Ptr>, nodes: seq<Ptr>)
    requires Kept(front, back, items, links, data, nodes)
    ensures front == At(nodes, 0) && back == At(nodes, |nodes| - 1) && items == |nodes|
    ensures front == NULL <==> nodes == []
    ensures back == NULL <==> nodes == []
    ensures nodes != [] ==> front in links && back in links && front in data && back in data
    ensures nodes != [] ==>
              links[front] == Links(At(nodes, 1), NULL) && links[back] == Links(NULL, At(nodes, |nodes| - 2))
    ensures |nodes| > 1 ==>
              nodes[1] in links && nodes[1] != NULL && nodes[|nodes| - 2] in links && nodes[|nodes| - 2] != NULL
    ensures NULL !in links
  {
    assert Inside(0);
    NodesLinked(links, nodes);
    if nodes != [] {
      FirstLinked(links, nodes);
      LastLinked(links, nodes);
      var f, b := nodes[0], nodes[|nodes| - 1];
      assert f in nodes && b in nodes;
    }
    if |nodes| > 1 {
      var f, b := nodes[1], nodes[|nodes| - 2];
      assert f in nodes && b in nodes;
    }
  }

  lemma PushedFront(front: Ptr, back: Ptr, items: nat, links: LinkMap, data: map<Ptr, Ptr>, nodes: seq<Ptr>,
                    node: Ptr, e: Ptr)
    requires Kept(front, back, items, links, data, nodes) && node != NULL && node !in links
    ensures Kept(node, if nodes == [] then node else back, items + 1, Prepended(links, front, node),
                 data[node := e], [node] + nodes)
    ensures Datas(data[node := e], [node] + nodes) == [e] + Datas(data, nodes)
  {
    assert Inside(0);
    PrependChain(links, nodes, node);
    NodesLinked(links, nodes);
    assert Elems([node] + nodes) == {node} + Elems(nodes);
    assert Prepended(links, front, node).Keys == links.Keys + {node};
    DatasConcat(data[node := e], [node], nodes);
    DatasFrame(data, data[node := e], nodes);
  }

  lemma PushedBack(front: Ptr, back: Ptr, items: nat, links: LinkMap, data: map<Ptr, Ptr>, nodes: seq<Ptr>, node: Ptr,
                   e: Ptr)
    requires Kept(front, back, items, links, data, nodes) && node != NULL && node !in links
    ensures Kept(if nodes == [] then node else front, node, items + 1, Appended(links, back, node),
                 data[node := e], nodes + [node])
    ensures Datas(data[node := e], nodes + [node]) == Datas(data, nodes) + [e]
  {
    assert Inside(0);
    AppendChain(links, nodes, node);
    NodesLinked(links, nodes);
    assert Elems(nodes + [node]) == {node} + Elems(nodes);
    assert Appended(links, back, node).Keys == links.Keys + {node};
    DatasConcat(data[node := e], nodes, [node]);
    DatasFrame(data, data[node := e], nodes);
  }

  /** A node taken out and freed. */
  lemma Popped(links: LinkMap, data: map<Ptr, Ptr>, b: seq<Ptr>, node: Ptr, a: seq<Ptr>)
    requires Chain(links, b + [node] + a) && links.Keys == Elems(b + [node] + a) && data.Keys == links.Keys
    ensures node in links && Chain(Bypassed(links, node) - {node}, b + a)
    ensures Bypassed(links, node).Keys - {node} == Elems(b + a) && data.Keys - {node} == Elems(b + a)
    ensures Datas(data - {node}, b + a) == Datas(data, b + a)
  {
    NodesLinked(links, b + [node] + a);
    BypassChain(links, b, node, a);
    NoDupRemove(b, node, a);
    ChainFrame(Bypassed(links, node), Bypassed(links, node) - {node}, b + a);
    assert Bypassed(links, node).Keys == links.Keys;
    DatasFrame(data, data - {node}, b + a);
  }

  lemma PoppedFront(front: Ptr, back: Ptr, items: nat, links: LinkMap, data: map<Ptr, Ptr>, nodes: seq<Ptr>)
    requires Kept(front, back, items, links, data, nodes) && nodes != [] && front in links
    ensures Kept(At(nodes, 1), if |nodes| == 1 then NULL else back, |nodes| - 1,
                 Bypassed(links, front) - {front}, data - {front}, nodes[1..])
    ensures front in data && Datas(data, nodes) == [data[front]] + Datas(data - {front}, nodes[1..])
  {
    assert Inside(0);
    var rest := nodes[1..];
    assert nodes == [] + [front] + rest && [] + rest == rest;
    Popped(links, data, [], front, rest);
    var f := front;
    assert f in nodes;
  }

  lemma PoppedBack(front: Ptr, back: Ptr, items: nat, links: LinkMap, data: map<Ptr, Ptr>, nodes: seq<Ptr>)
    requires Kept(front, back, items, links, data, nodes) && nodes != [] && back in links
    ensures Kept(if |nodes| == 1 then NULL else front, At(nodes, |nodes| - 2), |nodes| - 1,
                 Bypassed(links, back) - {back}, data - {back},
                 nodes[..|nodes| - 1])
    ensures back in data && Datas(data, nodes) == Datas(data - {back}, nodes[..|nodes| - 1]) + [data[back]]
  {
    assert Inside(0);
    var rest := nodes[..|nodes| - 1];
    var f := back;
    assert f in nodes;
    assert Datas(data, nodes) == Datas(data, rest) + [data[back]] by {
      assert nodes == rest + [back];
      DatasConcat(data, rest, [back]);
    }
    assert nodes == rest + [back] + [] && rest + [] == rest;
    Popped(links, data, rest, back, []);
    assert back == nodes[|nodes| - 1] && At(rest, |rest| - 1) == At(nodes, |nodes| - 2);
  }

  class Queue {
    var front: Ptr
    var back: Ptr
    var items: nat
    var links: LinkMap
    var data: map<Ptr, Ptr>
    ghost var nodes: seq<Ptr>

    ghost predicate Valid()
      reads this
    {
      Kept(front, back, items, links, data, nodes)
    }

    ghost function Contents(): seq<Ptr>
      reads this
    {
      Datas(data, nodes)
    }

    /** src/klib/queue.c:20-23 */
    constructor ()
      ensures Valid() && Contents() == []
    {
      front, back, items, links, data, nodes := NULL, NULL, 0, map[], map[], [];
    }

    /** src/klib/queue.c:43-56; `node` is the address the slab allocator returned. */
    method PushFront(element: Ptr, node: Ptr)
      requires Valid() && node != NULL && node !in links
      modifies this
      ensures Valid() && Contents() == [element] + old(Contents()) && items == old(items) + 1
    {
      Ends(front, back, items, links, data, nodes);
      PushedFront(front, back, items, links, data, nodes, node, element);
      links, data := links[node := Links(front, NULL)], data[node := element];
      front := node;
      items := items + 1;
      if back == NULL {
        back := node;
      } else {
        var next := links[node].next;
        links := links[next := links[next].(prev := node)];
      }
      nodes := [node] + nodes;
    }

    /** src/klib/queue.c:58-71 */
    method PushBack(element: Ptr, node: Ptr)
      requires Valid() && node != NULL && node !in links
      modifies this
      ensures Valid() && Contents() == old(Contents()) + [element] && items == old(items) + 1
    {
      Ends(front, back, items, links, data, nodes);
      PushedBack(front, back, items, links, data, nodes, node, element);
      links, data := links[node := Links(NULL, back)], data[node := element];
      back := node;
      items := items + 1;
      if front == NULL {
        front := node;
      } else {
        var prev := links[node].prev;
        links := links[prev := links[prev].(next := node)];
      }
      nodes := nodes + [node];
    }

    /** src/klib/queue.c:73-95: nothing if the queue is empty, else its first element. */
    method PopFront() returns (found: bool, element: Ptr)
      requires Valid()
      modifies this
      ensures Valid() && (found <==> old(nodes) != [])
      ensures found ==> old(Contents()) == [element] + Contents() && items == old(items) - 1
      ensures !found ==> old(Contents()) == Contents() == [] && element == NULL
    {
      Ends(front, back, items, links, data, nodes);
      var node := front;
      if node == NULL {
        return false, NULL;
      }
      PoppedFront(front, back, items, links, data, nodes);
      var next := links[node].next;
      front := next;
      items := items - 1;
      if front == NULL {
        back := NULL;
      } else {
        links := links[next := links[next].(prev := NULL)];
      }
      found, element := true, data[node];
      links, data := links - {node}, data - {node};
      nodes := nodes[1..];
    }

    /** src/klib/queue.c:97-119: nothing if the queue is empty, else its last element. */
    method PopBack() returns (found: bool, element: Ptr)
      requires Valid()
      modifies this
      ensures Valid() && (found <==> old(nodes) != [])
      ensures found ==> old(Contents()) == Contents() + [element] && items == old(items) - 1
      ensures !found ==> old(Contents()) == Contents() == [] && element == NULL
    {
      Ends(front, back, items, links, data, nodes);
      var node := back;
      if node == NULL {
        return false, NULL;
      }
      PoppedBack(front, back, items, links, data, nodes);
      var prev := links[node].prev;
      back := prev;
      items := items - 1;
      if back == NULL {
        front := NULL;
      } else {
        links := links[prev := links[prev].(next := NULL)];
      }
      found, element := true, data[node];
      links, data := links - {node}, data - {node};
      nodes := nodes[..|nodes| - 1];
    }
  }
}
