/** Doubly linked lists in memory: the two link fields of every node, by address. */
module Chains {
  import opened Pointers

  datatype Links = Links(next: Ptr, prev: Ptr)

  type LinkMap = map<Ptr, Links>

  /** Element `i`, or NULL beyond either end. */
  function At(s: seq<Ptr>, i: int): Ptr {
    if 0 <= i < |s| then s[i] else NULL
  }

  ghost predicate Linked(m: LinkMap, nodes: seq<Ptr>, i: int) {
    0 <= i < |nodes| ==> nodes[i] != NULL && nodes[i] in m && m[nodes[i]] == Links(At(nodes, i + 1), At(nodes, i - 1))
  }

  /** `nodes` are linked up in both directions, and each is there once. */
  ghost predicate Chain(m: LinkMap, nodes: seq<Ptr>) {
    && NoDup(nodes)
    && forall i {:trigger Linked(m, nodes, i)} :: Linked(m, nodes, i)
  }

  /** Only the nodes' own links matter. */
  lemma ChainFrame(m: LinkMap, m': LinkMap, nodes: seq<Ptr>)
    requires Chain(m, nodes) && forall n :: n in nodes && n in m ==> n in m' && m'[n] == m[n]
    ensures Chain(m', nodes)
  {
    forall i ensures Linked(m', nodes, i) {
      assert Linked(m, nodes, i);
      if 0 <= i < |nodes| { var n := nodes[i]; assert n in nodes; }
    }
  }

  lemma NodesLinked(m: LinkMap, nodes: seq<Ptr>)
    requires Chain(m, nodes)
    ensures NULL !in nodes && forall n :: n in nodes ==> n in m
  {
    forall i | 0 <= i < |nodes| ensures nodes[i] != NULL && nodes[i] in m { assert Linked(m, nodes, i); }
  }

  lemma FirstLinked(m: LinkMap, nodes: seq<Ptr>)
    requires Chain(m, nodes) && nodes != []
    ensures nodes[0] != NULL && nodes[0] in m && m[nodes[0]] == Links(At(nodes, 1), NULL)
  {
    assert Linked(m, nodes, 0);
  }

  lemma LastLinked(m: LinkMap, nodes: seq<Ptr>)
    requires Chain(m, nodes) && nodes != []
    ensures var n := nodes[|nodes| - 1]; n != NULL && n in m && m[n] == Links(NULL, At(nodes, |nodes| - 2))
  {
    assert Linked(m, nodes, |nodes| - 1);
  }

  /** Memory with `node` in front of, or behind, the chain. */
  function Prepended(m: LinkMap, first: Ptr, node: Ptr): LinkMap {
    var m1 := m[node := Links(first, NULL)];
    if first in m1 && first != NULL then m1[first := m1[first].(prev := node)] else m1
  }

  function Appended(m: LinkMap, last: Ptr, node: Ptr): LinkMap {
    var m1 := m[node := Links(NULL, last)];
    if last in m1 && last != NULL then m1[last := m1[last].(next := node)] else m1
  }

  lemma PrependChain(m: LinkMap, nodes: seq<Ptr>, node: Ptr)
    requires Chain(m, nodes) && node != NULL && node !in nodes
    ensures Chain(Prepended(m, At(nodes, 0), node), [node] + nodes)
  {
    var m', ns := Prepended(m, At(nodes, 0), node), [node] + nodes;
    assert [] + [node] + nodes == ns && [] + nodes == nodes;
    NoDupInsert([], node, nodes);
    NodesLinked(m, nodes);
    forall i ensures Linked(m', ns, i) {
      assert Linked(m, nodes, i - 1);
      if 1 <= i < |ns| {
        assert ns[i] == nodes[i - 1];
        if i > 1 { assert Pos(nodes, 0, nodes[0]) && !Pos(nodes, i - 1, nodes[0]); }
      }
    }
  }

  lemma AppendChain(m: LinkMap, nodes: seq<Ptr>, node: Ptr)
    requires Chain(m, nodes) && node != NULL && node !in nodes
    ensures Chain(Appended(m, At(nodes, |nodes| - 1), node), nodes + [node])
  {
    var m', ns := Appended(m, At(nodes, |nodes| - 1), node), nodes + [node];
    assert nodes + [node] + [] == ns && nodes + [] == nodes;
    NoDupInsert(nodes, node, []);
    NodesLinked(m, nodes);
    forall i ensures Linked(m', ns, i) {
      assert Linked(m, nodes, i);
      if 0 <= i < |nodes| - 1 {
        assert Pos(nodes, |nodes| - 1, nodes[|nodes| - 1]) && !Pos(nodes, i, nodes[|nodes| - 1]);
      }
    }
  }

  /** Memory with the neighbours of `node` linked to each other. */
  function Bypassed(m: LinkMap, node: Ptr): LinkMap
    requires node in m
  {
    var l := m[node];
    var m1 := if l.prev != NULL && l.prev in m then m[l.prev := m[l.prev].(next := l.next)] else m;
    if l.next != NULL && l.next in m1 then m1[l.next := m1[l.next].(prev := l.prev)] else m1
  }

  lemma BypassChain(m: LinkMap, b: seq<Ptr>, node: Ptr, a: seq<Ptr>)
    requires Chain(m, b + [node] + a)
    ensures node in m && m[node] == Links(At(a, 0), At(b, |b| - 1))
    ensures node !in b && node !in a && Chain(Bypassed(m, node), b + a)
    ensures forall n :: n in m && n !in b && n !in a ==> n in Bypassed(m, node) && Bypassed(m, node)[n] == m[n]
  {
    var ns := b + [node] + a;
    var ms := b + a;
    NodesLinked(m, ns);
    NoDupRemove(b, node, a);
    assert Linked(m, ns, |b|);
    assert ns[|b|] == node;
    assert forall x :: x in b || x in a ==> x in Elems(ms);
    var m' := Bypassed(m, node);
    forall i ensures Linked(m', ms, i) {
      if 0 <= i < |ms| {
        var j := if i < |b| then i else i + 1;
        assert Linked(m, ns, j) && ns[j] == ms[i];
        assert i != |b| - 1 && |b| > 0 ==> Pos(ms, |b| - 1, b[|b| - 1]) && !Pos(ms, i, b[|b| - 1]);
        assert i != |b| && |a| > 0 ==> Pos(ms, |b|, a[0]) && !Pos(ms, i, a[0]);
      }
    }
  }
}
