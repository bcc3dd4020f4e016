/** An Andersson tree as the queue the scheduler uses it for: elements go in by key and come out
    at the front. */
module ThreadTree {
  import opened Pointers
  import opened AaShape
  import opened AaOrder
  import opened AndTree

  lemma {:induction false} FreshExists(s: set<Ptr>) returns (n: Ptr)
    ensures n > 0 && forall x :: x in s ==> x < n
    decreases s
  {
    if x :| x in s {
      n := FreshExists(s - {x});
      if n <= x { n := x + 1; }
      assert forall y :: y in s ==> y == x || y in s - {x};
    } else {
      n := 1;
    }
  }

  /** An address for a new tree node: what the slab allocator returns. */
  method SlabAlloc(tree: ATree) returns (node: Ptr)
    ensures node !in tree.mem && node != NULL
  {
    ghost var n := FreshExists(tree.mem.Keys);
    assert n !in tree.mem && n != NULL;
    node :| node !in tree.mem && node != NULL;
  }

  /** src/klib/andtree.c:155-157: the first node of a tree. */
  method Start(tree: ATree) returns (node: Ptr)
    requires tree.Linked()
    ensures node == NULL <==> tree.shape.Datas() == []
    ensures node != NULL ==>
              && node in tree.mem && tree.shape.Objs() != [] && tree.shape.Objs()[0] == node
              && tree.shape.Datas() != [] && tree.mem[node].data == tree.shape.Datas()[0]
  {
    ghost var rel, x;
    node, rel, x := tree.FindEnd(tree.root, Left, Top, tree.shape);
    if node != NULL {
      SpineStart(rel, x);
      Open(rel.Append(Top), x, tree.root, tree.nil, tree.mem);
    }
  }

  /** Taking the first node out of a tree takes the first element out. */
  method RemoveFirst(tree: ATree, node: Ptr, ghost data: Ptr)
    requires tree.Valid() && tree.shape.Objs() != [] && tree.shape.Objs()[0] == node
    requires node in tree.mem && tree.mem[node].data == data
    modifies tree
    ensures tree.Valid() && old(tree.shape.Datas()) == [data] + tree.shape.Datas()
  {
    ghost var s := tree.shape.Objs();
    ghost var o := s[0];
    assert o in s;
    ghost var b, a, freed, j := tree.Remove(node);
    assert Pos(s, 0, node) && Pos(s, |b|, node);
    assert b == [];
  }

  class Queue {
    const tree: ATree
    ghost var items: seq<Ptr>

    /** The tree is valid and holds `items`.  Stated for every `z` with Inside(z), so that a proof
        looks into the tree only where it names one. */
    ghost predicate Valid()
      reads this, tree
    {
      forall z {:trigger Inside(z)} :: Inside(z) ==> tree.Valid() && items == tree.shape.Datas()
    }

    constructor (sentinel: Ptr)
      requires sentinel != NULL
      ensures Valid() && items == [] && fresh(tree)
    {
      tree := new ATree(sentinel);
      items := [];
    }

    /** Put in an element, behind those with the same key if the keys are in order. */
    method Insert(t: Ptr, key: Key)
      requires Valid()
      modifies this, tree
      ensures Valid() && multiset(items) == multiset(old(items)) + multiset{t}
      ensures Sorted(old(items), key) && AllFit(old(items), key, key(t)) ==> items == StableInsert(old(items), t, key)
    {
      assert Inside(0);
      var node := SlabAlloc(tree);
      ghost var b, a := tree.Insert(t, node, key);
      items := b + [t] + a;
    }

    /** `node` is the first node of the tree. */
    ghost predicate Front(node: Ptr)
      reads this, tree
    {
      && items != [] && node in tree.mem && tree.mem[node].data == items[0]
      && tree.shape.Objs() != [] && tree.shape.Objs()[0] == node
    }

    /** The first element, or NULL. */
    method First() returns (t: Ptr, node: Ptr)
      requires Valid() && NULL !in items
      ensures t == if items == [] then NULL else items[0]
      ensures items != [] ==> Front(node)
    {
      assert Inside(0);
      node := Start(tree);
      t := NULL;
      if node != NULL {
        t := tree.mem[node].data;
      }
    }

    /** Take out the first element, held by `node`. */
    method Pop(node: Ptr)
      requires Valid() && Front(node)
      modifies this, tree
      ensures Valid() && items == old(items)[1..]
    {
      assert Inside(0);
      RemoveFirst(tree, node, items[0]);
      items := items[1..];
    }
  }
}
