/** Searching, walking and checking an Andersson tree, and how deep one can be
    (src/klib/andtree.c:42-202, 292-300, 443-465, 515-562). */
module AndTreeSearch {
  import opened Pointers
  import opened Powers
  import opened AaShape
  import opened AaOrder
  import opened AndTree

  // ---------------------------------------------------------------- depth

  /** A valid tree of level `k` has at least `2^k - 1` nodes. */
  lemma {:induction false} MinSize(t: Shape)
    requires t.AA()
    ensures Pow2(t.Level()) <= t.Size() + 1
  {
    if t.Node? {
      MinSize(t.left);
      MinSize(t.right);
      assert Pow2(t.level) == 2 * Pow2(t.level - 1);
    }
  }

  /** A valid tree of level `k` has no path longer than `2k`. */
  lemma {:induction false} MaxHeight(t: Shape)
    requires t.AA()
    ensures t.Height() <= 2 * t.Level()
    ensures t.RightLevel() < t.Level() ==> t.Height() <= 2 * t.Level() - 1
  {
    if t.Node? {
      MaxHeight(t.left);
      MaxHeight(t.right);
    }
  }

  // ---------------------------------------------------------------- search

  /** No comparison overflows, and the elements are in the order of their keys. */
  ghost predicate Searchable(t: Shape, getKey: Key, k: int) {
    Sorted(t.Datas(), getKey) && AllFit(t.Datas(), getKey, k)
  }

  lemma SearchableParts(t: Shape, getKey: Key, k: int)
    requires t.Node? && Searchable(t, getKey, k)
    ensures Searchable(t.left, getKey, k) && Searchable(t.right, getKey, k)
    ensures forall x :: x in t.left.Datas() ==> getKey(x) <= getKey(t.data)
    ensures forall x :: x in t.right.Datas() ==> getKey(t.data) <= getKey(x)
    ensures Fits(k, getKey(t.data))
    ensures forall x :: x in t.Datas() <==> x in t.left.Datas() || x == t.data || x in t.right.Datas()
  {
    SortedNode(t, getKey);
    var d := t.data;
    assert d in t.Datas();
  }

  ghost predicate HasKey(t: Shape, getKey: Key, k: int) {
    exists x :: x in t.Datas() && getKey(x) == k
  }

  /** A key that is not at the top of a sorted tree is on the side its difference points to. */
  lemma Narrow(t: Shape, getKey: Key, k: int)
    requires t.Node? && Searchable(t, getKey, k) && Diff64(k, getKey(t.data)) != 0
    ensures var u := if Diff64(k, getKey(t.data)) <= 0 then t.left else t.right;
            Searchable(u, getKey, k) && (HasKey(t, getKey, k) <==> HasKey(u, getKey, k))
  {
    SearchableParts(t, getKey, k);
  }

  /** src/klib/andtree.c:62-76 */
  method FindKey(tree: ATree, key: int, getKey: Key) returns (node: Ptr, ghost steps: nat)
    requires tree.Valid() && Searchable(tree.shape, getKey, key)
    ensures node == NULL <==> !HasKey(tree.shape, getKey, key)
    ensures node != NULL ==>
              && node in tree.shape.ObjSet() && tree.mem[node].data in tree.shape.Datas()
              && getKey(tree.mem[node].data) == key
    ensures steps <= tree.shape.Height() && Pow2((steps + 1) / 2) <= tree.nodes + 1
  {
    ghost var c, t := Top, tree.shape;
    var temp := tree.root;
    steps := 0;
    Open(c, t, tree.root, tree.nil, tree.mem);
    while tree.mem[temp].level != 0
      invariant tree.shape == c.Plug(t) && temp == At(t, tree.nil)
      invariant temp in tree.mem && tree.mem[temp].level == t.Level() && (t.Nil? <==> t.Level() == 0)
      invariant Searchable(t, getKey, key)
      invariant HasKey(tree.shape, getKey, key) <==> HasKey(t, getKey, key)
      invariant steps + t.Height() <= tree.shape.Height()
      decreases t
    {
      Open(c, t, tree.root, tree.nil, tree.mem);
      var diff := Diff64(key, getKey(tree.mem[temp].data));
      if diff == 0 {
        SearchableParts(t, getKey, key);
        NodesNotNull(c, t, tree.root, tree.nil, tree.mem);
        NodeIn(c, t);
        DepthBound(tree, steps);
        return temp, steps;
      }
      Narrow(t, getKey, key);
      var dir := if diff <= 0 then Left else Right;
      temp := tree.mem[temp].Leaf(dir);
      c, t := Down(c, t, dir), if dir == Left then t.left else t.right;
      Open(c, t, tree.root, tree.nil, tree.mem);
      steps := steps + 1;
    }
    DepthBound(tree, steps);
    node := NULL;
  }

  lemma NodeIn(c: Ctx, t: Shape)
    requires t.Node?
    ensures t.obj in c.Plug(t).ObjSet() && t.data in c.Plug(t).Datas()
  {
    PlugObjs(c, t);
    PlugDatas(c, t);
    var o, d := t.obj, t.data;
    assert o in t.Objs() && d in t.Datas();
  }

  /** A descent of at most the height takes at most `2 log2(n + 1)` steps. */
  lemma DepthBound(tree: ATree, steps: nat)
    requires tree.Valid() && steps <= tree.shape.Height()
    ensures Pow2((steps + 1) / 2) <= tree.nodes + 1
  {
    MinSize(tree.shape);
    MaxHeight(tree.shape);
    Pow2Monotone((steps + 1) / 2, tree.shape.Level());
  }

  /** The number of nodes above a place in a tree. */
  ghost function Depth(c: Ctx): nat {
    if c.Top? then 0 else 1 + Depth(c.up)
  }

  lemma {:induction false} DepthInHeight(c: Ctx, t: Shape)
    ensures Depth(c) + t.Height() <= c.Plug(t).Height()
    decreases c
  {
    if c.In? { DepthInHeight(c.up, c.frame.Fill(t)); }
  }

  /** Every descent, to insert, to find the first or the last node or to remove, passes at most
      2 * log2(nodes + 1) nodes. */
  lemma DescentBound(tree: ATree, c: Ctx, t: Shape)
    requires tree.Valid() && tree.shape == c.Plug(t)
    ensures Pow2((Depth(c) + 1) / 2) <= tree.nodes + 1
  {
    DepthInHeight(c, t);
    DepthBound(tree, Depth(c));
  }

  /** src/klib/andtree.c:125-153: a least key not below `key`. */
  method FindAtLeast(tree: ATree, at: Ptr, key: int, getKey: Key, ghost c: Ctx, ghost t: Shape) returns (node: Ptr)
    requires tree.Linked() && tree.shape == c.Plug(t) && at == At(t, tree.nil) && Searchable(t, getKey, key)
    ensures node == NULL <==> forall x :: x in t.Datas() ==> getKey(x) < key
    ensures node != NULL ==>
              && node in tree.shape.ObjSet() && node in tree.mem && tree.mem[node].data in t.Datas()
              && key <= getKey(tree.mem[node].data)
              && forall x :: x in t.Datas() && key <= getKey(x) ==> getKey(tree.mem[node].data) <= getKey(x)
    decreases t
  {
    Open(c, t, tree.root, tree.nil, tree.mem);
    if tree.mem[at].level == 0 {
      return NULL;
    }
    SearchableParts(t, getKey, key);
    NodesNotNull(c, t, tree.root, tree.nil, tree.mem);
    NodeIn(c, t);
    var diff := Diff64(key, getKey(tree.mem[at].data));
    if diff == 0 {
      return at;
    }
    var dir := if diff <= 0 then Left else Right;
    ghost var below := if dir == Left then t.left else t.right;
    var temp := FindAtLeast(tree, tree.mem[at].Leaf(dir), key, getKey, Down(c, t, dir), below);
    if diff < 0 {
      if temp != NULL && Diff64(key, getKey(tree.mem[temp].data)) > diff {
        return temp;
      }
      return at;
    }
    return temp;
  }

  /** src/klib/andtree.c:78-107: search for an element among others with its key, on both sides. */
  method FindDupeData(tree: ATree, at: Ptr, data: Ptr, getKey: Key, ghost c: Ctx, ghost t: Shape) returns (node: Ptr)
    requires tree.Linked() && tree.shape == c.Plug(t) && at == At(t, tree.nil) && Searchable(t, getKey, getKey(data))
    ensures node == NULL <==> data !in t.Datas()
    ensures node != NULL ==> node in tree.shape.ObjSet() && node in tree.mem && tree.mem[node].data == data
    decreases t
  {
    Open(c, t, tree.root, tree.nil, tree.mem);
    if tree.mem[at].level == 0 {
      return NULL;
    }
    SearchableParts(t, getKey, getKey(data));
    NodesNotNull(c, t, tree.root, tree.nil, tree.mem);
    NodeIn(c, t);
    if tree.mem[at].data == data {
      return at;
    }
    var diff := Diff64(getKey(data), getKey(tree.mem[at].data));
    if diff == 0 {
      node := FindDupeData(tree, tree.mem[at].left, data, getKey, Down(c, t, Left), t.left);
      if node != NULL {
        return;
      }
      node := FindDupeData(tree, tree.mem[at].right, data, getKey, Down(c, t, Right), t.right);
      if node != NULL {
        return;
      }
    }
    var dir := if diff <= 0 then Left else Right;
    ghost var below := if dir == Left then t.left else t.right;
    node := FindDupeData(tree, tree.mem[at].Leaf(dir), data, getKey, Down(c, t, dir), below);
  }

  /** src/klib/andtree.c:109-123 */
  method FindData(tree: ATree, data: Ptr, getKey: Key) returns (node: Ptr)
    requires tree.Linked() && Searchable(tree.shape, getKey, getKey(data))
    ensures node == NULL <==> data !in tree.shape.Datas()
    ensures node != NULL ==> node in tree.shape.ObjSet() && node in tree.mem && tree.mem[node].data == data
  {
    ghost var c, t := Top, tree.shape;
    var temp := tree.root;
    Open(c, t, tree.root, tree.nil, tree.mem);
    while tree.mem[temp].level != 0
      invariant tree.shape == c.Plug(t) && temp == At(t, tree.nil)
      invariant temp in tree.mem && tree.mem[temp].level == t.Level() && (t.Nil? <==> t.Level() == 0)
      invariant Searchable(t, getKey, getKey(data))
      invariant data in tree.shape.Datas() <==> data in t.Datas()
      decreases t
    {
      Open(c, t, tree.root, tree.nil, tree.mem);
      SearchableParts(t, getKey, getKey(data));
      var diff := Diff64(getKey(data), getKey(tree.mem[temp].data));
      if diff == 0 {
        node := FindDupeData(tree, temp, data, getKey, c, t);
        return;
      }
      var dir := if diff <= 0 then Left else Right;
      temp := tree.mem[temp].Leaf(dir);
      c, t := Down(c, t, dir), if dir == Left then t.left else t.right;
      Open(c, t, tree.root, tree.nil, tree.mem);
    }
    node := NULL;
  }

  // ---------------------------------------------------------------- walking

  /** The neighbours of the nodes of a tree, by path: the node after `t` is the first of its right
      subtree, or else the first after the hole. */
  lemma NeighbourPos(c: Ctx, t: Shape, i: nat)
    requires t.Node? && NoDup(c.Plug(t).Objs()) && i < |c.Plug(t).Objs()| && c.Plug(t).Objs()[i] == t.obj
    ensures var s := c.Plug(t).Objs();
            && i == |c.ObjsBefore() + t.left.Objs()|
            && s[i + 1..] == t.right.Objs() + c.ObjsAfter()
            && s[..i] == c.ObjsBefore() + t.left.Objs()
  {
    var s := c.Plug(t).Objs();
    PlugNode(c, t);
    var b := c.ObjsBefore() + t.left.Objs();
    assert Pos(s, |b|, t.obj) && Pos(s, i, t.obj);
  }

  lemma Beside(s: seq<Ptr>, i: nat, r: seq<Ptr>, a: seq<Ptr>, b: seq<Ptr>, l: seq<Ptr>)
    requires i < |s| && s[i + 1..] == r + a && s[..i] == b + l
    ensures if |r| > 0 then i + 1 < |s| && s[i + 1] == r[0]
            else if |a| > 0 then i + 1 < |s| && s[i + 1] == a[0]
            else i + 1 == |s|
    ensures if |l| > 0 then i > 0 && s[i - 1] == l[|l| - 1]
            else if |b| > 0 then i > 0 && s[i - 1] == b[|b| - 1]
            else i == 0
  {
    assert i + 1 < |s| ==> s[i + 1] == (r + a)[0];
    assert i > 0 ==> s[i - 1] == (b + l)[i - 1];
  }

  lemma NeighbourIs(c: Ctx, t: Shape, i: nat)
    requires t.Node? && NoDup(c.Plug(t).Objs()) && i < |c.Plug(t).Objs()| && c.Plug(t).Objs()[i] == t.obj
    ensures var s, r, a := c.Plug(t).Objs(), t.right.Objs(), c.ObjsAfter();
            if |r| > 0 then i + 1 < |s| && s[i + 1] == r[0]
            else if |a| > 0 then i + 1 < |s| && s[i + 1] == a[0]
            else i + 1 == |s|
    ensures var s, l, b := c.Plug(t).Objs(), t.left.Objs(), c.ObjsBefore();
            if |l| > 0 then i > 0 && s[i - 1] == l[|l| - 1]
            else if |b| > 0 then i > 0 && s[i - 1] == b[|b| - 1]
            else i == 0
  {
    NeighbourPos(c, t, i);
    Beside(c.Plug(t).Objs(), i, t.right.Objs(), c.ObjsAfter(), c.ObjsBefore(), t.left.Objs());
  }

  /** src/klib/andtree.c:163-202: the next (Right) or the previous (Left) node in order. */
  method Neighbour(tree: ATree, node: Ptr, dir: Dir, ghost i: nat) returns (r: Ptr)
    requires tree.Linked() && i < |tree.shape.Objs()| && tree.shape.Objs()[i] == node
    ensures dir == Right ==> r == if i + 1 < |tree.shape.Objs()| then tree.shape.Objs()[i + 1] else NULL
    ensures dir == Left ==> r == if i > 0 then tree.shape.Objs()[i - 1] else NULL
  {
    ghost var s := tree.shape.Objs();
    ghost var o := s[i];
    assert o in s;
    ghost var c, t := Locate(Top, tree.shape, node);
    Open(c, t, tree.root, tree.nil, tree.mem);
    NeighbourIs(c, t, i);
    var near;
    ghost var rel, x;
    ghost var below := if dir == Left then t.left else t.right;
    near, rel, x := tree.FindEnd(tree.mem[node].Leaf(dir), Other(dir), Down(c, t, dir), below);
    if near != NULL {
      if dir == Right { SpineFirst(rel, x); } else { SpineLast(rel, x); }
      return near;
    }
    r := Climb(tree, node, dir, c, t);
  }

  lemma SpineFirst(rel: Ctx, x: Shape)
    requires Spine(rel, Left) && x.Node? && x.left.Nil?
    ensures |rel.Plug(x).Objs()| > 0 && rel.Plug(x).Objs()[0] == x.obj
  {
    SpineStart(rel, x);
  }

  lemma SpineLast(rel: Ctx, x: Shape)
    requires Spine(rel, Right) && x.Node? && x.right.Nil?
    ensures var s := rel.Plug(x).Objs(); |s| > 0 && s[|s| - 1] == x.obj
  {
    SpineOrder(rel, Right);
    PlugObjs(rel, x);
  }

  /** Go up as long as one comes from the `dir` side. */
  method Climb(tree: ATree, node: Ptr, dir: Dir, ghost c0: Ctx, ghost t0: Shape) returns (p: Ptr)
    requires tree.Linked() && tree.shape == c0.Plug(t0) && t0.Node? && node == t0.obj
    ensures dir == Right ==> p == if c0.ObjsAfter() == [] then NULL else c0.ObjsAfter()[0]
    ensures dir == Left ==> p == if c0.ObjsBefore() == [] then NULL else c0.ObjsBefore()[|c0.ObjsBefore()| - 1]
  {
    ghost var c, t := c0, t0;
    var last := node;
    Open(c, t, tree.root, tree.nil, tree.mem);
    p := tree.mem[node].parent;
    ClimbLocal(c, t, tree.root, tree.nil, tree.mem);
    while p != NULL && tree.mem[p].level != 0 && tree.mem[p].Leaf(dir) == last
      invariant tree.shape == c.Plug(t) && t.Node? && last == t.obj && p == HolePar(c)
      invariant c.Top? ==> p == NULL
      invariant c.In? ==> p != NULL && p in tree.mem && tree.mem[p].level != 0
                          && (tree.mem[p].Leaf(dir) == last <==> c.frame.dir == dir)
      invariant dir == Right ==> c.ObjsAfter() == c0.ObjsAfter()
      invariant dir == Left ==> c.ObjsBefore() == c0.ObjsBefore()
      decreases c
    {
      last := p;
      p := tree.mem[p].parent;
      t := c.frame.Fill(t);
      c := c.up;
      Open(c, t, tree.root, tree.nil, tree.mem);
      ClimbLocal(c, t, tree.root, tree.nil, tree.mem);
    }
  }

  lemma ClimbLocal(c: Ctx, t: Shape, root: Ptr, nil: Ptr, m: Memory)
    requires Formed(c.Plug(t), root, nil, m) && t.Node?
    ensures c.Top? ==> HolePar(c) == NULL
    ensures c.In? ==>
              var p := HolePar(c);
              && p != NULL && p in m && m[p].level != 0
              && m[p].Leaf(c.frame.dir) == t.obj && m[p].Leaf(Other(c.frame.dir)) != t.obj
  {
    OpenParent(c, t, root, nil, m);
    DetachLocal(c, t, root, nil, m);
  }

  /** Repeated `next` from `start` visits every node once, in order (src/klib/andtree.c:155-182). */
  method Enumerate(tree: ATree) returns (visited: seq<Ptr>)
    requires tree.Linked()
    ensures visited == tree.shape.Objs()
  {
    ghost var s := tree.shape.Objs();
    ghost var rel, x;
    var node;
    node, rel, x := tree.FindEnd(tree.root, Left, Top, tree.shape);
    if node != NULL { SpineFirst(rel, x); }
    visited := [];
    assert forall i :: 0 <= i < |s| ==> s[i] != NULL by {
      forall i | 0 <= i < |s| ensures s[i] != NULL { var o := s[i]; assert o in s; }
    }
    while node != NULL
      invariant |visited| <= |s| && visited == s[..|visited|]
      invariant node == if |visited| < |s| then s[|visited|] else NULL
      decreases |s| - |visited|
    {
      ghost var i := |visited|;
      visited := visited + [node];
      node := Neighbour(tree, node, Right, i);
    }
  }

  // ---------------------------------------------------------------- checking

  /** What the tests of check_tree say of the levels in a tree (src/klib/andtree.c:515-558). */
  predicate Checked(t: Shape) {
    t.Node? ==>
      && Checked(t.left) && Checked(t.right)
      && (t.level > 1 ==>
            && (t.left.Node? || t.right.Node?)
            && (t.left.Node? ==> t.level - 1 <= t.left.level <= t.level)
            && (t.right.Node? ==> t.level - 1 <= t.right.level <= t.level))
      && t.left.Level() != t.level
      && t.right.RightLevel() != t.level
  }

  /** What check_tree does not test: that a node above level 1 has both children, and that the
      children of a node at level 1 are not above it. */
  predicate Unchecked(t: Shape) {
    t.Node? ==>
      && Unchecked(t.left) && Unchecked(t.right)
      && t.level > 0
      && (t.level > 1 ==> t.left.Node? && t.right.Node?)
      && (t.level == 1 ==> t.left.Nil? && t.right.Level() <= 1)
  }

  lemma {:induction false} CheckExact(t: Shape)
    ensures t.AA() <==> Checked(t) && Unchecked(t)
  {
    if t.Node? {
      CheckExact(t.left);
      CheckExact(t.right);
    }
  }

  /** A tree with a level 2 node without left child passes check_tree. */
  lemma CheckIncomplete()
    ensures exists t: Shape :: Checked(t) && !t.AA()
  {
    var t := Node(2, 2, 0, Nil, Node(3, 1, 0, Nil, Nil));
    assert Checked(t.right) && Checked(t) && !t.AA();
  }

  /** src/klib/andtree.c:515-562 */
  method Check(tree: ATree, at: Ptr, ghost c: Ctx, ghost t: Shape) returns (valid: bool)
    requires tree.Linked() && tree.shape == c.Plug(t) && at == At(t, tree.nil)
    ensures valid <==> Checked(t)
    ensures t.AA() ==> valid
    decreases t
  {
    CheckExact(t);
    Open(c, t, tree.root, tree.nil, tree.mem);
    if tree.mem[at].level == 0 {
      return true;
    }
    var here := tree.mem[at];
    var left := Check(tree, here.left, Down(c, t, Left), t.left);
    var right := Check(tree, here.right, Down(c, t, Right), t.right);
    valid := left && right;
    var l, r := tree.mem[here.left], tree.mem[here.right];
    if here.level > 1 {
      if l.level == 0 && r.level == 0 {
        valid := false;
      }
      if l.level != 0 && (l.level < here.level - 1 || here.level < l.level) {
        valid := false;
      }
      if r.level != 0 && (r.level < here.level - 1 || here.level < r.level) {
        valid := false;
      }
    }
    if l.level == here.level {
      valid := false;
    }
    if tree.mem[r.right].level == here.level {
      valid := false;
    }
  }

  /** src/klib/andtree.c:292-300 */
  method CountNodes(tree: ATree, at: Ptr, ghost c: Ctx, ghost t: Shape) returns (n: nat)
    requires tree.Linked() && tree.shape == c.Plug(t) && at == At(t, tree.nil)
    ensures n == |t.Objs()|
    ensures tree.Valid() && c.Top? ==> n == tree.nodes
    decreases t
  {
    Open(c, t, tree.root, tree.nil, tree.mem);
    SizeIsCount(t);
    if tree.mem[at].level == 0 {
      return 0;
    }
    var l := CountNodes(tree, tree.mem[at].left, Down(c, t, Left), t.left);
    var r := CountNodes(tree, tree.mem[at].right, Down(c, t, Right), t.right);
    n := l + r + 1;
  }

  /** src/klib/andtree.c:455-465: remove an element, wherever it is among those with its key. */
  method RemoveData(tree: ATree, data: Ptr, getKey: Key) returns (ret: Ptr, ghost b: seq<Ptr>, ghost a: seq<Ptr>)
    requires tree.Valid() && Searchable(tree.shape, getKey, getKey(data)) && data != NULL
    modifies tree
    ensures tree.Valid()
    ensures ret == if data in old(tree.shape.Datas()) then data else NULL
    ensures ret == NULL ==> tree.shape == old(tree.shape)
    ensures ret != NULL ==> old(tree.shape.Datas()) == b + [data] + a && tree.shape.Datas() == b + a
  {
    var node := FindData(tree, data, getKey);
    ret, b, a := NULL, [], [];
    if node != NULL {
      ret := tree.mem[node].data;
      ghost var freed, j;
      b, a, freed, j := tree.Remove(node);
    }
  }
}
