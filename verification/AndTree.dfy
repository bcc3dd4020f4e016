/** The Andersson tree of src/klib/andtree.c: nodes with parent and child pointers, changed in
    place.  Node memory is a map from addresses to node contents, so that following a pointer to
    memory that was never allocated, or already freed, is a proof obligation at every access.
    Every method is proved against the value-level functions of AaShape. */
module AndTree {
  import opened Pointers
  import opened AaShape
  import opened AaOrder

  /** What one node holds. */
  datatype Cell = Cell(parent: Ptr, left: Ptr, right: Ptr, level: nat, data: Ptr)
  {
    function Leaf(dir: Dir): Ptr {
      if dir == Left then left else right
    }

    function WithLeaf(dir: Dir, value: Ptr): Cell {
      if dir == Left then this.(left := value) else this.(right := value)
    }
  }

  /** The sentinel: at level 0, its own child, with no data. */
  function Sentinel(nil: Ptr, parent: Ptr): Cell {
    Cell(parent, nil, nil, 0, NULL)
  }

  type Memory = map<Ptr, Cell>

  /** The pointer that stands for a subtree; `nil` is the sentinel's address. */
  function At(t: Shape, nil: Ptr): Ptr {
    if t.Nil? then nil else t.obj
  }

  /** Below `par`, memory links up exactly the tree `t`. */
  ghost predicate Rep(t: Shape, par: Ptr, nil: Ptr, m: Memory) {
    t.Node? ==>
      && t.obj in m
      && m[t.obj] == Cell(par, At(t.left, nil), At(t.right, nil), t.level, t.data)
      && t.level > 0
      && Rep(t.left, t.obj, nil, m)
      && Rep(t.right, t.obj, nil, m)
  }

  ghost function CtxSet(c: Ctx): set<Ptr> {
    if c.Top? then {} else {c.frame.obj} + c.frame.sib.ObjSet() + CtxSet(c.up)
  }

  function HolePar(c: Ctx): Ptr {
    if c.Top? then NULL else c.frame.obj
  }

  /** Memory links up the surroundings of a hole that holds the pointer `hole`. */
  ghost predicate RepCtx(c: Ctx, hole: Ptr, nil: Ptr, m: Memory) {
    c.In? ==>
      var f := c.frame;
      && f.obj in m
      && m[f.obj] == (if f.dir == Left then Cell(HolePar(c.up), hole, At(f.sib, nil), f.level, f.data)
                      else Cell(HolePar(c.up), At(f.sib, nil), hole, f.level, f.data))
      && f.level > 0
      && Rep(f.sib, f.obj, nil, m)
      && RepCtx(c.up, f.obj, nil, m)
  }

  /** Only the cells of a tree's own nodes matter to it. */
  lemma {:induction false} RepFrame(t: Shape, par: Ptr, nil: Ptr, m: Memory, m': Memory)
    requires Rep(t, par, nil, m)
    requires forall n :: n in t.ObjSet() && n in m ==> n in m' && m'[n] == m[n]
    ensures Rep(t, par, nil, m')
    decreases t
  {
    if t.Node? {
      assert t.obj in t.Objs();
      RepFrame(t.left, t.obj, nil, m, m');
      RepFrame(t.right, t.obj, nil, m, m');
    }
  }

  lemma {:induction false} CtxFrame(c: Ctx, hole: Ptr, nil: Ptr, m: Memory, m': Memory)
    requires RepCtx(c, hole, nil, m)
    requires forall n :: n in CtxSet(c) && n in m ==> n in m' && m'[n] == m[n]
    ensures RepCtx(c, hole, nil, m')
    decreases c
  {
    if c.In? {
      RepFrame(c.frame.sib, c.frame.obj, nil, m, m');
      CtxFrame(c.up, c.frame.obj, nil, m, m');
    }
  }

  /** The parts of a tree without duplicates have no node in common. */
  lemma NodeParts(t: Shape)
    requires t.Node? && NoDup(t.Objs())
    ensures NoDup(t.left.Objs()) && NoDup(t.right.Objs())
    ensures t.obj !in t.left.ObjSet() && t.obj !in t.right.ObjSet()
    ensures t.left.ObjSet() !! t.right.ObjSet()
    ensures t.ObjSet() == {t.obj} + t.left.ObjSet() + t.right.ObjSet()
  {
    NoDupConcat(t.left.Objs() + [t.obj], t.right.Objs());
    NoDupConcat(t.left.Objs(), [t.obj]);
    assert t.obj in Elems([t.obj]);
  }

  lemma {:induction false} CtxParts(c: Ctx, t: Shape)
    requires NoDup(c.Plug(t).Objs())
    ensures NoDup(t.Objs())
    ensures CtxSet(c) !! t.ObjSet()
    ensures c.Plug(t).ObjSet() == CtxSet(c) + t.ObjSet()
    ensures c.In? ==> {c.frame.obj} !! c.frame.sib.ObjSet() !! CtxSet(c.up)
    decreases c
  {
    if c.In? {
      var s := c.frame.Fill(t);
      CtxParts(c.up, s);
      NodeParts(s);
    }
  }

  /** A tree in memory is a subtree in memory and its surroundings in memory. */
  lemma {:induction false} Focus(c: Ctx, t: Shape, nil: Ptr, m: Memory)
    ensures Rep(c.Plug(t), NULL, nil, m) <==> RepCtx(c, At(t, nil), nil, m) && Rep(t, HolePar(c), nil, m)
    decreases c
  {
    if c.In? {
      Focus(c.up, c.frame.Fill(t), nil, m);
    }
  }

  function TopObj(c: Ctx): Ptr
    requires c.In?
  {
    if c.up.Top? then c.frame.obj else TopObj(c.up)
  }

  lemma {:induction false} CtxTop(c: Ctx, t: Shape)
    requires c.In?
    ensures c.Plug(t).Node? && c.Plug(t).obj == TopObj(c) && TopObj(c) in CtxSet(c)
    decreases c
  {
    if c.up.In? {
      CtxTop(c.up, c.frame.Fill(t));
    }
  }

  /** `root` and `m` hold the tree `t` over the sentinel at `nil`: child and
      parent links agree, the root has no parent, and no node is in two places.  The sentinel's
      own parent field is written by rotations and means nothing. */
  ghost predicate Formed(t: Shape, root: Ptr, nil: Ptr, m: Memory) {
    && nil != NULL && {nil, NULL} !! t.ObjSet()
    && t.ObjSet() + {nil} <= m.Keys
    && m[nil] == Sentinel(nil, m[nil].parent)
    && NoDup(t.Objs())
    && root == At(t, nil)
    && Rep(t, NULL, nil, m)
  }

  // ---------------------------------------------------------------- rotation

  ghost function Rotated(t: Shape, dir: Dir): (r: Shape)
    requires t.Node? && (if dir == Left then t.right else t.left).Node?
    ensures r.Node?
  {
    if dir == Left then RotateLeft(t) else RotateRight(t)
  }

  lemma RotatedOrder(t: Shape, dir: Dir)
    requires t.Node? && (if dir == Left then t.right else t.left).Node?
    ensures SameOrder(t, Rotated(t, dir))
  {
    var r := Rotated(t, dir);
    if dir == Left {
      assert r.Objs() == t.Objs();
      assert r.Datas() == t.Datas();
    } else {
      assert r.Objs() == t.Objs();
      assert r.Datas() == t.Datas();
    }
  }

  /** A subtree given another parent, none of its other nodes changed. */
  lemma MovedRep(t: Shape, par: Ptr, par': Ptr, nil: Ptr, m: Memory, m': Memory)
    requires Rep(t, par, nil, m) && NoDup(t.Objs())
    requires forall n :: n in t.ObjSet() && n in m && n != At(t, nil) ==> n in m' && m'[n] == m[n]
    requires t.Node? ==> t.obj in m' && m'[t.obj] == m[t.obj].(parent := par')
    ensures Rep(t, par', nil, m')
  {
    if t.Node? {
      NodeParts(t);
      RepFrame(t.left, t.obj, nil, m, m');
      RepFrame(t.right, t.obj, nil, m, m');
    }
  }

  /** The surroundings of a hole that holds another pointer, none of its other nodes changed. */
  lemma RehungRep(c: Ctx, old_: Ptr, new_: Ptr, nil: Ptr, m: Memory, m': Memory)
    requires RepCtx(c, old_, nil, m)
    requires c.In? ==> {c.frame.obj} !! c.frame.sib.ObjSet() !! CtxSet(c.up)
    requires forall n :: n in CtxSet(c) && n in m && !(c.In? && n == c.frame.obj) ==> n in m' && m'[n] == m[n]
    requires c.In? ==> c.frame.obj in m' && m'[c.frame.obj] == m[c.frame.obj].WithLeaf(c.frame.dir, new_)
    ensures RepCtx(c, new_, nil, m')
  {
    if c.In? {
      RepFrame(c.frame.sib, c.frame.obj, nil, m, m');
      CtxFrame(c.up, c.frame.obj, nil, m, m');
    }
  }

  /** Memory after a subtree `t` became `u`, with the same nodes. */
  lemma Reformed(c: Ctx, t: Shape, u: Shape, root: Ptr, nil: Ptr, m: Memory, m': Memory)
    requires Formed(c.Plug(t), root, nil, m) && m'.Keys == m.Keys && m'[nil] == Sentinel(nil, m'[nil].parent)
    requires t.Node? && u.Node? && u.Objs() == t.Objs()
    requires RepCtx(c, u.obj, nil, m') && Rep(u, HolePar(c), nil, m')
    ensures Formed(c.Plug(u), if c.Top? then u.obj else root, nil, m')
    ensures c.Plug(u).ObjSet() == c.Plug(t).ObjSet()
  {
    assert c.Plug(u).Objs() == c.Plug(t).Objs() by { PlugObjs(c, t); PlugObjs(c, u); }
    if c.In? { CtxTop(c, t); CtxTop(c, u); }
    Focus(c, u, nil, m');
  }

  /** The subtree part of a rotation. */
  lemma RotateSub(t: Shape, dir: Dir, par: Ptr, nil: Ptr, m: Memory, m': Memory)
    requires Rep(t, par, nil, m) && NoDup(t.Objs()) && m'.Keys == m.Keys && nil !in t.ObjSet()
    requires t.Node? && (if dir == Left then t.right else t.left).Node?
    requires var s := if dir == Left then t.right else t.left;
             var inner := if dir == Left then s.left else s.right;
             && t.obj in m && s.obj in m && (inner.Node? ==> inner.obj in m)
             && m'[t.obj] == m[t.obj].WithLeaf(Other(dir), At(inner, nil)).(parent := s.obj)
             && m'[s.obj] == m[s.obj].WithLeaf(dir, t.obj).(parent := par)
             && (inner.Node? ==> m'[inner.obj] == m[inner.obj].(parent := t.obj))
             && forall n :: n in t.ObjSet() && n in m && n !in {t.obj, s.obj, At(inner, nil)} ==> m'[n] == m[n]
    ensures Rep(Rotated(t, dir), par, nil, m')
  {
    var s := if dir == Left then t.right else t.left;
    var inner := if dir == Left then s.left else s.right;
    var outer := if dir == Left then s.right else s.left;
    var far := if dir == Left then t.left else t.right;
    NodeParts(t);
    NodeParts(s);
    if inner.Node? { assert inner.obj in inner.Objs(); }
    MovedRep(inner, s.obj, t.obj, nil, m, m');
    RepFrame(outer, s.obj, nil, m, m');
    RepFrame(far, t.obj, nil, m, m');
  }

  /** The nodes a rotation reads and writes: all different, and linked as the tree says. */
  lemma RotateLocal(c: Ctx, t: Shape, dir: Dir, root: Ptr, nil: Ptr, m: Memory)
    requires Formed(c.Plug(t), root, nil, m)
    requires t.Node? && (if dir == Left then t.right else t.left).Node?
    ensures var s := if dir == Left then t.right else t.left;
            var i := At(if dir == Left then s.left else s.right, nil);
            && t.obj in m && s.obj in m && i in m
            && t.obj != s.obj && i != t.obj && i != s.obj
            && m[t.obj].Leaf(Other(dir)) == s.obj && m[t.obj].parent == HolePar(c)
            && m[s.obj].Leaf(dir) == i && m[s.obj].level > 0
            && (HolePar(c) == NULL <==> c.Top?)
            && (c.In? ==>
                  var p := c.frame.obj;
                  && p in m && p != t.obj && p != s.obj && p != i
                  && m[p].Leaf(c.frame.dir) == t.obj && m[p].Leaf(Other(c.frame.dir)) != t.obj)
            && (root == t.obj <==> c.Top?)
            && t.obj !in CtxSet(c) && s.obj !in CtxSet(c) && i !in CtxSet(c)
  {
    Focus(c, t, nil, m);
    CtxParts(c, t);
    NodeParts(t);
    var s := if dir == Left then t.right else t.left;
    var i := if dir == Left then s.left else s.right;
    NodeParts(s);
    if i.Node? { assert i.obj in i.Objs(); }
    if c.In? {
      CtxTop(c, t);
      if c.frame.sib.Node? { assert c.frame.sib.obj in c.frame.sib.Objs(); }
    }
  }

  /** Memory after a rotation: the four cells it changes. */
  lemma RotateFormed(c: Ctx, t: Shape, dir: Dir, root: Ptr, nil: Ptr, m: Memory, m': Memory)
    requires Formed(c.Plug(t), root, nil, m) && m'.Keys == m.Keys
    requires t.Node? && (if dir == Left then t.right else t.left).Node?
    requires var s := if dir == Left then t.right else t.left;
             var i := At(if dir == Left then s.left else s.right, nil);
             && t.obj in m && s.obj in m && i in m && (c.In? ==> c.frame.obj in m)
             && m'[t.obj] == m[t.obj].WithLeaf(Other(dir), i).(parent := s.obj)
             && m'[s.obj] == m[s.obj].WithLeaf(dir, t.obj).(parent := HolePar(c))
             && m'[i] == m[i].(parent := t.obj)
             && (c.In? ==> m'[c.frame.obj] == m[c.frame.obj].WithLeaf(c.frame.dir, s.obj))
             && forall n :: n in m && n !in {t.obj, s.obj, i} && !(c.In? && n == c.frame.obj) ==> m'[n] == m[n]
    ensures Rotated(t, dir).obj == (if dir == Left then t.right else t.left).obj
    ensures Formed(c.Plug(Rotated(t, dir)), if c.Top? then Rotated(t, dir).obj else root, nil, m')
    ensures c.Plug(Rotated(t, dir)).ObjSet() == c.Plug(t).ObjSet()
  {
    RotateLocal(c, t, dir, root, nil, m);
    var s := if dir == Left then t.right else t.left;
    var r := Rotated(t, dir);
    assert c.In? ==> c.frame.obj in CtxSet(c);
    Focus(c, t, nil, m);
    CtxParts(c, t);
    RotatedOrder(t, dir);
    RehungRep(c, t.obj, s.obj, nil, m, m');
    RotateSub(t, dir, HolePar(c), nil, m, m');
    Reformed(c, t, r, root, nil, m, m');
  }

  /** Hang `value` where `node` hangs below its parent (src/klib/andtree.c:204-214). */
  function ReplaceInParent(m: Memory, node: Ptr, value: Ptr): Memory
    requires node in m && value in m && (m[node].parent == NULL || m[node].parent in m)
  {
    var p := m[node].parent;
    // parentside: right exactly if the left child is not `node`
    var m' := if p == NULL then m else m[p := m[p].WithLeaf(if m[p].left != node then Right else Left, value)];
    if m'[value].level == 0 then m' else m'[value := m'[value].(parent := p)]
  }

  /** Following the pointer to a subtree that memory holds. */
  lemma Peek(t: Shape, par: Ptr, nil: Ptr, m: Memory)
    requires Rep(t, par, nil, m)
    requires nil in m && m[nil] == Sentinel(nil, m[nil].parent)
    ensures At(t, nil) in m && m[At(t, nil)].level == t.Level()
    ensures t.Nil? <==> m[At(t, nil)].level == 0
    ensures t.Node? ==>
              && m[t.obj] == Cell(par, At(t.left, nil), At(t.right, nil), t.level, t.data)
              && Rep(t.left, t.obj, nil, m) && Rep(t.right, t.obj, nil, m)
  {
  }

  /** A tree opened at a place in it. */
  lemma Open(c: Ctx, t: Shape, root: Ptr, nil: Ptr, m: Memory)
    requires Formed(c.Plug(t), root, nil, m)
    ensures Rep(t, HolePar(c), nil, m)
    ensures nil in m && m[nil] == Sentinel(nil, m[nil].parent)
    ensures At(t, nil) in m && m[At(t, nil)].level == t.Level()
    ensures t.Nil? <==> m[At(t, nil)].level == 0
    ensures t.Node? ==>
              && m[t.obj] == Cell(HolePar(c), At(t.left, nil), At(t.right, nil), t.level, t.data)
              && At(t.left, nil) in m && m[At(t.left, nil)].level == t.left.Level()
              && At(t.right, nil) in m && m[At(t.right, nil)].level == t.right.Level()
              && m[At(t.right, nil)].right in m && m[m[At(t.right, nil)].right].level == t.right.RightLevel()
  {
    Focus(c, t, nil, m);
    Peek(t, HolePar(c), nil, m);
    if t.Node? {
      Peek(t.left, t.obj, nil, m);
      Peek(t.right, t.obj, nil, m);
      if t.right.Node? {
        Peek(t.right.right, t.right.obj, nil, m);
      }
    }
  }

  /** The path to a child of `t`, when `c` is the path to `t`. */
  ghost function Down(c: Ctx, t: Shape, dir: Dir): Ctx
    requires t.Node?
  {
    In(Frame(dir, t.obj, t.level, t.data, if dir == Left then t.right else t.left), c)
  }

  /** Overwriting the level or the data of one node. */
  lemma CellFormed(c: Ctx, t: Shape, u: Shape, root: Ptr, nil: Ptr, m: Memory, m': Memory)
    requires Formed(c.Plug(t), root, nil, m) && m'.Keys == m.Keys
    requires t.Node? && u.Node? && u.obj == t.obj && u.left == t.left && u.right == t.right && u.level > 0
    requires t.obj in m && m'[t.obj] == m[t.obj].(level := u.level, data := u.data)
    requires forall n :: n in m && n != t.obj ==> m'[n] == m[n]
    ensures Formed(c.Plug(u), root, nil, m')
    ensures c.Plug(u).ObjSet() == c.Plug(t).ObjSet()
  {
    assert u.Objs() == t.Objs();
    Focus(c, t, nil, m);
    CtxParts(c, t);
    assert RepCtx(c, t.obj, nil, m') by { CtxFrame(c, t.obj, nil, m, m'); }
    assert Rep(t.left, t.obj, nil, m') && Rep(t.right, t.obj, nil, m') by {
      NodeParts(t);
      RepFrame(t.left, t.obj, nil, m, m');
      RepFrame(t.right, t.obj, nil, m, m');
    }
    assert c.Top? ==> root == u.obj;
    Reformed(c, t, u, root, nil, m, m');
  }

  /** A new leaf hung into an empty place, `node` not in the tree before. */
  lemma AttachFormed(c: Ctx, leaf: Shape, root: Ptr, nil: Ptr, m: Memory, m': Memory)
    requires Formed(c.Plug(Nil), root, nil, m) && m'.Keys == m.Keys
    requires leaf.Node? && leaf.left == Nil && leaf.right == Nil && leaf.level > 0
    requires leaf.obj in m && leaf.obj !in c.Plug(Nil).ObjSet() && leaf.obj !in {nil, NULL}
    requires m'[leaf.obj] == Cell(HolePar(c), nil, nil, leaf.level, leaf.data)
    requires c.In? ==> c.frame.obj in m && m'[c.frame.obj] == m[c.frame.obj].WithLeaf(c.frame.dir, leaf.obj)
    requires forall n :: n in m && n != leaf.obj && !(c.In? && n == c.frame.obj) ==> m'[n] == m[n]
    ensures Formed(c.Plug(leaf), if c.Top? then leaf.obj else root, nil, m')
    ensures c.Plug(leaf).ObjSet() == c.Plug(Nil).ObjSet() + {leaf.obj}
  {
    Focus(c, Nil, nil, m);
    CtxParts(c, Nil);
    assert c.In? ==> c.frame.obj in CtxSet(c);
    RehungRep(c, nil, leaf.obj, nil, m, m');
    Focus(c, leaf, nil, m');
    if c.In? { CtxTop(c, Nil); CtxTop(c, leaf); }
    AttachObjs(c, leaf);
  }

  lemma AttachObjs(c: Ctx, leaf: Shape)
    requires leaf.Node? && leaf.left == Nil && leaf.right == Nil
    requires NoDup(c.Plug(Nil).Objs()) && leaf.obj !in c.Plug(Nil).ObjSet()
    ensures NoDup(c.Plug(leaf).Objs()) && c.Plug(leaf).ObjSet() == c.Plug(Nil).ObjSet() + {leaf.obj}
  {
    assert leaf.Objs() == [leaf.obj];
    PlugObjs(c, leaf);
    PlugObjs(c, Nil);
    var b, a := c.ObjsBefore(), c.ObjsAfter();
    assert c.Plug(Nil).Objs() == b + a;
    NoDupInsert(b, leaf.obj, a);
  }

  /** A node with at most one child spliced out, the child `u` in its place. */
  lemma DetachFormed(c: Ctx, t: Shape, root: Ptr, nil: Ptr, m: Memory, m': Memory)
    requires Formed(c.Plug(t), root, nil, m) && m'.Keys == m.Keys
    requires t.Node? && t.left.Nil? && t.obj in m && m'[t.obj] == m[t.obj]
    requires var u := At(t.right, nil);
             && u in m && (t.right.Node? ==> m'[u] == m[u].(parent := HolePar(c)))
             && (c.In? ==> c.frame.obj in m && m'[c.frame.obj] == m[c.frame.obj].WithLeaf(c.frame.dir, u))
             && forall n :: n in m && !(t.right.Node? && n == u) && !(c.In? && n == c.frame.obj) ==> m'[n] == m[n]
    ensures Formed(c.Plug(t.right), if c.Top? then At(t.right, nil) else root, nil, m' - {t.obj})
    ensures c.Plug(t.right).ObjSet() == c.Plug(t).ObjSet() - {t.obj}
  {
    var f := m' - {t.obj};
    Focus(c, t, nil, m);
    CtxParts(c, t);
    NodeParts(t);
    assert c.In? ==> c.frame.obj in CtxSet(c);
    if t.right.Node? { assert t.right.obj in t.right.Objs(); }
    RehungRep(c, t.obj, At(t.right, nil), nil, m, f);
    MovedRep(t.right, t.obj, HolePar(c), nil, m, f);
    Focus(c, t.right, nil, f);
    if c.In? { CtxTop(c, t); CtxTop(c, t.right); }
    DetachObjs(c, t);
  }

  lemma Detached(b: seq<Ptr>, x: Ptr, r: seq<Ptr>, a: seq<Ptr>)
    ensures b + ([x] + r) + a == b + [x] + (r + a) && b + r + a == b + (r + a)
  {
  }

  lemma DetachObjs(c: Ctx, t: Shape)
    requires t.Node? && t.left.Nil? && NoDup(c.Plug(t).Objs())
    ensures NoDup(c.Plug(t.right).Objs()) && c.Plug(t.right).ObjSet() == c.Plug(t).ObjSet() - {t.obj}
  {
    Leaf(t);
    PlugObjs(c, t);
    PlugObjs(c, t.right);
    var b, a := c.ObjsBefore(), c.ObjsAfter();
    Detached(b, t.obj, t.right.Objs(), a);
    NoDupRemove(b, t.obj, t.right.Objs() + a);
  }

  /** The contents of a tree `s` after the leaf `x` was put in a place of it. */
  lemma Inserted(c: Ctx, x: Shape, s: Shape)
    requires x.Node? && x.left.Nil? && x.right.Nil? && SameOrder(c.Plug(x), s)
    ensures c.Plug(Nil).Datas() == c.Before() + c.After() && s.Datas() == c.Before() + [x.data] + c.After()
    ensures s.Size() == c.Plug(Nil).Size() + 1 && s.Objs()[|c.Before()|] == x.obj
    ensures s.ObjSet() == c.Plug(Nil).ObjSet() + {x.obj}
  {
    Leaf(x);
    PlugDatas(c, x); PlugDatas(c, Nil); PlugObjs(c, x); PlugObjs(c, Nil);
    Units(c.Before(), []);
    Units(c.ObjsBefore(), []);
    assert c.Plug(Nil).Objs() == c.ObjsBefore() + c.ObjsAfter();
    SizeIsCount(s);
    SizeIsCount(c.Plug(Nil));
  }

  /** The tree after the leaf was put in its place and the repair has run. */
  lemma InsertDone(c: Ctx, leaf: Shape, key: Key)
    requires leaf.Node? && leaf.left.Nil? && leaf.right.Nil? && leaf.level == 1 && c.Plug(Nil).AA()
    ensures var s0, s := c.Plug(Nil), MendUp(c, Mend(leaf));
            && s.AA() && s.Size() == s0.Size() + 1 && s.ObjSet() == s0.ObjSet() + {leaf.obj}
            && s0.Datas() == c.Before() + c.After() && s.Datas() == c.Before() + [leaf.data] + c.After()
            && |s.Objs()| == |s.Datas()| && s.Objs()[|c.Before()|] == leaf.obj
            && (Around(c.Before(), leaf.data, c.After(), key) ==> s.Datas() == StableInsert(s0.Datas(), leaf.data, key))
  {
    assert Mend(leaf) == leaf;
    MendUpAA(c, Nil, leaf);
    MendUpOrder(c, leaf);
    Inserted(c, leaf, MendUp(c, leaf));
    if Around(c.Before(), leaf.data, c.After(), key) { StableInsertAt(c.Before(), c.After(), leaf.data, key); }
  }

  /** The path to a node of a tree. */
  lemma {:induction false} Locate(c: Ctx, t: Shape, n: Ptr) returns (d: Ctx, u: Shape)
    requires n in t.ObjSet()
    ensures d.Plug(u) == c.Plug(t) && u.Node? && u.obj == n
    decreases t
  {
    if t.obj == n {
      d, u := c, t;
    } else if n in t.left.ObjSet() {
      d, u := Locate(Down(c, t, Left), t.left, n);
    } else {
      d, u := Locate(Down(c, t, Right), t.right, n);
    }
  }

  lemma {:induction false} SizeIsCount(t: Shape)
    ensures t.Size() == |t.Objs()|
  {
    if t.Node? {
      SizeIsCount(t.left);
      SizeIsCount(t.right);
    }
  }

  lemma NodesNotNull(c: Ctx, t: Shape, root: Ptr, nil: Ptr, m: Memory)
    requires Formed(c.Plug(t), root, nil, m) && t.Node?
    ensures t.obj != NULL && t.obj != nil
  {
    CtxParts(c, t);
    assert t.obj in t.Objs();
  }

  /** The node above a place is a node of the tree. */
  lemma OpenParent(c: Ctx, t: Shape, root: Ptr, nil: Ptr, m: Memory)
    requires Formed(c.Plug(t), root, nil, m)
    ensures c.In? ==> HolePar(c) != NULL && HolePar(c) in m && m[HolePar(c)].level != 0
    ensures c.Top? ==> HolePar(c) == NULL
  {
    if c.In? {
      Open(c.up, c.frame.Fill(t), root, nil, m);
      NodesNotNull(c.up, c.frame.Fill(t), root, nil, m);
    }
  }

  /** The nodes a removal reads and writes. */
  lemma DetachLocal(c: Ctx, t: Shape, root: Ptr, nil: Ptr, m: Memory)
    requires Formed(c.Plug(t), root, nil, m) && t.Node?
    ensures t.obj in m && t.obj != nil && At(t.right, nil) in m && At(t.right, nil) != t.obj
    ensures m[t.obj].parent == HolePar(c) && (HolePar(c) == NULL <==> c.Top?)
    ensures m[At(t.right, nil)].level == 0 <==> t.right.Nil?
    ensures c.In? ==>
              var p := c.frame.obj;
              && p in m && p != t.obj && p != At(t.right, nil)
              && m[p].Leaf(c.frame.dir) == t.obj && m[p].Leaf(Other(c.frame.dir)) != t.obj
    ensures root == t.obj <==> c.Top?
  {
    Open(c, t, root, nil, m);
    OpenParent(c, t, root, nil, m);
    NodesNotNull(c, t, root, nil, m);
    Focus(c, t, nil, m);
    CtxParts(c, t);
    NodeParts(t);
    if t.right.Node? { assert t.right.obj in t.right.Objs(); }
    if c.In? {
      CtxTop(c, t);
      if c.frame.sib.Node? { assert c.frame.sib.obj in c.frame.sib.Objs(); }
    }
  }

  lemma NodesPositive(c: Ctx, t: Shape)
    requires t.Node?
    ensures c.Plug(t).Size() > 0
  {
    SizeIsCount(c.Plug(t));
    PlugObjs(c, t);
  }

  lemma CutSize(s: Shape, r: Shape, j: int)
    requires 0 <= j < |s.Objs()| && r.Objs() == Cut(s.Objs(), j)
    ensures r.Size() == s.Size() - 1
  {
    SizeIsCount(s);
    SizeIsCount(r);
  }

  /** Where a node stands in the sequences, and where the node that its removal frees. */
  lemma RemovalPlace(c: Ctx, t: Shape, root: Ptr, nil: Ptr, m: Memory)
    requires Formed(c.Plug(t), root, nil, m) && t.Node?
    ensures t.obj in m && m[t.obj].data == t.data
    ensures var b, s := c.Before() + t.left.Datas(), c.Plug(t).Objs();
            && c.Plug(t).Datas() == b + [t.data] + (t.right.Datas() + c.After()) && |b| < |s| && s[|b|] == t.obj
            && SparePos(c, t) == |b| + if m[t.obj].left != nil then -1 else if m[t.obj].right != nil then 1 else 0
  {
    Open(c, t, root, nil, m);
    PlugNode(c, t);
    PlugObjs(c, t);
    SizeIsCount(t.left);
  }

  class ATree {
    var root: Ptr
    var nodes: nat
    var mem: Memory
    const nil: Ptr
    ghost var shape: Shape

    constructor (nil: Ptr)
      requires nil != NULL
      ensures this.nil == nil && Linked() && shape == Nil && nodes == 0
    {
      this.nil, root, nodes, shape := nil, nil, 0, Nil;
      mem := map[nil := Sentinel(nil, NULL)];
    }

    /** Memory holds the tree `shape`, and nothing else. */
    ghost predicate Linked()
      reads this
    {
      Formed(shape, root, nil, mem) && mem.Keys == shape.ObjSet() + {nil}
    }

    /** What every operation keeps: links, balance, and the node count. */
    ghost predicate Valid()
      reads this
    {
      Linked() && shape.AA() && nodes == shape.Size()
    }

    /** src/klib/andtree.c:216-235 */
    method Rotate(node: Ptr, dir: Dir, ghost c: Ctx, ghost t: Shape) returns (temp: Ptr)
      requires Linked() && shape == c.Plug(t) && t.Node? && t.obj == node
      requires (if dir == Left then t.right else t.left).Node?
      modifies this`root, this`mem, this`shape
      ensures Linked() && shape == c.Plug(Rotated(t, dir)) && temp == Rotated(t, dir).obj
    {
      RotateLocal(c, t, dir, root, nil, mem);
      temp := mem[node].Leaf(Other(dir));
      var inner := mem[temp].Leaf(dir);
      mem := mem[node := mem[node].WithLeaf(Other(dir), inner)];
      mem := mem[temp := mem[temp].WithLeaf(dir, node)];
      mem := mem[inner := mem[inner].(parent := node)];
      mem := ReplaceInParent(mem, node, temp);
      mem := mem[node := mem[node].(parent := temp)];
      RotateFormed(c, t, dir, root, nil, old(mem), mem);
      if node == root {
        root := temp;
      }
      shape := c.Plug(Rotated(t, dir));
    }

    /** src/klib/andtree.c:242-256 */
    method SkewAt(node: Ptr, ghost c: Ctx, ghost t: Shape) returns (ret: Ptr)
      requires Linked() && shape == c.Plug(t) && node == At(t, nil)
      modifies this`root, this`mem, this`shape
      ensures Linked() && shape == c.Plug(Skew(t)) && ret == At(Skew(t), nil)
      decreases if t.Nil? then t else t.left
    {
      Open(c, t, root, nil, mem);
      ret := node;
      if mem[node].level == 0 {
        return;
      }
      if mem[mem[node].left].level == mem[node].level {
        ret := Rotate(node, Right, c, t);
        ghost var r := RotateRight(t);
        Open(c, r, root, nil, mem);
        var _ := SkewAt(mem[ret].right, Down(c, r, Right), r.right);
      }
    }

    /** src/klib/andtree.c:258-273 */
    method SplitAt(node: Ptr, ghost c: Ctx, ghost t: Shape) returns (ret: Ptr)
      requires Linked() && shape == c.Plug(t) && node == At(t, nil)
      modifies this`root, this`mem, this`shape
      ensures Linked() && shape == c.Plug(Split(t)) && ret == At(Split(t), nil)
      decreases t
    {
      Open(c, t, root, nil, mem);
      ret := node;
      if mem[node].level == 0 {
        return;
      }
      if mem[node].level == mem[mem[mem[node].right].right].level {
        ret := Rotate(node, Left, c, t);
        ghost var r := RotateLeft(t);
        Open(c, r, root, nil, mem);
        SetLevel(ret, mem[ret].level + 1, c, r);
        ghost var r' := r.(level := r.level + 1);
        assert shape == Down(c, r', Right).Plug(r'.right);
        Open(c, r', root, nil, mem);
        var _ := SplitAt(mem[ret].right, Down(c, r', Right), r'.right);
        assert Split(t) == r'.(right := Split(r'.right));
        assert shape == c.Plug(Split(t));
      }
    }

    method SetLevel(node: Ptr, level: nat, ghost c: Ctx, ghost t: Shape)
      requires Linked() && shape == c.Plug(t) && t.Node? && node == t.obj && level > 0
      modifies this`mem, this`shape
      ensures Linked() && shape == c.Plug(t.(level := level))
    {
      Open(c, t, root, nil, mem);
      mem := mem[node := mem[node].(level := level)];
      CellFormed(c, t, t.(level := level), root, nil, old(mem), mem);
      shape := c.Plug(t.(level := level));
    }

    method SetData(node: Ptr, data: Ptr, ghost c: Ctx, ghost t: Shape)
      requires Linked() && shape == c.Plug(t) && t.Node? && node == t.obj
      modifies this`mem, this`shape
      ensures Linked() && shape == c.Plug(t.(data := data)) && mem.Keys == old(mem.Keys)
    {
      Open(c, t, root, nil, mem);
      mem := mem[node := mem[node].(data := data)];
      CellFormed(c, t, t.(data := data), root, nil, old(mem), mem);
      shape := c.Plug(t.(data := data));
    }

    method Attach(temp: Ptr, dir: Dir, node: Ptr, ghost c: Ctx)
      requires Formed(shape, root, nil, mem) && mem.Keys == shape.ObjSet() + {nil, node}
      requires node !in shape.ObjSet() + {nil, NULL} && mem[node] == Cell(NULL, nil, nil, 1, mem[node].data)
      requires shape == c.Plug(Nil) && c.In? && c.frame.obj == temp && c.frame.dir == dir && temp in mem
      modifies this`mem, this`shape
      ensures Linked() && shape == c.Plug(Node(node, 1, old(mem)[node].data, Nil, Nil))
      ensures temp in mem && mem[temp].Leaf(dir) == node
    {
      Focus(c, Nil, nil, mem);
      CtxParts(c, Nil);
      assert temp in CtxSet(c);
      mem := mem[temp := mem[temp].WithLeaf(dir, node)];
      mem := mem[node := mem[node].(parent := temp)];
      AttachFormed(c, Node(node, 1, mem[node].data, Nil, Nil), root, nil, old(mem), mem);
      shape := c.Plug(Node(node, 1, mem[node].data, Nil, Nil));
    }

    /** src/klib/andtree.c:302-323; `node` is allocated and not yet in the tree. */
    method BinInsert(node: Ptr, getKey: Key) returns (ghost c: Ctx)
      requires Formed(shape, root, nil, mem) && mem.Keys == shape.ObjSet() + {nil, node}
      requires node !in shape.ObjSet() + {nil, NULL} && mem[node] == Cell(NULL, nil, nil, 1, mem[node].data)
      modifies this`root, this`mem, this`shape
      ensures Linked() && old(shape) == c.Plug(Nil)
      ensures shape == c.Plug(Node(node, 1, old(mem)[node].data, Nil, Nil))
      ensures Sorted(old(shape).Datas(), getKey) && AllFit(old(shape).Datas(), getKey, getKey(old(mem)[node].data))
              ==> Around(c.Before(), old(mem)[node].data, c.After(), getKey)
    {
      ghost var x := mem[node].data;
      ghost var leaf := Node(node, 1, x, Nil, Nil);
      ghost var ordered := Sorted(shape.Datas(), getKey) && AllFit(shape.Datas(), getKey, getKey(x));
      ghost var t := shape;
      c := Top;
      Open(c, t, root, nil, mem);
      if mem[root].level == 0 {
        AttachFormed(c, leaf, root, nil, mem, mem);
        root := node;
        shape := leaf;
        return;
      }
      var temp := root;
      while temp != node
        invariant temp != node ==>
                    && mem == old(mem) && root == old(root) && shape == old(shape) == c.Plug(t)
                    && t.Node? && temp == t.obj
        invariant temp == node ==> Linked() && old(shape) == c.Plug(Nil) && shape == c.Plug(leaf)
        invariant ordered ==> Around(c.Before(), x, c.After(), getKey)
        decreases temp != node, t
      {
        Open(c, t, root, nil, mem);
        var diff := Diff64(getKey(mem[node].data), getKey(mem[temp].data));
        var dir := if diff < 0 then Left else Right;
        if ordered { DescendOrder(c, t, dir, x, getKey); }
        c, t := Down(c, t, dir), if dir == Left then t.left else t.right;
        Open(c, t, root, nil, mem);
        if mem[mem[temp].Leaf(dir)].level == 0 {
          Attach(temp, dir, node, c);
        }
        temp := mem[temp].Leaf(dir);
      }
    }

    /** src/klib/andtree.c:325-334 */
    method InsertRepair(node: Ptr, ghost c0: Ctx, ghost t0: Shape)
      requires Linked() && shape == c0.Plug(t0) && t0.Node? && node == t0.obj
      modifies this`root, this`mem, this`shape
      ensures Linked() && shape == MendUp(c0, Mend(t0))
    {
      ghost var c, t := c0, t0;
      var temp := node;
      Open(c, t, root, nil, mem);
      assert temp != NULL by { CtxParts(c, t); assert t.obj in t.Objs(); }
      while temp != NULL
        invariant Linked()
        invariant temp != NULL ==>
                    t.Node? && temp == t.obj && shape == c.Plug(t) && MendUp(c, Mend(t)) == MendUp(c0, Mend(t0))
        invariant temp == NULL ==> shape == MendUp(c0, Mend(t0))
        decreases temp != NULL, c
      {
        temp := SkewAt(temp, c, t);
        temp := SplitAt(temp, c, Skew(t));
        Open(c, Mend(t), root, nil, mem);
        temp := mem[temp].parent;
        if c.In? {
          t := c.frame.Fill(Mend(t));
          c := c.up;
          CtxParts(c, t);
          assert t.obj in t.Objs();
        }
      }
    }

    /** src/klib/andtree.c:404-422; `node` is the address the slab allocator returned. */
    method Insert(data: Ptr, node: Ptr, getKey: Key) returns (ghost b: seq<Ptr>, ghost a: seq<Ptr>)
      requires Valid() && node !in mem && node != NULL
      modifies this
      ensures Valid() && shape.ObjSet() == old(shape.ObjSet()) + {node}
      ensures old(shape.Datas()) == b + a && shape.Datas() == b + [data] + a
      ensures |shape.Objs()| == |shape.Datas()| && shape.Objs()[|b|] == node
      ensures Sorted(old(shape).Datas(), getKey) && AllFit(old(shape).Datas(), getKey, getKey(data))
              ==> shape.Datas() == StableInsert(old(shape.Datas()), data, getKey)
    {
      mem := mem[node := Cell(NULL, nil, nil, 1, data)];
      RepFrame(shape, NULL, nil, old(mem), mem);
      ghost var c := BinInsert(node, getKey);
      ghost var leaf := Node(node, 1, data, Nil, Nil);
      InsertRepair(node, c, leaf);
      nodes := nodes + 1;
      b, a := c.Before(), c.After();
      InsertDone(c, leaf, getKey);
    }

    /** src/klib/andtree.c:42-60: the first (Left) or last (Right) node of the subtree at `start`,
        or NULL if it is empty. */
    method FindEnd(start: Ptr, dir: Dir, ghost c: Ctx, ghost t: Shape)
      returns (node: Ptr, ghost rel: Ctx, ghost x: Shape)
      requires Linked() && shape == c.Plug(t) && start == At(t, nil)
      ensures node == NULL <==> t.Nil?
      ensures t.Node? ==> x.Node? && node == x.obj && rel.Plug(x) == t && Spine(rel, dir)
                          && (if dir == Left then x.left else x.right).Nil?
      ensures shape == rel.Append(c).Plug(x)
    {
      rel, x := Top, t;
      Open(c, t, root, nil, mem);
      if mem[start].level == 0 {
        return NULL, Top, t;
      }
      node := start;
      while mem[mem[node].Leaf(dir)].level != 0
        invariant x.Node? && node == x.obj && rel.Plug(x) == t && Spine(rel, dir)
        invariant node in mem && mem[node].Leaf(dir) in mem
        invariant At(if dir == Left then x.left else x.right, nil) == mem[node].Leaf(dir)
        invariant mem[mem[node].Leaf(dir)].level == (if dir == Left then x.left else x.right).Level()
        invariant shape == rel.Append(c).Plug(x)
        decreases x
      {
        node := mem[node].Leaf(dir);
        rel, x := Down(rel, x, dir), if dir == Left then x.left else x.right;
        PlugAppend(rel, c, x);
        Open(rel.Append(c), x, root, nil, mem);
      }
      Open(rel.Append(c), x, root, nil, mem);
      NodesNotNull(rel.Append(c), x, root, nil, mem);
    }

    /** src/klib/andtree.c:275-290; the node's memory is freed. */
    method RemoveNode(node: Ptr, replacement: Ptr, ghost c: Ctx, ghost t: Shape)
      requires Linked() && shape == c.Plug(t) && t.Node? && t.obj == node
      requires t.left.Nil? && replacement == At(t.right, nil) && nodes > 0
      modifies this
      ensures Linked() && shape == c.Plug(t.right) && nodes == old(nodes) - 1
      ensures node in old(mem) && node != nil && mem.Keys == old(mem.Keys) - {node}
    {
      DetachLocal(c, t, root, nil, mem);
      if node == root {
        root := replacement;
      }
      mem := ReplaceInParent(mem, node, replacement);
      DetachFormed(c, t, old(root), nil, old(mem), mem);
      mem := mem - {node};
      nodes := nodes - 1;
      shape := c.Plug(t.right);
    }

    /** src/klib/andtree.c:363-386: the body of the removal walk's loop. */
    method FixupAt(node: Ptr, ghost c: Ctx, ghost t: Shape) returns (repair: Ptr)
      requires Linked() && shape == c.Plug(t) && t.Node? && t.obj == node
      modifies this`root, this`mem, this`shape
      ensures Linked() && shape == c.Plug(Fixup(t)) && repair == At(Fixup(t), nil)
    {
      repair := node;
      Open(c, t, root, nil, mem);
      if mem[mem[repair].left].level < mem[repair].level - 1 || mem[mem[repair].right].level < mem[repair].level - 1 {
        LowerAt(repair, c, t);
        ghost var a := Lower(t);
        repair := SkewAt(repair, c, a);
        repair := SplitAt(repair, c, Skew(a));
        ghost var b := Split(Skew(a));
        Open(c, b, root, nil, mem);
        var _ := SplitAt(mem[repair].left, Down(c, b, Left), b.left);
        repair := SkewAt(repair, c, b.(left := Split(b.left)));
      }
    }

    method LowerAt(repair: Ptr, ghost c: Ctx, ghost t: Shape)
      requires Linked() && shape == c.Plug(t) && t.Node? && t.obj == repair && Sunk(t)
      modifies this`root, this`mem, this`shape
      ensures Linked() && shape == c.Plug(Lower(t))
    {
      Open(c, t, root, nil, mem);
      SetLevel(repair, mem[repair].level - 1, c, t);
      ghost var t1 := t.(level := t.level - 1);
      Open(c, t1, root, nil, mem);
      if mem[mem[repair].right].level > mem[repair].level {
        SetLevel(mem[repair].right, mem[repair].level, Down(c, t1, Right), t1.right);
      }
    }

    /** src/klib/andtree.c:362-387 */
    method FixupWalk(start: Ptr, ghost c0: Ctx, ghost t0: Shape)
      requires Linked() && shape == c0.Plug(t0) && start == HolePar(c0)
      modifies this`root, this`mem, this`shape
      ensures Linked() && shape == FixUp(c0, t0) && mem.Keys == old(mem.Keys)
    {
      ghost var c, t := c0, t0;
      var repair := start;
      FixUpOrder(c0, t0);
      OpenParent(c, t, root, nil, mem);
      while repair != NULL && mem[repair].level != 0
        invariant Linked() && shape == c.Plug(t) && repair == HolePar(c)
        invariant FixUp(c, t) == FixUp(c0, t0)
        invariant c.In? ==> repair != NULL && repair in mem && mem[repair].level != 0
        decreases c
      {
        t := c.frame.Fill(t);
        c := c.up;
        repair := FixupAt(repair, c, t);
        t := Fixup(t);
        Open(c, t, root, nil, mem);
        repair := mem[repair].parent;
        OpenParent(c, t, root, nil, mem);
      }
    }

    /** src/klib/andtree.c:349-355: `node` takes the data of `successor`, which is freed. */
    method TakeOver(node: Ptr, successor: Ptr, ghost c: Ctx, ghost t: Shape, ghost dir: Dir, ghost rel: Ctx,
                    ghost x: Shape)
      returns (repair: Ptr)
      requires Linked() && shape == c.Plug(t) && t.Node? && t.obj == node && nodes > 0
      requires x.Node? && x.left.Nil? && x.obj == successor && shape == rel.Append(Down(c, t, dir)).Plug(x)
      requires rel.Plug(x) == if dir == Left then t.left else t.right
      modifies this
      ensures Linked() && nodes == old(nodes) - 1
      ensures successor in old(mem) && successor != nil && mem.Keys == old(mem.Keys) - {successor}
      ensures shape == Via(c, t, dir, rel, x).Plug(x.right) && repair == HolePar(Via(c, t, dir, rel, x))
    {
      Open(rel.Append(Down(c, t, dir)), x, root, nil, mem);
      repair := mem[successor].parent;
      var replacement := mem[successor].Leaf(if mem[mem[successor].left].level == 0 then Right else Left);
      SetData(node, mem[successor].data, c, t);
      ViaPlug(c, t, dir, rel, x, x);
      RemoveNode(successor, replacement, Via(c, t, dir, rel, x), x);
    }

    /** src/klib/andtree.c:336-360: take the data of `node` out, and the memory of the node that
        ends up spare: its predecessor's, its successor's or its own.  The walk starts at `repair`. */
    method TakeOut(node: Ptr, ghost c: Ctx, ghost t: Shape)
      returns (repair: Ptr, ghost e: Ctx, ghost u: Shape, ghost freed: Ptr, ghost j: int)
      requires Valid() && shape == c.Plug(t) && t.Node? && t.obj == node
      modifies this
      ensures Linked() && shape == e.Plug(u) && repair == HolePar(e) && nodes == old(nodes) - 1
      ensures freed in old(mem) && freed != nil && mem.Keys == old(mem.Keys) - {freed}
      ensures j == SparePos(c, t) && Lacks(old(shape.Objs()), FixUp(e, u).Objs(), j, freed)
      ensures FixUp(e, u).AA() && FixUp(e, u).Size() == old(shape.Size()) - 1
      ensures FixUp(e, u).Datas() == (c.Before() + t.left.Datas()) + (t.right.Datas() + c.After())
    {
      Open(c, t, root, nil, mem);
      NodesPositive(c, t);
      j := SparePos(c, t);
      ghost var rel, x;
      ghost var dir := Left;
      var successor;
      successor, rel, x := FindEnd(mem[node].left, Right, Down(c, t, Left), t.left);
      if successor == NULL {
        dir := Right;
        successor, rel, x := FindEnd(mem[node].right, Left, Down(c, t, Right), t.right);
      }
      if successor != NULL {
        Removed(c, t, dir, rel, x);
        RemovedObjs(c, t, dir, rel, x);
        e, u, freed := Via(c, t, dir, rel, x), x.right, successor;
        CutSize(shape, FixUp(e, u), SparePos(c, t));
        repair := TakeOver(node, successor, c, t, dir, rel, x);
      } else {
        RemovedLeaf(c, t);
        RemovedLeafObjs(c, t);
        e, u, freed := c, Nil, node;
        CutSize(shape, FixUp(e, u), SparePos(c, t));
        repair := mem[node].parent;
        RemoveNode(node, nil, c, t);
      }
    }

    /** src/klib/andtree.c:336-388, 424-441.  The memory that is freed is that of the node before, if
        `node` has a left child, which then holds the element of that node; else of the node behind
        if it has a right child; else its own. */
    method Remove(node: Ptr) returns (ghost b: seq<Ptr>, ghost a: seq<Ptr>, ghost freed: Ptr, ghost j: int)
      requires Valid() && node in shape.ObjSet()
      modifies this
      ensures Valid() && nodes == old(nodes) - 1
      ensures freed in old(mem) && freed != nil && mem.Keys == old(mem.Keys) - {freed}
      ensures |b| < |old(shape.Objs())| && old(shape.Objs())[|b|] == node && node in old(mem)
      ensures j == |b| + if old(mem)[node].left != nil then -1 else if old(mem)[node].right != nil then 1 else 0
      ensures Lacks(old(shape.Objs()), shape.Objs(), j, freed)
      ensures old(shape.Datas()) == b + [old(mem)[node].data] + a && shape.Datas() == b + a
    {
      ghost var c, t := Locate(Top, shape, node);
      RemovalPlace(c, t, root, nil, mem);
      b, a := c.Before() + t.left.Datas(), t.right.Datas() + c.After();
      ghost var e: Ctx, u: Shape;
      var repair;
      repair, e, u, freed, j := TakeOut(node, c, t);
      FixupWalk(repair, e, u);
    }
  }
}
