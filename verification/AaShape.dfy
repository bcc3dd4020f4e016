/** Values describing Andersson trees: the shape of a tree with the node objects in it,
    the path from the root to a place in it, and what rotation, skew, split and the two
    repair walks do to them.  The heap structure that refines these is in AndTree. */
module AaShape {
  import opened Pointers

  datatype Dir = Left | Right

  function Other(dir: Dir): Dir {
    if dir == Left then Right else Left
  }

  datatype Shape = Nil | Node(obj: Ptr, level: nat, data: Ptr, left: Shape, right: Shape)
  {
    /** The sentinel has level 0. */
    function Level(): nat {
      if Nil? then 0 else level
    }

    function RightLevel(): nat {
      if Nil? then 0 else right.Level()
    }

    /** The Andersson invariant: the left child is exactly one level lower, the right child is
        equal or one lower, and no two consecutive right links are horizontal.  A node above
        level 1 therefore has two children. */
    predicate AA() {
      Node? ==>
        && left.AA() && right.AA()
        && left.Level() == level - 1
        && level - 1 <= right.Level() <= level
        && right.RightLevel() < level
    }

    /** Node objects, in order. */
    function Objs(): seq<Ptr> {
      if Nil? then [] else left.Objs() + [obj] + right.Objs()
    }

    /** Elements, in order. */
    function Datas(): (s: seq<Ptr>)
      ensures |s| == |Objs()|
    {
      if Nil? then [] else left.Datas() + [data] + right.Datas()
    }

    ghost function ObjSet(): set<Ptr> {
      Elems(Objs())
    }

    function Size(): nat {
      if Nil? then 0 else left.Size() + right.Size() + 1
    }

    function Height(): nat {
      if Nil? then 0
      else 1 + if left.Height() < right.Height() then right.Height() else left.Height()
    }
  }

  /** One node on the way from the root to a hole: the hole is its `dir` child, `sib` the other. */
  datatype Frame = Frame(dir: Dir, obj: Ptr, level: nat, data: Ptr, sib: Shape)
  {
    function Fill(t: Shape): Shape {
      if dir == Left then Node(obj, level, data, t, sib) else Node(obj, level, data, sib, t)
    }
  }

  /** The path from a hole up to the root. */
  datatype Ctx = Top | In(frame: Frame, up: Ctx)
  {
    function Plug(t: Shape): Shape {
      if Top? then t else up.Plug(frame.Fill(t))
    }

    /** Elements left of the hole, and right of it. */
    function Before(): seq<Ptr> {
      if Top? then []
      else if frame.dir == Left then up.Before()
      else up.Before() + (frame.sib.Datas() + [frame.data])
    }

    function After(): seq<Ptr> {
      if Top? then []
      else if frame.dir == Right then up.After()
      else ([frame.data] + frame.sib.Datas()) + up.After()
    }

    function ObjsBefore(): seq<Ptr> {
      if Top? then []
      else if frame.dir == Left then up.ObjsBefore()
      else up.ObjsBefore() + (frame.sib.Objs() + [frame.obj])
    }

    function ObjsAfter(): seq<Ptr> {
      if Top? then []
      else if frame.dir == Right then up.ObjsAfter()
      else ([frame.obj] + frame.sib.Objs()) + up.ObjsAfter()
    }

    function Append(base: Ctx): Ctx {
      if Top? then base else In(frame, up.Append(base))
    }
  }

  /** Regrouping of in-order sequences around a node `x`, as a left and as a right child's parent. */
  lemma Regroup(b: seq<Ptr>, t: seq<Ptr>, x: Ptr, s: seq<Ptr>, a: seq<Ptr>)
    ensures b + (t + [x] + s) + a == b + t + (([x] + s) + a)
    ensures b + (s + [x] + t) + a == (b + (s + [x])) + t + a
  {
  }

  lemma {:induction false} PlugDatas(c: Ctx, t: Shape)
    ensures c.Plug(t).Datas() == c.Before() + t.Datas() + c.After()
    decreases c
  {
    if c.In? {
      PlugDatas(c.up, c.frame.Fill(t));
      Regroup(c.up.Before(), t.Datas(), c.frame.data, c.frame.sib.Datas(), c.up.After());
    }
  }

  lemma {:induction false} PlugObjs(c: Ctx, t: Shape)
    ensures c.Plug(t).Objs() == c.ObjsBefore() + t.Objs() + c.ObjsAfter()
    ensures |c.ObjsBefore()| == |c.Before()| && |c.ObjsAfter()| == |c.After()|
    decreases c
  {
    if c.In? {
      PlugObjs(c.up, c.frame.Fill(t));
      Regroup(c.up.ObjsBefore(), t.Objs(), c.frame.obj, c.frame.sib.Objs(), c.up.ObjsAfter());
    }
  }

  lemma {:induction false} PlugAppend(c: Ctx, base: Ctx, t: Shape)
    ensures c.Append(base).Plug(t) == base.Plug(c.Plug(t))
    decreases c
  {
    if c.In? {
      PlugAppend(c.up, base, c.frame.Fill(t));
    }
  }

  /** Every part of a valid tree is valid. */
  lemma {:induction false} PlugAA(c: Ctx, t: Shape)
    requires c.Plug(t).AA()
    ensures t.AA()
    decreases c
  {
    if c.In? {
      PlugAA(c.up, c.frame.Fill(t));
    }
  }

  // ---------------------------------------------------------------- rotations

  function RotateRight(t: Shape): (r: Shape)
    requires t.Node? && t.left.Node?
  {
    var l := t.left;
    Node(l.obj, l.level, l.data, l.left, Node(t.obj, t.level, t.data, l.right, t.right))
  }

  function RotateLeft(t: Shape): (r: Shape)
    requires t.Node? && t.right.Node?
  {
    var r := t.right;
    Node(r.obj, r.level, r.data, Node(t.obj, t.level, t.data, t.left, r.left), r.right)
  }

  /** Remove left horizontal links at the top of the tree, all the way down its right spine. */
  function Skew(t: Shape): (r: Shape)
    decreases if t.Nil? then t else t.left
  {
    if t.Nil? || t.left.Nil? || t.left.level != t.level then t
    else
      var r := RotateRight(t);
      r.(right := Skew(r.right))
  }

  /** Break two consecutive right horizontal links, and again in the new right child. */
  function Split(t: Shape): (r: Shape)
    decreases t
  {
    if t.Nil? || t.right.Nil? || t.right.right.Level() != t.level then t
    else
      var r := RotateLeft(t);
      r.(level := r.level + 1, right := Split(r.right))
  }

  /** What the insert walk does at each node of the path. */
  function Mend(t: Shape): Shape {
    Split(Skew(t))
  }

  function MendUp(c: Ctx, t: Shape): Shape
    decreases c
  {
    if c.Top? then t else MendUp(c.up, Mend(c.frame.Fill(t)))
  }

  /** Lower a node, and its right child if that is left above it. */
  function Lower(t: Shape): Shape
    requires t.Node? && t.level > 0
  {
    var r := if t.right.Node? && t.right.level > t.level - 1 then t.right.(level := t.level - 1) else t.right;
    t.(level := t.level - 1, right := r)
  }

  predicate Sunk(t: Shape) {
    t.Node? && (t.left.Level() < t.level - 1 || t.right.Level() < t.level - 1)
  }

  /** What the removal walk does at each node of the path. */
  function Fixup(t: Shape): Shape {
    if !Sunk(t) then t
    else
      var b := Split(Skew(Lower(t)));
      Skew(b.(left := Split(b.left)))
  }

  function FixUp(c: Ctx, t: Shape): Shape
    decreases c
  {
    if c.Top? then t else FixUp(c.up, Fixup(c.frame.Fill(t)))
  }

  // ------------------------------------------------- what keeps the in-order contents

  ghost predicate SameOrder(a: Shape, b: Shape) {
    a.Objs() == b.Objs() && a.Datas() == b.Datas()
  }

  lemma {:induction false} SkewOrder(t: Shape)
    ensures SameOrder(t, Skew(t))
    decreases if t.Nil? then t else t.left
  {
    if t.Node? && t.left.Node? && t.left.level == t.level {
      SkewOrder(RotateRight(t).right);
    }
  }

  lemma {:induction false} SplitOrder(t: Shape)
    ensures SameOrder(t, Split(t))
    decreases t
  {
    if t.Node? && t.right.Node? && t.right.right.Level() == t.level {
      SplitOrder(t.right.right);
    }
  }

  lemma LowerOrder(t: Shape)
    requires t.Node? && t.level > 0
    ensures Lower(t).Objs() == t.Objs()
    ensures Lower(t).Datas() == t.Datas()
  {
    assert Lower(t).right.Objs() == t.right.Objs();
    assert Lower(t).right.Datas() == t.right.Datas();
  }

  lemma LeftOrder(t: Shape, l: Shape)
    requires t.Node? && SameOrder(t.left, l)
    ensures t.(left := l).Objs() == t.Objs()
    ensures t.(left := l).Datas() == t.Datas()
  {
  }

  lemma FixupOrder(t: Shape)
    ensures SameOrder(t, Fixup(t))
  {
    if Sunk(t) {
      var a := Lower(t);
      LowerOrder(t);
      SkewOrder(a);
      SplitOrder(Skew(a));
      var b := Split(Skew(a));
      SplitOrder(b.left);
      LeftOrder(b, Split(b.left));
      SkewOrder(b.(left := Split(b.left)));
    }
  }

  lemma PlugOrder(c: Ctx, a: Shape, b: Shape)
    requires SameOrder(a, b)
    ensures SameOrder(c.Plug(a), c.Plug(b))
  {
    PlugObjs(c, a); PlugObjs(c, b);
    PlugDatas(c, a); PlugDatas(c, b);
  }

  lemma {:induction false} MendUpOrder(c: Ctx, t: Shape)
    ensures SameOrder(c.Plug(t), MendUp(c, t))
    decreases c
  {
    if c.In? {
      var s := c.frame.Fill(t);
      SkewOrder(s);
      SplitOrder(Skew(s));
      PlugOrder(c.up, s, Mend(s));
      MendUpOrder(c.up, Mend(s));
    }
  }

  lemma {:induction false} FixUpOrder(c: Ctx, t: Shape)
    ensures SameOrder(c.Plug(t), FixUp(c, t))
    decreases c
  {
    if c.In? {
      var s := c.frame.Fill(t);
      FixupOrder(s);
      PlugOrder(c.up, s, Fixup(s));
      FixUpOrder(c.up, Fixup(s));
    }
  }

  // ------------------------------------------------- the balance invariant, insertion

  /** A subtree after an insertion below it: valid, at most one level higher, and higher only if
      its top was horizontal to the right before and is not any more. */
  ghost predicate Grown(old_: Shape, new_: Shape) {
    && new_.AA() && new_.Node?
    && old_.Level() <= new_.Level() <= old_.Level() + 1
    && (new_.Level() > old_.Level() ==> old_.RightLevel() == old_.Level() && new_.RightLevel() < new_.Level())
  }

  /** Skew and split leave a valid tree alone. */
  lemma Settled(t: Shape)
    requires t.AA()
    ensures Skew(t) == t && Split(t) == t
  {
  }

  lemma SkewOnce(t: Shape)
    requires t.Node? && t.left.Node? && t.left.level == t.level && t.left.RightLevel() != t.level
    ensures Skew(t) == RotateRight(t)
  {
    var n := RotateRight(t).right;
    assert Skew(n) == n;
  }

  lemma SplitOnce(t: Shape)
    requires t.Node? && t.right.Node? && t.right.right.Level() == t.level && t.right.right.AA()
    ensures var r := RotateLeft(t); Split(t) == r.(level := r.level + 1)
  {
    Settled(t.right.right);
  }

  lemma MendLeft(t: Shape, d: Shape)
    requires t.Node? && t.AA() && Grown(t.left, d)
    ensures Grown(t, Mend(t.(left := d)))
  {
    var s := t.(left := d);
    if d.Level() == t.level {
      SkewOnce(s);
      var k := RotateRight(s);
      if k.right.right.Level() == k.level {
        SplitOnce(k);
      }
    } else {
      Settled(s);
    }
  }

  lemma MendRight(t: Shape, d: Shape)
    requires t.Node? && t.AA() && Grown(t.right, d)
    ensures Grown(t, Mend(t.(right := d)))
  {
    var s := Node(t.obj, t.level, t.data, t.left, d);
    assert Skew(s) == s;
    if d.right.Level() == s.level {
      SplitOnce(s);
      assert d.level == t.level;
      assert d.left.AA() && d.left.RightLevel() <= d.left.Level();
      var n := Node(t.obj, t.level, t.data, t.left, d.left);
      assert n.AA();
      var r := Node(d.obj, d.level + 1, d.data, n, d.right);
      assert Split(s) == r;
      assert r.AA();
    } else {
      assert Split(s) == s;
      assert s.AA();
    }
  }

  /** Insertion's walk restores the invariant along the whole path. */
  lemma {:induction false} MendUpAA(c: Ctx, a: Shape, b: Shape)
    requires c.Plug(a).AA() && Grown(a, b)
    ensures MendUp(c, b).AA()
    ensures Grown(c.Plug(a), MendUp(c, b))
    decreases c
  {
    if c.In? {
      PlugAA(c.up, c.frame.Fill(a));
      if c.frame.dir == Left {
        MendLeft(c.frame.Fill(a), b);
      } else {
        MendRight(c.frame.Fill(a), b);
      }
      MendUpAA(c.up, c.frame.Fill(a), Mend(c.frame.Fill(b)));
    }
  }

  // ------------------------------------------------- the balance invariant, removal

  /** A subtree after a removal below it: valid, at most one level lower, and with a horizontal
      right link on top only if it sank or had one before. */
  ghost predicate Shrunk(old_: Shape, new_: Shape) {
    && new_.AA() && old_.Node?
    && old_.Level() - 1 <= new_.Level() <= old_.Level()
    && (new_.Level() == old_.Level() && old_.RightLevel() < old_.Level() ==> new_.RightLevel() < new_.Level())
  }

  /** The split of the left child and the last skew, when the first split left a right
      horizontal link `n -> x` below the left child. */
  lemma FixupTail(e: Shape)
    requires e.Node? && e.left.Node? && e.right.AA()
    requires e.level == e.left.level + 1 && e.right.Level() == e.level - 1
    requires e.left.left.AA() && e.left.left.Level() == e.left.level - 1
    requires e.left.right.Node? && e.left.right.AA() && e.left.right.level == e.left.level
    requires e.left.right.right.Level() == e.left.level
    ensures var r := Skew(e.(left := Split(e.left)));
            r.AA() && r.level == e.level && r.RightLevel() == e.level
  {
    var x := e.left.right;
    SplitOnce(e.left);
    var l := Split(e.left);
    var n := Node(e.left.obj, e.left.level, e.left.data, e.left.left, x.left);
    assert n.AA();
    assert l == Node(x.obj, x.level + 1, x.data, n, x.right);
    var f := e.(left := l);
    SkewOnce(f);
    assert RotateRight(f).right.AA();
  }

  /** The rest of the repair where the lowered node has two right horizontal links below it. */
  lemma FixupLeftTwo(a: Shape)
    requires a.Node? && a.left.AA() && a.level == a.left.Level() + 1
    requires a.right.Node? && a.right.level == a.level && a.right.left.AA() && a.right.right.AA()
    requires a.right.right.Level() == a.level
    requires a.level - 1 <= a.right.left.Level() <= a.level
    ensures var b := Split(a);
            b.Node? && var e := Skew(b.(left := Split(b.left)));
                       && e.AA() && e.Level() == a.level + 1
                       && (e.RightLevel() == e.Level() ==> a.right.left.Level() == a.level)
  {
    SplitOnce(a);
    var r := a.right;
    var x := r.left;
    var n := Node(a.obj, a.level, a.data, a.left, x);
    var b := Node(r.obj, r.level + 1, r.data, n, r.right);
    assert Split(a) == b;
    if x.Level() == a.level && x.right.Level() == a.level {
      FixupTail(b);
    } else {
      assert b.left.AA();
      Settled(b.left);
      assert b.AA();
      Settled(b);
    }
  }

  lemma FixupLeft(t: Shape, d: Shape)
    requires t.AA() && t.Node? && Shrunk(t.left, d)
    ensures Shrunk(t, Fixup(t.(left := d)))
  {
    var s := t.(left := d);
    if Sunk(s) {
      var a := Lower(s);
      assert Skew(a) == a;
      var r := a.right;
      assert r.right == t.right.right && r.left == t.right.left;
      assert d.AA() && d.Level() == a.level - 1;
      if r.right.Level() == a.level {
        FixupLeftTwo(a);
      } else {
        assert a.AA();
        Settled(a);
        Settled(d);
      }
    }
  }

  /** The lowered node is skewed below its left child `l`; `l` has no horizontal right link. */
  lemma FixupRightOne(a: Shape)
    requires a.Node? && a.left.Node? && a.left.AA() && a.right.AA()
    requires a.left.level == a.level == a.right.Level() + 1
    requires a.left.RightLevel() != a.level
    ensures var b := Skew(a); b.AA() && b.Level() == a.level && Split(b) == b
  {
    SkewOnce(a);
    var l := a.left;
    var n := Node(a.obj, a.level, a.data, l.right, a.right);
    assert n.AA();
    var b := Node(l.obj, l.level, l.data, l.left, n);
    assert Skew(a) == b && b.AA();
    Settled(b);
  }

  /** The same when `l` had a horizontal right link: two rotations, and a split. */
  lemma FixupRightTwo(a: Shape)
    requires a.Node? && a.left.Node? && a.left.AA() && a.right.AA()
    requires a.left.level == a.level == a.right.Level() + 1
    requires a.left.RightLevel() == a.level
    ensures var b := Split(Skew(a)); b.AA() && b.Level() == a.level + 1 && b.RightLevel() == a.level
  {
    var l := a.left;
    var x := l.right;
    var n := Node(a.obj, a.level, a.data, x, a.right);
    assert x.right.AA() && x.right.RightLevel() <= x.right.Level();
    var m := Node(a.obj, a.level, a.data, x.right, a.right);
    assert m.AA();
    SkewOnce(n);
    var k := Node(l.obj, l.level, l.data, l.left, Node(x.obj, x.level, x.data, x.left, m));
    assert Skew(a) == k;
    SplitOnce(k);
    assert x.left.AA() && x.left.RightLevel() <= x.left.Level();
    var h := Node(l.obj, l.level, l.data, l.left, x.left);
    assert h.AA();
    assert Split(k) == Node(x.obj, x.level + 1, x.data, h, m);
  }

  lemma FixupRight(t: Shape, d: Shape)
    requires t.AA() && t.Node? && Shrunk(t.right, d)
    ensures Shrunk(t, Fixup(t.(right := d)))
  {
    var s := t.(right := d);
    if Sunk(s) {
      var a := Node(t.obj, t.level - 1, t.data, t.left, d);
      assert Lower(s) == a;
      if a.left.RightLevel() == a.level {
        FixupRightTwo(a);
      } else {
        FixupRightOne(a);
      }
      var b := Split(Skew(a));
      assert b.left.AA();
      Settled(b.left);
      Settled(b);
    }
  }

  /** Removal's own sequence - lower, skew, split, split the left child, skew - restores the
      invariant along the whole path. */
  lemma {:induction false} FixUpAA(c: Ctx, a: Shape, b: Shape)
    requires c.Plug(a).AA() && Shrunk(a, b)
    ensures FixUp(c, b).AA()
    ensures Shrunk(c.Plug(a), FixUp(c, b))
    decreases c
  {
    if c.In? {
      var t := c.frame.Fill(a);
      PlugAA(c.up, t);
      if c.frame.dir == Left {
        FixupLeft(t, b);
      } else {
        FixupRight(t, b);
      }
      FixUpAA(c.up, t, Fixup(c.frame.Fill(b)));
    }
  }

  // ------------------------------------------------- what removal takes out

  /** A part of a valid tree replaced by a valid one of the same levels. */
  lemma {:induction false} PlugSameLevels(c: Ctx, a: Shape, b: Shape)
    requires c.Plug(a).AA() && b.AA() && b.Level() == a.Level() && b.RightLevel() == a.RightLevel()
    ensures c.Plug(b).AA()
    decreases c
  {
    if c.In? {
      PlugAA(c.up, c.frame.Fill(a));
      PlugSameLevels(c.up, c.frame.Fill(a), c.frame.Fill(b));
    }
  }

  /** All frames of the path go down the `dir` side. */
  predicate Spine(c: Ctx, dir: Dir) {
    c.In? ==> c.frame.dir == dir && Spine(c.up, dir)
  }

  lemma {:induction false} SpineOrder(c: Ctx, dir: Dir)
    requires Spine(c, dir)
    ensures dir == Right ==> c.After() == [] && c.ObjsAfter() == []
    ensures dir == Left ==> c.Before() == [] && c.ObjsBefore() == []
    decreases c
  {
    if c.In? { SpineOrder(c.up, dir); }
  }

  /** A node with no child on one side is at level 1, and can be replaced by the other child. */
  lemma SpliceOut(t: Shape)
    requires t.Node? && t.AA() && (t.left.Nil? || t.right.Nil?)
    ensures t.level == 1 && t.left.Nil?
    ensures Shrunk(t, t.right)
  {
  }

  /** In-order contents around a node in a tree. */
  lemma PlugNode(c: Ctx, n: Shape)
    requires n.Node?
    ensures c.Plug(n).Datas() == (c.Before() + n.left.Datas()) + [n.data] + (n.right.Datas() + c.After())
    ensures c.Plug(n).Objs() == (c.ObjsBefore() + n.left.Objs()) + [n.obj] + (n.right.Objs() + c.ObjsAfter())
  {
    PlugDatas(c, n);
    PlugObjs(c, n);
    Flatten(c.Before(), n.left.Datas(), n.data, n.right.Datas(), c.After());
    Flatten(c.ObjsBefore(), n.left.Objs(), n.obj, n.right.Objs(), c.ObjsAfter());
  }

  lemma Flatten(b: seq<Ptr>, l: seq<Ptr>, x: Ptr, r: seq<Ptr>, a: seq<Ptr>)
    ensures b + (l + [x] + r) + a == (b + l) + [x] + (r + a)
  {
  }

  lemma Assoc(a: seq<Ptr>, b: seq<Ptr>, c: seq<Ptr>)
    ensures (a + b) + c == a + (b + c)
  {
  }

  /** The path to `x` below `node`, once the data of `node` is that of `x`. */
  ghost function Via(c: Ctx, node: Shape, dir: Dir, rel: Ctx, x: Shape): Ctx
    requires node.Node? && x.Node?
  {
    rel.Append(In(Frame(dir, node.obj, node.level, x.data, if dir == Left then node.right else node.left), c))
  }

  lemma ViaPlug(c: Ctx, node: Shape, dir: Dir, rel: Ctx, x: Shape, t: Shape)
    requires node.Node? && x.Node?
    ensures Via(c, node, dir, rel, x).Plug(t) ==
            c.Plug(if dir == Left then Node(node.obj, node.level, x.data, rel.Plug(t), node.right)
                   else Node(node.obj, node.level, x.data, node.left, rel.Plug(t)))
  {
    PlugAppend(rel, In(Frame(dir, node.obj, node.level, x.data, if dir == Left then node.right else node.left), c), t);
  }

  /** Taking the end `x` of the left or right subtree's inner spine out of a valid tree, its data
      going to `node`: the walk restores the invariant. */
  lemma RemovedAA(c: Ctx, node: Shape, dir: Dir, rel: Ctx, x: Shape)
    requires c.Plug(node).AA() && node.Node? && x.Node? && (x.left.Nil? || x.right.Nil?)
    requires rel.Plug(x) == if dir == Left then node.left else node.right
    ensures FixUp(Via(c, node, dir, rel, x), x.right).AA() && x.left.Nil?
  {
    PlugAA(c, node);
    PlugAA(rel, x);
    SpliceOut(x);
    PlugSameLevels(c, node, node.(data := x.data));
    ViaPlug(c, node, dir, rel, x, x);
    FixUpAA(Via(c, node, dir, rel, x), x, x.right);
  }

  /** The last node `x` of a subtree's right spine, and the subtree without it. */
  lemma SpineEnd(rel: Ctx, x: Shape)
    requires Spine(rel, Right) && x.Node? && x.left.Nil? && x.right.Nil?
    ensures rel.Plug(x).Datas() == rel.Plug(x.right).Datas() + [x.data]
    ensures rel.Plug(x).Objs() == rel.Plug(x.right).Objs() + [x.obj]
  {
    SpineOrder(rel, Right);
    Leaf(x);
    PlugDatas(rel, x); PlugDatas(rel, Nil);
    Units(rel.Before(), [x.data]);
    PlugObjs(rel, x); PlugObjs(rel, Nil);
    Units(rel.ObjsBefore(), [x.obj]);
  }

  lemma Units(b: seq<Ptr>, m: seq<Ptr>)
    ensures b + m + [] == b + m && b + [] + [] == b && [] + m + b == m + b && [] + m == m
  {
  }

  lemma Leaf(x: Shape)
    requires x.Node? && x.left.Nil?
    ensures x.Datas() == [x.data] + x.right.Datas() && x.Objs() == [x.obj] + x.right.Objs()
    ensures x.right.Nil? ==> x.Datas() == [x.data] && x.Objs() == [x.obj]
  {
    Units([], [x.data]);
    Units([], [x.obj]);
  }

  /** The first node `x` of a subtree's left spine, and the subtree without it. */
  lemma SpineStart(rel: Ctx, x: Shape)
    requires Spine(rel, Left) && x.Node? && x.left.Nil?
    ensures rel.Plug(x).Datas() == [x.data] + rel.Plug(x.right).Datas()
    ensures rel.Plug(x).Objs() == [x.obj] + rel.Plug(x.right).Objs()
  {
    SpineOrder(rel, Left);
    Leaf(x);
    PlugDatas(rel, x); PlugDatas(rel, x.right);
    Units(rel.After(), x.Datas());
    Units(rel.After(), x.right.Datas());
    Assoc([x.data], x.right.Datas(), rel.After());
    PlugObjs(rel, x); PlugObjs(rel, x.right);
    Units(rel.ObjsAfter(), x.Objs());
    Units(rel.ObjsAfter(), x.right.Objs());
    Assoc([x.obj], x.right.Objs(), rel.ObjsAfter());
  }

  /** The elements before and after the one at `node` are left, in their order; of the nodes, `x`
      is gone. */
  lemma RemovedLeftOrder(c: Ctx, node: Shape, rel: Ctx, x: Shape)
    requires node.Node? && x.Node? && x.left.Nil? && x.right.Nil? && Spine(rel, Right) && node.left == rel.Plug(x)
    ensures var r := FixUp(Via(c, node, Left, rel, x), x.right);
            && r.Datas() == (c.Before() + node.left.Datas()) + (node.right.Datas() + c.After())
            && r.Objs() == (c.ObjsBefore() + rel.Plug(x.right).Objs()) + [node.obj]
                           + (node.right.Objs() + c.ObjsAfter())
            && node.left.Objs() == rel.Plug(x.right).Objs() + [x.obj]
  {
    FixUpOrder(Via(c, node, Left, rel, x), x.right);
    ViaPlug(c, node, Left, rel, x, x.right);
    SpineEnd(rel, x);
    PlugNode(c, Node(node.obj, node.level, x.data, rel.Plug(x.right), node.right));
    Assoc(c.Before(), rel.Plug(x.right).Datas(), [x.data]);
  }

  lemma RemovedRightOrder(c: Ctx, node: Shape, rel: Ctx, x: Shape)
    requires node.Node? && x.Node? && x.left.Nil? && node.left.Nil? && Spine(rel, Left) && node.right == rel.Plug(x)
    ensures var r := FixUp(Via(c, node, Right, rel, x), x.right);
            && r.Datas() == (c.Before() + node.left.Datas()) + (node.right.Datas() + c.After())
            && r.Objs() == (c.ObjsBefore() + node.left.Objs()) + [node.obj] + (rel.Plug(x.right).Objs() + c.ObjsAfter())
            && node.right.Objs() == [x.obj] + rel.Plug(x.right).Objs()
  {
    FixUpOrder(Via(c, node, Right, rel, x), x.right);
    ViaPlug(c, node, Right, rel, x, x.right);
    SpineStart(rel, x);
    PlugNode(c, Node(node.obj, node.level, x.data, node.left, rel.Plug(x.right)));
    var b := c.Before() + node.left.Datas();
    Assoc(b, [x.data], rel.Plug(x.right).Datas() + c.After());
    Assoc([x.data], rel.Plug(x.right).Datas(), c.After());
  }

  /** Removal of the element at `node` through its neighbour `x`. */
  lemma Removed(c: Ctx, node: Shape, dir: Dir, rel: Ctx, x: Shape)
    requires c.Plug(node).AA() && node.Node? && x.Node? && Spine(rel, Other(dir))
    requires rel.Plug(x) == if dir == Left then node.left else node.right
    requires if dir == Left then x.right.Nil? else x.left.Nil? && node.left.Nil?
    ensures var r := FixUp(Via(c, node, dir, rel, x), x.right);
            && x.left.Nil? && r.AA()
            && r.Datas() == (c.Before() + node.left.Datas()) + (node.right.Datas() + c.After())
  {
    RemovedAA(c, node, dir, rel, x);
    if dir == Left {
      RemovedLeftOrder(c, node, rel, x);
    } else {
      RemovedRightOrder(c, node, rel, x);
    }
  }

  /** Removal of the element at a node without children. */
  lemma RemovedLeaf(c: Ctx, node: Shape)
    requires c.Plug(node).AA() && node.Node? && node.left.Nil? && node.right.Nil?
    ensures FixUp(c, Nil).AA()
    ensures FixUp(c, Nil).Datas() == (c.Before() + node.left.Datas()) + (node.right.Datas() + c.After())
  {
    PlugAA(c, node);
    SpliceOut(node);
    FixUpAA(c, node, Nil);
    FixUpOrder(c, Nil);
    PlugDatas(c, Nil);
    Units(c.Before(), []);
    Units(c.After(), []);
  }

  /** The sequence without position `j`. */
  ghost function Cut(s: seq<Ptr>, j: int): seq<Ptr> {
    if 0 <= j < |s| then s[..j] + s[j + 1..] else s
  }

  /** `s'` is `s` without position `j`, where `x` is. */
  ghost predicate Lacks(s: seq<Ptr>, s': seq<Ptr>, j: int, x: Ptr) {
    forall z {:trigger Inside(z)} :: Inside(z) ==> 0 <= j < |s| && s[j] == x && s' == Cut(s, j)
  }

  /** The position, in the in-order sequence of nodes, of the node that a removal frees: the one before
      the node with the element, if it has a left child, else the one behind if it has a right
      child, else its own. */
  ghost function SparePos(c: Ctx, node: Shape): int
    requires node.Node?
  {
    |c.ObjsBefore()| + |node.left.Objs()| + if node.left.Node? then -1 else if node.right.Node? then 1 else 0
  }

  lemma CutBefore(b: seq<Ptr>, l: seq<Ptr>, x: Ptr, n: Ptr, a: seq<Ptr>)
    ensures var s, j := (b + (l + [x])) + [n] + a, |b| + |l|; j < |s| && s[j] == x && Cut(s, j) == (b + l) + [n] + a
  {
  }

  lemma CutBehind(b: seq<Ptr>, n: Ptr, x: Ptr, r: seq<Ptr>, a: seq<Ptr>)
    ensures var s, j := b + [n] + (([x] + r) + a), |b| + 1; j < |s| && s[j] == x && Cut(s, j) == b + [n] + (r + a)
  {
  }

  lemma CutAt(b: seq<Ptr>, n: Ptr, a: seq<Ptr>)
    ensures var s, j := b + [n] + a, |b|; j < |s| && s[j] == n && Cut(s, j) == b + a
  {
  }

  /** The nodes after a removal through the neighbour `x`: all but `x`, in order. */
  lemma RemovedObjs(c: Ctx, node: Shape, dir: Dir, rel: Ctx, x: Shape)
    requires c.Plug(node).AA() && node.Node? && x.Node? && Spine(rel, Other(dir))
    requires rel.Plug(x) == if dir == Left then node.left else node.right
    requires if dir == Left then x.right.Nil? else x.left.Nil? && node.left.Nil?
    ensures var r, s, j := FixUp(Via(c, node, dir, rel, x), x.right), c.Plug(node).Objs(), SparePos(c, node);
            0 <= j < |s| && s[j] == x.obj && r.Objs() == Cut(s, j)
  {
    Removed(c, node, dir, rel, x);
    if dir == Left { RemovedLeftObjs(c, node, rel, x); } else { RemovedRightObjs(c, node, rel, x); }
  }

  lemma RemovedLeftObjs(c: Ctx, node: Shape, rel: Ctx, x: Shape)
    requires node.Node? && x.Node? && x.left.Nil? && x.right.Nil? && Spine(rel, Right) && node.left == rel.Plug(x)
    ensures var r, s, j := FixUp(Via(c, node, Left, rel, x), x.right), c.Plug(node).Objs(), SparePos(c, node);
            0 <= j < |s| && s[j] == x.obj && r.Objs() == Cut(s, j)
  {
    PlugNode(c, node);
    PlugIsNode(rel, x);
    RemovedLeftOrder(c, node, rel, x);
    var l, a := rel.Plug(x.right).Objs(), node.right.Objs() + c.ObjsAfter();
    assert node.left.Objs() == l + [x.obj];
    CutBefore(c.ObjsBefore(), l, x.obj, node.obj, a);
    assert SparePos(c, node) == |c.ObjsBefore()| + |l|;
  }

  lemma RemovedRightObjs(c: Ctx, node: Shape, rel: Ctx, x: Shape)
    requires node.Node? && x.Node? && x.left.Nil? && node.left.Nil? && Spine(rel, Left) && node.right == rel.Plug(x)
    ensures var r, s, j := FixUp(Via(c, node, Right, rel, x), x.right), c.Plug(node).Objs(), SparePos(c, node);
            0 <= j < |s| && s[j] == x.obj && r.Objs() == Cut(s, j)
  {
    PlugNode(c, node);
    PlugIsNode(rel, x);
    RemovedRightOrder(c, node, rel, x);
    CutBehind(c.ObjsBefore() + node.left.Objs(), node.obj, x.obj, rel.Plug(x.right).Objs(), c.ObjsAfter());
  }

  lemma {:induction false} PlugIsNode(c: Ctx, t: Shape)
    requires t.Node?
    ensures c.Plug(t).Node?
    decreases c
  {
    if c.In? { PlugIsNode(c.up, c.frame.Fill(t)); }
  }

  lemma RemovedLeafObjs(c: Ctx, node: Shape)
    requires node.Node? && node.left.Nil? && node.right.Nil?
    ensures var s, j := c.Plug(node).Objs(), SparePos(c, node);
            0 <= j < |s| && s[j] == node.obj && FixUp(c, Nil).Objs() == Cut(s, j)
  {
    FixUpOrder(c, Nil);
    PlugObjs(c, Nil);
    Units(c.ObjsBefore(), []);
    PlugObjs(c, node);
    CutAt(c.ObjsBefore(), node.obj, c.ObjsAfter());
  }
}
