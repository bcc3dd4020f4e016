/** Keys: what the in-order sequence of a tree means when its elements have keys. */
module AaOrder {
  import opened Pointers
  import opened AaShape

  /** The value an element's key has at the time of a call. */
  type Key = Ptr -> int

  const MIN64: int := -0x8000_0000_0000_0000
  const MAX64: int := 0x7fff_ffff_ffff_ffff

  /** The difference of two keys as the 64-bit subtraction computes it. */
  function Diff64(a: int, b: int): (d: int)
    ensures Fits(a, b) ==> d == a - b
  {
    (a - b - MIN64) % 0x1_0000_0000_0000_0000 + MIN64
  }

  predicate Fits(a: int, b: int) {
    MIN64 <= a - b <= MAX64
  }

  /** No comparison of `k` with the key of an element of `s` overflows. */
  ghost predicate AllFit(s: seq<Ptr>, key: Key, k: int) {
    forall x :: x in s ==> Fits(k, key(x))
  }

  /** `i` is before `j` in `s`; a name for pairs, for Sorted to be used only where one is named. */
  ghost predicate Before(s: seq<Ptr>, i: int, j: int) {
    0 <= i < j < |s|
  }

  ghost predicate Sorted(s: seq<Ptr>, key: Key) {
    forall i, j {:trigger Before(s, i, j)} :: Before(s, i, j) ==> key(s[i]) <= key(s[j])
  }

  /** Sorted insertion behind all elements with the same key. */
  function StableInsert(s: seq<Ptr>, x: Ptr, key: Key): (r: seq<Ptr>)
    ensures |r| == |s| + 1
  {
    if s == [] || key(x) < key(s[0]) then [x] + s
    else [s[0]] + StableInsert(s[1..], x, key)
  }

  lemma SortedConcat(a: seq<Ptr>, b: seq<Ptr>, key: Key)
    ensures Sorted(a + b, key) <==>
            Sorted(a, key) && Sorted(b, key) && forall x, y :: x in a && y in b ==> key(x) <= key(y)
  {
    var s := a + b;
    if Sorted(s, key) {
      forall i, j | Before(a, i, j) ensures key(a[i]) <= key(a[j]) { assert Before(s, i, j); }
      forall i, j | Before(b, i, j) ensures key(b[i]) <= key(b[j]) { assert Before(s, |a| + i, |a| + j); }
      forall x, y | x in a && y in b ensures key(x) <= key(y) {
        var i :| 0 <= i < |a| && a[i] == x;
        var j :| 0 <= j < |b| && b[j] == y;
        assert Before(s, i, |a| + j);
      }
    }
    if Sorted(a, key) && Sorted(b, key) && (forall x, y :: x in a && y in b ==> key(x) <= key(y)) {
      forall i, j | Before(s, i, j) ensures key(s[i]) <= key(s[j]) {
        if j < |a| {
          assert Before(a, i, j);
        } else if |a| <= i {
          assert Before(b, i - |a|, j - |a|);
        } else {
          var x, y := a[i], b[j - |a|];
          assert x in a && y in b;
        }
      }
    }
  }

  /** The sorted sequences around a new element. */
  ghost predicate Around(b: seq<Ptr>, x: Ptr, a: seq<Ptr>, key: Key) {
    && (forall y :: y in b ==> key(y) <= key(x))
    && (forall y :: y in a ==> key(x) < key(y))
  }

  lemma {:induction false} StableInsertAt(b: seq<Ptr>, a: seq<Ptr>, x: Ptr, key: Key)
    requires Around(b, x, a, key)
    ensures StableInsert(b + a, x, key) == b + [x] + a
  {
    if b == [] {
      assert b + a == a;
      assert b + [x] + a == [x] + a;
      if a != [] {
        var y := a[0];
        assert y in a && key(x) < key(y);
      }
      assert StableInsert(a, x, key) == [x] + a;
    } else {
      assert (b + a)[0] == b[0] && b[0] in b && (b + a)[1..] == b[1..] + a;
      StableInsertAt(b[1..], a, x, key);
      assert StableInsert(b + a, x, key) == [b[0]] + StableInsert(b[1..] + a, x, key);
      assert [b[0]] + (b[1..] + [x] + a) == b + [x] + a;
    }
  }

  lemma {:induction false} Divide(s: seq<Ptr>, x: Ptr, key: Key) returns (b: seq<Ptr>, a: seq<Ptr>)
    requires Sorted(s, key)
    ensures s == b + a && Around(b, x, a, key)
  {
    if s == [] {
      b, a := [], [];
    } else {
      var h, u := [s[0]], s[1..];
      assert s == h + u;
      SortedConcat(h, u, key);
      assert s[0] in h;
      if key(x) < key(s[0]) {
        b, a := [], s;
        forall y | y in s ensures key(x) < key(y) {
          assert y == s[0] || y in u;
        }
      } else {
        var b0;
        b0, a := Divide(u, x, key);
        Assoc(h, b0, a);
        b := h + b0;
        forall y | y in b ensures key(y) <= key(x) {
          assert y == s[0] || y in b0;
        }
      }
    }
  }

  /** Stable insertion keeps a sorted sequence sorted, and puts the new element behind exactly the
      elements whose keys are not greater. */
  lemma StableInsertSorted(s: seq<Ptr>, x: Ptr, key: Key)
    requires Sorted(s, key)
    ensures Sorted(StableInsert(s, x, key), key)
    ensures exists b, a {:trigger Around(b, x, a, key)} ::
              s == b + a && Around(b, x, a, key) && StableInsert(s, x, key) == b + [x] + a
  {
    var b, a := Divide(s, x, key);
    StableInsertAt(b, a, x, key);
    SortedConcat(b, a, key);
    SortedConcat(b, [x], key);
    SortedConcat(b + [x], a, key);
  }

  /** In a sorted tree, what lies left of a place is not above what lies right of it. */
  lemma SortedParts(c: Ctx, t: Shape, key: Key)
    requires t.Node? && Sorted(c.Plug(t).Datas(), key)
    ensures forall x :: x in t.left.Datas() ==> key(x) <= key(t.data)
    ensures forall x :: x in t.right.Datas() ==> key(t.data) <= key(x)
    ensures Sorted(t.Datas(), key)
  {
    PlugDatas(c, t);
    SortedConcat(c.Before() + t.Datas(), c.After(), key);
    SortedConcat(c.Before(), t.Datas(), key);
    SortedNode(t, key);
  }

  lemma SortedNode(t: Shape, key: Key)
    requires t.Node?
    ensures Sorted(t.Datas(), key) ==>
              && Sorted(t.left.Datas(), key) && Sorted(t.right.Datas(), key)
              && (forall x :: x in t.left.Datas() ==> key(x) <= key(t.data))
              && (forall x :: x in t.right.Datas() ==> key(t.data) <= key(x))
  {
    SortedConcat(t.left.Datas() + [t.data], t.right.Datas(), key);
    SortedConcat(t.left.Datas(), [t.data], key);
    assert t.data in [t.data];
  }

  /** One step down the search path of a new element keeps it around the place it goes to. */
  lemma DescendOrder(c: Ctx, t: Shape, dir: Dir, x: Ptr, key: Key)
    requires t.Node? && Sorted(c.Plug(t).Datas(), key) && AllFit(c.Plug(t).Datas(), key, key(x))
    requires Around(c.Before(), x, c.After(), key)
    requires dir == if Diff64(key(x), key(t.data)) < 0 then Left else Right
    ensures var sib := if dir == Left then t.right else t.left;
            var d := In(Frame(dir, t.obj, t.level, t.data, sib), c);
            Around(d.Before(), x, d.After(), key)
  {
    PlugDatas(c, t);
    assert t.data in t.Datas();
    assert t.data in c.Plug(t).Datas();
    SortedParts(c, t, key);
  }

  /** Only the keys of the elements of a sequence matter to its order. */
  lemma SortedSame(s: seq<Ptr>, k1: Key, k2: Key)
    requires forall x :: x in s ==> k1(x) == k2(x)
    ensures Sorted(s, k1) <==> Sorted(s, k2)
  {
    forall i | 0 <= i < |s| ensures k1(s[i]) == k2(s[i]) { var x := s[i]; assert x in s; }
    assert Sorted(s, k1) ==> forall i, j | Before(s, i, j) :: k1(s[i]) <= k1(s[j]);
  }

  lemma {:induction false} StableInsertSame(s: seq<Ptr>, x: Ptr, k1: Key, k2: Key)
    requires forall y :: y in s + [x] ==> k1(y) == k2(y)
    ensures StableInsert(s, x, k1) == StableInsert(s, x, k2)
  {
    assert x in s + [x];
    if s != [] {
      var h := s[0];
      assert h in s + [x];
      StableInsertSame(s[1..], x, k1, k2);
    }
  }

  lemma {:induction false} StableInsertElems(s: seq<Ptr>, x: Ptr, key: Key)
    ensures multiset(StableInsert(s, x, key)) == multiset(s) + multiset{x}
  {
    if s != [] && key(x) >= key(s[0]) {
      StableInsertElems(s[1..], x, key);
      assert s == [s[0]] + s[1..];
    }
  }

  /** Insertion of `xs`, one after the other. */
  function InsertAll(s: seq<Ptr>, xs: seq<Ptr>, key: Key): (r: seq<Ptr>)
    ensures |r| == |s| + |xs|
  {
    if xs == [] then s
    else StableInsert(InsertAll(s, xs[..|xs| - 1], key), xs[|xs| - 1], key)
  }

  lemma InsertAllSnoc(s: seq<Ptr>, xs: seq<Ptr>, x: Ptr, key: Key)
    ensures InsertAll(s, xs + [x], key) == StableInsert(InsertAll(s, xs, key), x, key)
  {
    assert (xs + [x])[..|xs|] == xs;
  }

  lemma {:induction false} InsertAllAppend(s: seq<Ptr>, xs: seq<Ptr>, ys: seq<Ptr>, key: Key)
    ensures InsertAll(InsertAll(s, xs, key), ys, key) == InsertAll(s, xs + ys, key)
  {
    if ys == [] {
      assert xs + ys == xs;
    } else {
      var n := |ys| - 1;
      InsertAllAppend(s, xs, ys[..n], key);
      InsertAllSnoc(s, xs + ys[..n], ys[n], key);
      assert xs + ys == (xs + ys[..n]) + [ys[n]];
    }
  }

  lemma {:induction false} InsertAllSorted(s: seq<Ptr>, xs: seq<Ptr>, key: Key)
    requires Sorted(s, key)
    ensures Sorted(InsertAll(s, xs, key), key)
    ensures multiset(InsertAll(s, xs, key)) == multiset(s) + multiset(xs)
  {
    if xs != [] {
      var r, x := InsertAll(s, xs[..|xs| - 1], key), xs[|xs| - 1];
      InsertAllSorted(s, xs[..|xs| - 1], key);
      StableInsertSorted(r, x, key);
      StableInsertElems(r, x, key);
      assert xs == xs[..|xs| - 1] + [x];
    }
  }

  lemma {:induction false} InsertAllSame(s: seq<Ptr>, xs: seq<Ptr>, k1: Key, k2: Key)
    requires forall y :: y in s || y in xs ==> k1(y) == k2(y)
    requires Sorted(s, k1)
    ensures InsertAll(s, xs, k1) == InsertAll(s, xs, k2)
  {
    if xs != [] {
      var r, x := InsertAll(s, xs[..|xs| - 1], k1), xs[|xs| - 1];
      InsertAllSame(s, xs[..|xs| - 1], k1, k2);
      InsertAllSorted(s, xs[..|xs| - 1], k1);
      forall y | y in r + [x] ensures k1(y) == k2(y) {
        if y in r { assert y in multiset(r); assert y in s || y in xs[..|xs| - 1]; }
      }
      StableInsertSame(r, x, k1, k2);
    }
  }

  /** The earliest of the elements with the least key. */
  function FirstMin(s: seq<Ptr>, key: Key): Ptr
    requires s != []
  {
    var x := s[|s| - 1];
    if |s| == 1 then x
    else
      var m := FirstMin(s[..|s| - 1], key);
      if key(x) < key(m) then x else m
  }

  lemma {:induction false} FirstMinIsFirst(s: seq<Ptr>, key: Key) returns (i: nat)
    requires s != []
    ensures i < |s| && s[i] == FirstMin(s, key)
    ensures forall j :: 0 <= j < |s| ==> key(s[i]) <= key(s[j])
    ensures forall j :: 0 <= j < i ==> key(s[i]) < key(s[j])
  {
    var n := |s| - 1;
    if n == 0 {
      i := 0;
    } else {
      i := FirstMinIsFirst(s[..n], key);
      assert forall j :: 0 <= j < n ==> s[..n][j] == s[j];
      if key(s[n]) < key(s[i]) { i := n; }
    }
  }

  /** What is inserted stably comes out first in, first out among equal least keys. */
  lemma {:induction false} InsertAllHead(s: seq<Ptr>, xs: seq<Ptr>, key: Key)
    requires Sorted(s, key) && s + xs != []
    ensures InsertAll(s, xs, key)[0] == FirstMin(s + xs, key)
  {
    if xs == [] {
      assert s + xs == s;
      var i := FirstMinIsFirst(s, key);
      if i > 0 { assert Before(s, 0, i); }
    } else {
      var n := |xs| - 1;
      var ys, x := xs[..n], xs[n];
      assert s + xs == (s + ys) + [x];
      assert (s + xs)[..|s + xs| - 1] == s + ys;
      if s + ys != [] {
        InsertAllHead(s, ys, key);
      }
    }
  }
}
