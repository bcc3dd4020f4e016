/** Addresses, and sequences of addresses without duplicates. */
module Pointers {

  /** An address.  Nodes, and the elements they carry, are known by theirs. */
  type Ptr = int

  const NULL: Ptr := 0

  /** A predicate stated as `forall z {:trigger Inside(z)} :: Inside(z) ==> P` means P; a proof
      looks into it only where it says `assert Inside(0)`. */
  predicate Inside(z: int) {
    true
  }

  ghost function Elems(s: seq<Ptr>): set<Ptr> {
    set x | x in s
  }

  /** `x` is at position `i`; a name for positions, for NoDup to be used only where one is named. */
  ghost predicate Pos(s: seq<Ptr>, i: int, x: Ptr) {
    0 <= i < |s| && s[i] == x
  }

  /** No element at two positions. */
  ghost predicate NoDup(s: seq<Ptr>) {
    forall i, j, x {:trigger Pos(s, i, x), Pos(s, j, x)} :: Pos(s, i, x) && Pos(s, j, x) ==> i == j
  }

  lemma NoDupConcat(a: seq<Ptr>, b: seq<Ptr>)
    ensures Elems(a + b) == Elems(a) + Elems(b)
    ensures NoDup(a + b) ==> NoDup(a) && NoDup(b) && Elems(a) !! Elems(b)
  {
    if NoDup(a + b) {
      forall i, j, x | Pos(a, i, x) && Pos(a, j, x) ensures i == j {
        assert Pos(a + b, i, x) && Pos(a + b, j, x);
      }
      forall i, j, x | Pos(b, i, x) && Pos(b, j, x) ensures i == j {
        assert Pos(a + b, |a| + i, x) && Pos(a + b, |a| + j, x);
      }
      forall x | x in a ensures x !in b {
        var i :| 0 <= i < |a| && a[i] == x;
        assert Pos(a + b, i, x);
        forall j | 0 <= j < |b| ensures b[j] != x {
          assert Pos(a + b, |a| + j, b[j]);
        }
      }
    }
  }

  lemma NoDupInsert(b: seq<Ptr>, x: Ptr, a: seq<Ptr>)
    requires NoDup(b + a) && x !in b + a
    ensures NoDup(b + [x] + a) && Elems(b + [x] + a) == Elems(b + a) + {x}
  {
    var s := b + [x] + a;
    forall i, j, y | Pos(s, i, y) && Pos(s, j, y) ensures i == j {
      if i != |b| && j != |b| {
        assert Pos(b + a, if i < |b| then i else i - 1, y);
        assert Pos(b + a, if j < |b| then j else j - 1, y);
      }
    }
  }

  lemma NoDupRemove(b: seq<Ptr>, x: Ptr, a: seq<Ptr>)
    requires NoDup(b + [x] + a)
    ensures NoDup(b + a) && Elems(b + a) == Elems(b + [x] + a) - {x}
  {
    var s := b + [x] + a;
    forall i, j, y | Pos(b + a, i, y) && Pos(b + a, j, y) ensures i == j {
      assert Pos(s, if i < |b| then i else i + 1, y);
      assert Pos(s, if j < |b| then j else j + 1, y);
    }
    assert Pos(s, |b|, x);
    forall i | 0 <= i < |b + a| ensures (b + a)[i] != x {
      assert Pos(s, if i < |b| then i else i + 1, (b + a)[i]);
    }
  }

  lemma NoDupTail(s: seq<Ptr>)
    requires s != [] && NoDup(s)
    ensures NoDup(s[1..]) && s[0] !in s[1..] && forall x :: x in s ==> x == s[0] || x in s[1..]
  {
    var h, u := [s[0]], s[1..];
    assert s == h + u;
    NoDupConcat(h, u);
    var x := s[0];
    assert x in Elems(h) && (x in u ==> x in Elems(u));
  }

  lemma NoDupSnoc(s: seq<Ptr>, x: Ptr)
    requires NoDup(s) && x !in s
    ensures NoDup(s + [x])
  {
    assert s + [] == s && s + [x] + [] == s + [x];
    NoDupInsert(s, x, []);
  }
}
