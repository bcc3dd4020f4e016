/** The page allocator of src/mm/region.c: a bitmap of pages, with a count of the free ones.  Mapping
    and unmapping the page (map_page, unmap_page) is not part of this model. */
module Region {
  import opened Pointers
  import opened Bitmap

  const PAGE_SIZE: nat := 4096

  /** The pages in use, by number. */
  ghost function Used(words: seq<Word>, n: nat): (s: set<nat>) {
    set i: nat | i < n && i / BPS < |words| && Get(words, i)
  }

  /** A set of page numbers has no more elements than there are pages, and as many only if all are in it. */
  lemma {:induction false} Pages(s: set<nat>, n: nat)
    requires forall i :: i in s ==> i < n
    ensures |s| <= n
    ensures |s| == n <==> forall i: nat :: i < n ==> i in s
    decreases n
  {
    if n == 0 {
      assert s == {};
    } else {
      var last := n - 1;
      var s' := s - {last};
      Pages(s', n - 1);
      if last in s {
        assert s == s' + {last};
        assert (forall i: nat :: i < n ==> i in s) <==> forall i: nat :: i < n - 1 ==> i in s';
      } else {
        assert s == s';
      }
    }
  }

  class Pool {
    const bitmap: array<Word>
    const vaddress: Ptr
    const numPages: nat
    var available: nat

    /** The pages in use, by number. */
    ghost function InUse(): set<nat>
      reads bitmap
    {
      Used(bitmap[..], numPages)
    }

    ghost predicate Valid()
      reads this, bitmap
    {
      && numPages <= bitmap.Length * BPS
      && available + |InUse()| == numPages
    }

    /** src/mm/region.c:37-57: whatever the bitmap held, no page is in use. */
    constructor (vaddress: Ptr, bitmap: array<Word>, numPages: nat)
      requires numPages <= bitmap.Length * BPS
      modifies bitmap
      ensures this.vaddress == vaddress && this.bitmap == bitmap && this.numPages == numPages
      ensures Valid() && InUse() == {} && available == numPages
    {
      this.bitmap, this.vaddress, this.numPages := bitmap, vaddress, numPages;
      available := numPages;
      new;
      for i := 0 to numPages
        invariant available == numPages
        invariant forall j :: 0 <= j < i && j / BPS < bitmap.Length ==> !Get(bitmap[..], j)
      {
        BitmapUnset(bitmap, i);
      }
      assert InUse() == {};
    }

    /** src/mm/region.c:6-23: the lowest page not in use, or NULL if every page is. */
    method Alloc() returns (page: Ptr, ghost n: nat)
      requires Valid()
      modifies this, bitmap
      ensures Valid()
      ensures old(available) == 0 <==> forall i: nat :: i < numPages ==> i in old(InUse())
      ensures old(available) == 0 ==> page == NULL && InUse() == old(InUse())
      ensures old(available) > 0 ==> n < numPages && n !in old(InUse()) && page == vaddress + n * PAGE_SIZE
      ensures old(available) > 0 ==> InUse() == old(InUse()) + {n} && forall i: nat :: i < n ==> i in old(InUse())
    {
      ghost var before := InUse();
      Pages(before, numPages);
      n := 0;
      if available == 0 {
        return NULL, 0;
      }
      var k := FirstFree(bitmap[..], numPages);
      n := k;
      page := vaddress + k * PAGE_SIZE;
      BitmapSet(bitmap, k);
      available := available - 1;
      assert InUse() == before + {n};
    }

    /** src/mm/region.c:25-35: marks the page of an address unused.  The count stays right exactly
        if that page was in use. */
    method Free(page: Ptr)
      requires Valid() && vaddress <= page < vaddress + numPages * PAGE_SIZE
      modifies this, bitmap
      ensures InUse() == old(InUse()) - {(page - vaddress) / PAGE_SIZE} && available == old(available) + 1
      ensures Valid() <==> (page - vaddress) / PAGE_SIZE in old(InUse())
    {
      ghost var before := InUse();
      var n := (page - vaddress) / PAGE_SIZE;
      BitmapUnset(bitmap, n);
      available := available + 1;
      assert InUse() == before - {n};
    }
  }
}
