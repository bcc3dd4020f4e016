/** A slab over a page pool (src/mm/slab.c). */
module SlabCache {
  import opened Pointers
  import opened Chains
  import opened Bitmap
  import opened Region
  import opened Slab

  /** Every block is a page of the pool that is in use. */
  ghost predicate Backed(vaddress: Ptr, used: set<nat>, blocks: set<Ptr>) {
    forall z {:trigger Inside(z)} :: Inside(z) ==>
      && vaddress > 0 && vaddress % 4096 == 0
      && forall b :: b in blocks ==> b % 4096 == 0 && vaddress <= b && (b - vaddress) / 4096 in used
  }

  /** The number of the page at `b`. */
  ghost function Number(vaddress: Ptr, b: Ptr): nat {
    if vaddress <= b then (b - vaddress) / 4096 else 0
  }

  /** The page at `b` is not in use. */
  ghost predicate Fresh(vaddress: Ptr, used: set<nat>, b: Ptr) {
    forall z {:trigger Inside(z)} :: Inside(z) ==>
      Number(vaddress, b) !in used && b == vaddress + Number(vaddress, b) * PAGE_SIZE
  }

  /** A page that was not in use is not a block. */
  lemma NewPage(vaddress: Ptr, used: set<nat>, blocks: set<Ptr>, n: nat, page: Ptr)
    requires Backed(vaddress, used, blocks) && n !in used && page == vaddress + n * PAGE_SIZE
    ensures page !in blocks && page > 0 && page % PAGE_SIZE == 0 && Backed(vaddress, used + {n}, blocks + {page})
    ensures Number(vaddress, page) == n && Fresh(vaddress, used, page) && Backed(vaddress, used + {n}, blocks)
  {
    assert Inside(0);
    assert (page - vaddress) / 4096 == n;
  }

  lemma FreshBeside(vaddress: Ptr, used: set<nat>, b: Ptr, others: set<Ptr>)
    requires Backed(vaddress, used, others) && Fresh(vaddress, used, b)
    ensures Backed(vaddress, used + {Number(vaddress, b)}, others) && b !in others
  {
    assert Fresh(vaddress, used, b) && Inside(0);
    NewPage(vaddress, used, others, Number(vaddress, b), b);
  }

  lemma SameNumber(vaddress: Ptr, a: Ptr, b: Ptr)
    requires vaddress % 4096 == 0 && a % 4096 == 0 && b % 4096 == 0 && vaddress <= a && vaddress <= b
    requires (a - vaddress) / 4096 == (b - vaddress) / 4096
    ensures a == b
  {
    assert (a - vaddress) % 4096 == 0 && (b - vaddress) % 4096 == 0;
  }

  /** Giving a block's page back leaves the other blocks theirs. */
  lemma DropPage(vaddress: Ptr, used: set<nat>, numPages: nat, blocks: set<Ptr>, blk: Ptr)
    requires Backed(vaddress, used, blocks) && blk in blocks && forall i :: i in used ==> i < numPages
    ensures vaddress <= blk < vaddress + numPages * PAGE_SIZE && (blk - vaddress) / PAGE_SIZE in used
    ensures Backed(vaddress, used - {(blk - vaddress) / PAGE_SIZE}, blocks - {blk})
    ensures Number(vaddress, blk) == (blk - vaddress) / PAGE_SIZE
  {
    assert Inside(0);
    var n := (blk - vaddress) / 4096;
    assert n < numPages;
    forall b | b in blocks && b != blk ensures (b - vaddress) / 4096 != n {
      if (b - vaddress) / 4096 == n { SameNumber(vaddress, b, blk); }
    }
  }

  /** Another slab's blocks have other pages. */
  lemma OthersBacked(vaddress: Ptr, used: set<nat>, blocks: set<Ptr>, blk: Ptr, others: set<Ptr>)
    requires Backed(vaddress, used, blocks) && blk in blocks && Backed(vaddress, used, others) && blk !in others
    ensures Backed(vaddress, used - {Number(vaddress, blk)}, others)
  {
    assert Inside(0);
    forall b | b in others ensures (b - vaddress) / 4096 != Number(vaddress, blk) {
      if (b - vaddress) / 4096 == Number(vaddress, blk) { SameNumber(vaddress, b, blk); }
    }
  }

  lemma NotNull(vaddress: Ptr, used: set<nat>, blocks: set<Ptr>)
    requires Backed(vaddress, used, blocks)
    ensures NULL !in blocks
  {
    assert Inside(0);
  }

  /** A slot taken: the word, the list it calls for, and the objects. */
  lemma Taking(maps: Maps, owner: Owners, block: Ptr, n: int)
    requires Classed(maps, owner) && block in maps && maps[block] != FULL && -1 <= n < BPS
    requires FirstClear(maps[block], n)
    ensures 1 <= n < BPS && Address(block, n) !in Live(maps) && forall j :: 0 <= j < n ==> Bit(maps[block], j)
    ensures Class(WithBit(maps[block], n)) != FreeList && (maps[block] == 1 ==> n == 1)
    ensures var maps' := maps[block := WithBit(maps[block], n)];
            && maps'.Keys == maps.Keys && Live(maps') == Live(maps) + iset{Address(block, n)}
            && Classed(maps', owner[block := Class(WithBit(maps[block], n))])
  {
    ClassOf(maps, owner, block);
    TakeSlot(maps[block], n);
    OneWord(1);
    assert !Bit(1, 1);
    SlotTaken(maps, block, n);
    Reclassed(maps, owner, block, WithBit(maps[block], n));
  }

  /** A slot given back. */
  lemma Giving(maps: Maps, owner: Owners, block: Ptr, pos: nat)
    requires Classed(maps, owner) && block in maps && 1 <= pos < BPS
    ensures WithoutBit(maps[block], pos) != FULL
    ensures var maps' := maps[block := WithoutBit(maps[block], pos)];
            && maps'.Keys == maps.Keys && Live(maps') == Live(maps) - iset{Address(block, pos)}
            && Classed(maps', owner[block := Class(WithoutBit(maps[block], pos))])
    ensures maps[block] == 1 ==> WithoutBit(maps[block], pos) == 1
    ensures Last(maps[block], pos) <==> maps[block] != 1 && WithoutBit(maps[block], pos) == 1
  {
    assert Inside(0);
    ClassOf(maps, owner, block);
    OneWord(1);
    GiveSlot(maps[block], pos);
    SlotGiven(maps, block, pos);
    Reclassed(maps, owner, block, WithoutBit(maps[block], pos));
  }

  /** The slot is the only one taken, besides the header. */
  ghost predicate Last(m: Word, pos: nat) {
    forall z {:trigger Inside(z)} :: Inside(z) ==> m != 1 && pos < BPS && WithoutBit(m, pos) == 1
  }

  /** The block `b` leaves a slab, and its page the region, exactly if the slot given back was its last
      and two other blocks are free; else blocks and pages stay as they were. */
  ghost predicate Leaves(maps: Maps, free: nat, blocks': set<Ptr>, used: set<nat>, used': set<nat>, vaddress: Ptr,
                         b: Ptr, pos: nat) {
    if b in maps && Last(maps[b], pos) && free == MAX_FREE_SLABS then
      blocks' == maps.Keys - {b} && used' == used - {Number(vaddress, b)}
    else blocks' == maps.Keys && used' == used
  }

  lemma NullPage()
    ensures PageOf(NULL) == NULL
  {
  }

  lemma SlotAddress(block: Ptr, n: nat, size: nat)
    ensures size == SLOT ==> block + n * size == Address(block, n)
  {
  }

  lemma SameOwner(owner: Owners, b: Ptr, w: Which)
    ensures b in owner && owner[b] == w ==> owner[b := w] == owner
  {
  }

  class Cache {
    const pool: Pool
    const objSize: nat
    var heads: Three<Head>
    var links: LinkMap
    var owner: Owners
    var maps: Maps
    ghost var nodes: Three<seq<Ptr>>

    ghost predicate Lists()
      reads this
    {
      Kept(heads, links, owner, nodes)
    }

    /** Each block is on exactly one list, the one its word calls for, and at most two are free. */
    ghost predicate InOrder()
      reads this
    {
      Lists() && Classed(maps, owner) && heads.free.size <= MAX_FREE_SLABS && objSize == SLOT
    }

    /** And the blocks are pages of the region that are in use. */
    ghost predicate Valid()
      reads this, pool, pool.bitmap
    {
      InOrder() && pool.Valid() && Backed(pool.vaddress, pool.InUse(), maps.Keys)
    }

    /** src/mm/slab.c:185-201 */
    constructor (pool: Pool, size: nat)
      requires pool.Valid() && pool.vaddress > 0 && pool.vaddress % PAGE_SIZE == 0
      ensures this.pool == pool && objSize == AdjustSize(size) && Live(maps) == iset{}
      ensures Valid() <==> size <= SLOT
    {
      this.pool := pool;
      objSize := AdjustSize(size);
      heads := Three(Head(NULL, 0), Head(NULL, 0), Head(NULL, 0));
      links, owner, maps := map[], map[], map[];
      nodes := Three([], [], []);
      new;
      SizesThatFit(size);
      assert Inside(0);
    }

    /** src/mm/slab.c:8-24.  The block still names its list afterwards. */
    method DelistBlock(blk: Ptr)
      requires Lists()
      modifies this`heads, this`links, this`nodes
      ensures Kept(heads, links, owner - {blk}, nodes) && (blk !in owner ==> heads == old(heads))
      ensures forall w: Which ::
                heads.Of(w).size == old(heads.Of(w).size) - if blk in owner && owner[blk] == w then 1 else 0
    {
      if blk in owner {
        var w := owner[blk];
        DelistedKept(heads, links, owner, nodes, blk, w);
        var l := links[blk];
        if l.prev != NULL {
          links := links[l.prev := links[l.prev].(next := l.next)];
        }
        if l.next != NULL {
          links := links[l.next := links[l.next].(prev := l.prev)];
        }
        var h := heads.Of(w);
        if h.first == blk {
          h := h.(first := l.next);
        }
        heads := heads.With(w, h.(size := h.size - 1));
        nodes := nodes.With(w, Without(nodes.Of(w), blk));
      } else {
        assert owner - {blk} == owner;
      }
    }

    /** src/mm/slab.c:26-40 */
    method InsertBlock(blk: Ptr, w: Which)
      requires Kept(heads, links, owner - {blk}, nodes) && blk != NULL
      modifies this`heads, this`links, this`owner, this`nodes
      ensures Lists() && owner == old(owner)[blk := w]
      ensures forall v: Which :: heads.Of(v).size == old(heads.Of(v).size) + if v == w then 1 else 0
      ensures heads.Of(w).first == blk && (w != PartialList ==> heads.partial == old(heads.partial))
    {
      InsertedKept(heads, links, owner - {blk}, nodes, blk, w);
      assert (owner - {blk})[blk := w] == owner[blk := w];
      ghost var linked := Prepended(links, heads.Of(w).first, blk);
      var first := heads.Of(w).first;
      if first != NULL {
        links := links[first := links[first].(prev := blk)];
      }
      links := links[blk := Links(first, NULL)];
      assert links == linked;
      heads := heads.With(w, Head(blk, heads.Of(w).size + 1));
      owner := owner[blk := w];
      nodes := nodes.With(w, [blk] + nodes.Of(w));
    }

    /** src/mm/slab.c:42-47 */
    method MoveBlock(blk: Ptr, w: Which)
      requires Lists() && blk != NULL
      modifies this`heads, this`links, this`owner, this`nodes
      ensures Lists() && owner == old(owner)[blk := w]
      ensures heads.free.size == old(heads.free.size)
                                 - (if blk in old(owner) && old(owner)[blk] == FreeList then 1 else 0)
                                 + (if w == FreeList then 1 else 0)
      ensures heads.Of(w).first == blk
      ensures blk !in old(owner) && w != PartialList ==> heads.partial == old(heads.partial)
    {
      assert forall x: Three<Head> :: x.free == x.Of(FreeList);
      DelistBlock(blk);
      InsertBlock(blk, w);
    }

    /** src/mm/slab.c:57-69 and 94: a fresh page, with only its header taken, on the free list. */
    method AllocBlock() returns (blk: Ptr)
      requires Valid() && pool.available > 0 && heads.free.size == 0
      modifies this, pool, pool.bitmap
      ensures Valid() && Live(maps) == old(Live(maps))
      ensures Fresh(pool.vaddress, old(pool.InUse()), blk)
      ensures pool.InUse() == old(pool.InUse()) + {Number(pool.vaddress, blk)}
      ensures heads.free == Head(blk, 1) && heads.partial == old(heads.partial)
      ensures blk != NULL && blk !in old(maps) && maps == old(maps)[blk := 1]
    {
      ghost var n;
      blk, n := pool.Alloc();
      NewPage(pool.vaddress, old(pool.InUse()), maps.Keys, n, blk);
      ClassOf(maps, owner, blk);
      EmptyBlock(maps, blk);
      OneWord(1);
      Reclassed(maps, owner, blk, 1);
      maps := maps[blk := 1];
      MoveBlock(blk, FreeList);
    }

    /** src/mm/slab.c:79-131.  Where no block has room and the region has no page left, the code writes
        the new block's header through a null pointer (lines 58-60): `fault` stands for that, and is
        the only case in which no object is allocated. */
    method Alloc() returns (fault: bool, addr: Ptr, ghost block: Ptr, ghost n: nat)
      requires Valid()
      modifies this, pool, pool.bitmap
      ensures fault <==> old(heads.partial.first == NULL && heads.free.first == NULL && pool.available == 0)
      ensures fault ==>
                addr == NULL && Valid() && maps == old(maps) && owner == old(owner) && pool.InUse() == old(pool.InUse())
      ensures !fault ==> Valid() && addr !in old(Live(maps)) && Live(maps) == old(Live(maps)) + iset{addr}
      ensures !fault ==> addr == Address(block, n) && 1 <= n < BPS
      ensures old(heads.partial.first) != NULL ==> block == old(heads.partial.first)
      ensures old(heads.partial.first) == NULL && old(heads.free.first) != NULL ==> block == old(heads.free.first)
      ensures !fault && old(heads.partial.first) == NULL && old(heads.free.first) == NULL ==>
                block !in old(maps) && n == 1
      ensures !fault && block in old(maps) ==> forall j :: 0 <= j < n ==> Bit(old(maps)[block], j)
      ensures block in old(maps) || fault ==> maps.Keys == old(maps.Keys) && pool.InUse() == old(pool.InUse())
      ensures block !in old(maps) && !fault ==>
                && maps.Keys == old(maps.Keys) + {block} && Fresh(pool.vaddress, old(pool.InUse()), block)
                && pool.InUse() == old(pool.InUse()) + {Number(pool.vaddress, block)}
    {
      First(heads, links, owner, nodes, FreeList);
      First(heads, links, owner, nodes, PartialList);
      if heads.partial.first == NULL && heads.free.first == NULL {
        if pool.available == 0 {
          return true, NULL, NULL, 0;
        }
        var _ := AllocBlock();
        First(heads, links, owner, nodes, FreeList);
        First(heads, links, owner, nodes, PartialList);
      }
      var chosen := if heads.partial.first != NULL then heads.partial.first else heads.free.first;
      fault, block := false, chosen;
      addr, n := TakeFrom(chosen);
    }

    /** src/mm/slab.c:103-120: the lowest free slot of a block, and the block on its new list. */
    method TakeFrom(block: Ptr) returns (addr: Ptr, ghost slot: nat)
      requires Valid() && block != NULL && block in owner && owner[block] != FullList
      modifies this
      ensures Valid() && addr !in old(Live(maps)) && Live(maps) == old(Live(maps)) + iset{addr}
      ensures addr == Address(block, slot) && 1 <= slot < BPS && block in old(maps) && maps.Keys == old(maps.Keys)
      ensures forall j :: 0 <= j < slot ==> Bit(old(maps)[block], j)
      ensures old(maps)[block] == 1 ==> slot == 1
    {
      ClassOf(maps, owner, block);
      var n := FirstFreeSlot(maps[block]);
      Taking(maps, owner, block, n);
      SlotAddress(block, n, objSize);
      addr, slot := block + n * objSize, n;
      maps := maps[block := WithBit(maps[block], n)];
      Relist(block);
    }

    /** src/mm/slab.c:115-120: the block, no longer free, goes to the list that its word calls for. */
    method Relist(block: Ptr)
      requires Lists() && block != NULL && block in owner && owner[block] != FullList && block in maps
      requires Classed(maps, owner[block := Class(maps[block])]) && Class(maps[block]) != FreeList
      modifies this`heads, this`links, this`owner, this`nodes
      ensures Lists() && Classed(maps, owner) && heads.free.size <= old(heads.free.size)
    {
      if maps[block] == FULL {
        MoveBlock(block, FullList);
      } else if owner[block] == FreeList {
        MoveBlock(block, PartialList);
      } else {
        SameOwner(owner, block, PartialList);
      }
    }

    /** src/mm/slab.c:71-77, after `blk` was moved to the front of the free list: a third free block
        goes back to the region. */
    method DeallocFreeBlock(ghost blk: Ptr)
      requires Lists() && Classed(maps, owner) && objSize == SLOT
      requires pool.Valid() && Backed(pool.vaddress, pool.InUse(), maps.Keys)
      requires heads.free.first == blk && blk != NULL && heads.free.size <= MAX_FREE_SLABS + 1
      modifies this, pool, pool.bitmap
      ensures Valid() && Live(maps) == old(Live(maps))
      ensures old(heads.free.size) <= MAX_FREE_SLABS ==> maps == old(maps) && pool.InUse() == old(pool.InUse())
      ensures old(heads.free.size) > MAX_FREE_SLABS ==>
                && blk in old(maps) && maps == old(maps) - {blk}
                && pool.InUse() == old(pool.InUse()) - {Number(pool.vaddress, blk)}
    {
      if heads.free.size > MAX_FREE_SLABS {
        var block := heads.free.first;
        First(heads, links, owner, nodes, FreeList);
        ClassOf(maps, owner, block);
        EmptyBlock(maps, block);
        Unclassed(maps, owner, block);
        DropPage(pool.vaddress, pool.InUse(), pool.numPages, maps.Keys, block);
        DelistBlock(block);
        pool.Free(block);
        maps, owner := maps - {block}, owner - {block};
        assert InOrder();
        assert Number(pool.vaddress, block) == (block - pool.vaddress) / PAGE_SIZE;
      }
    }

    /** src/mm/slab.c:150-160 */
    method GiveTo(block: Ptr, pos: nat)
      requires Valid() && block != NULL && block in maps && 1 <= pos < BPS
      modifies this, pool, pool.bitmap
      ensures Valid() && Live(maps) == old(Live(maps)) - iset{Address(block, pos)}
      ensures Leaves(old(maps), old(heads.free.size), maps.Keys, old(pool.InUse()), pool.InUse(), pool.vaddress,
                     block, pos)
    {
      ClassOf(maps, owner, block);
      Giving(maps, owner, block, pos);
      maps := maps[block := WithoutBit(maps[block], pos)];
      if maps[block] == 1 {
        MoveBlock(block, FreeList);
        DeallocFreeBlock(block);
      } else if owner[block] == FullList {
        MoveBlock(block, PartialList);
      } else {
        SameOwner(owner, block, PartialList);
      }
    }

    /** src/mm/slab.c:133-164.  Every address in a slot frees that slot: the source demands only that
        it is not in a header.  A page that is not a block has no MAGIC, and is left alone.  Only the
        block of the address may leave, and its page with it: exactly if the object was its last and
        two other blocks are free. */
    method Free(ptr: Ptr)
      requires Valid() && (ptr != NULL && PageOf(ptr) in maps ==> SlotOf(ptr) != 0)
      modifies this, pool, pool.bitmap
      ensures Valid() && Live(maps) == old(Live(maps)) - iset{Address(PageOf(ptr), SlotOf(ptr))}
      ensures Leaves(old(maps), old(heads.free.size), maps.Keys, old(pool.InUse()), pool.InUse(), pool.vaddress,
                     PageOf(ptr), SlotOf(ptr))
    {
      NotNull(pool.vaddress, pool.InUse(), maps.Keys);
      NullPage();
      if ptr != NULL && PageOf(ptr) in maps {
        SlotRange(ptr);
        GiveTo(PageOf(ptr), SlotOf(ptr));
      } else {
        NotLive(maps, ptr);
      }
    }
  }

  // ---------------------------------------------------------------- several slabs on one region

  /** Slabs that draw on one region, and share no block. */
  ghost predicate Together(cs: set<Cache>, pool: Pool)
    reads cs, pool, pool.bitmap
  {
    && (forall c :: c in cs ==> c.pool == pool && c.Valid())
    && (forall c, d :: c in cs && d in cs && c != d ==> c.maps.Keys !! d.maps.Keys)
  }

  /** Objects of different slabs do not overlap. */
  lemma SlabsApart(m: Maps, m': Maps, p: Ptr, q: Ptr)
    requires m.Keys !! m'.Keys && p in Live(m) && q in Live(m')
    ensures p + SLOT <= q || q + SLOT <= p
  {
    var both := m + m';
    assert p in Live(both) && q in Live(both) by { assert Inside(0); }
    LiveApart(both, p, q);
    assert p != q by { assert Inside(0); }
  }

  /** An allocation from one of the slabs: all stay valid, and the others keep their objects. */
  method AllocAmong(c: Cache, ghost cs: set<Cache>) returns (fault: bool, addr: Ptr)
    requires c in cs && Together(cs, c.pool)
    modifies c, c.pool, c.pool.bitmap
    ensures Together(cs, c.pool)
    ensures fault ==> c.maps == old(c.maps)
    ensures !fault ==> addr !in old(Live(c.maps)) && Live(c.maps) == old(Live(c.maps)) + iset{addr}
    ensures forall d :: d in cs && d != c ==> d.maps == old(d.maps)
  {
    ghost var used := c.pool.InUse();
    ghost var block, n;
    fault, addr, block, n := c.Alloc();
    if !fault && block !in old(c.maps) {
      forall d | d in cs && d != c
        ensures Backed(c.pool.vaddress, c.pool.InUse(), d.maps.Keys) && block !in d.maps
      {
        FreshBeside(c.pool.vaddress, used, block, d.maps.Keys);
      }
    }
    forall d, e | d in cs && e in cs && d != e ensures d.maps.Keys !! e.maps.Keys {
      assert old(d.maps.Keys !! e.maps.Keys);
    }
  }

  /** An object given back to one of them: the same. */
  method FreeAmong(c: Cache, ptr: Ptr, ghost cs: set<Cache>)
    requires c in cs && Together(cs, c.pool) && (ptr != NULL && PageOf(ptr) in c.maps ==> SlotOf(ptr) != 0)
    requires forall d :: d in cs && d != c ==> PageOf(ptr) !in d.maps
    modifies c, c.pool, c.pool.bitmap
    ensures Together(cs, c.pool)
    ensures Live(c.maps) == old(Live(c.maps)) - iset{Address(PageOf(ptr), SlotOf(ptr))}
    ensures forall d :: d in cs && d != c ==> d.maps == old(d.maps)
  {
    ghost var used, keys, b := c.pool.InUse(), c.maps.Keys, PageOf(ptr);
    c.Free(ptr);
    if b in keys && b !in c.maps {
      forall d | d in cs && d != c ensures Backed(c.pool.vaddress, c.pool.InUse(), d.maps.Keys) {
        OthersBacked(c.pool.vaddress, used, keys, b, d.maps.Keys);
      }
    }
  }
}
