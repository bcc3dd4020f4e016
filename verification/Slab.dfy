/** The slab allocator of src/mm/slab.c: pages of 32 slots of 128 bytes, the first slot of a page its
    header, kept on three intrusive lists by how full they are.  Block memory is kept by field: the
    links, the list and the occupancy word of every block, by address. */
module Slab {
  import opened Pointers
  import opened Chains
  import opened Bitmap
  import opened Region

  /** The size of a slot: PAGE_SIZE / BPS. */
  const SLOT: nat := 128
  const MAX_FREE_SLABS: nat := 2

  // ---------------------------------------------------------------- the three lists

  datatype Which = FreeList | PartialList | FullList

  datatype Head = Head(first: Ptr, size: nat)

  /** One thing for each list. */
  datatype Three<T> = Three(free: T, partial: T, full: T) {
    function Of(w: Which): T {
      match w case FreeList => free case PartialList => partial case FullList => full
    }

    function With(w: Which, t: T): Three<T> {
      match w
      case FreeList => this.(free := t)
      case PartialList => this.(partial := t)
      case FullList => this.(full := t)
    }
  }

  type Owners = map<Ptr, Which>

  ghost predicate Listed(head: Head, links: LinkMap, owner: Owners, nodes: seq<Ptr>, w: Which) {
    && Chain(links, nodes)
    && head == Head(At(nodes, 0), |nodes|)
    && forall n :: n in nodes <==> n in owner && owner[n] == w
  }

  /** Each block that has a list is on that list and no other, once, and the lists are linked up. */
  ghost predicate Kept(heads: Three<Head>, links: LinkMap, owner: Owners, nodes: Three<seq<Ptr>>) {
    forall z {:trigger Inside(z)} :: Inside(z) ==>
      forall w: Which {:trigger nodes.Of(w)} :: Listed(heads.Of(w), links, owner, nodes.Of(w), w)
  }

  /** `nodes` without `x`. */
  ghost function Without(s: seq<Ptr>, x: Ptr): (r: seq<Ptr>)
    ensures |r| <= |s|
  {
    if s == [] then [] else if s[0] == x then s[1..] else [s[0]] + Without(s[1..], x)
  }

  lemma {:induction false} WithoutParts(s: seq<Ptr>, x: Ptr) returns (b: seq<Ptr>, a: seq<Ptr>)
    requires x in s
    ensures s == b + [x] + a && Without(s, x) == b + a
  {
    if s[0] == x {
      b, a := [], s[1..];
    } else {
      b, a := WithoutParts(s[1..], x);
      b := [s[0]] + b;
    }
  }

  /** src/mm/slab.c:8-24 on the heads: */
  function Delisted(heads: Three<Head>, links: LinkMap, blk: Ptr, w: Which): Three<Head>
    requires blk in links
  {
    var h := heads.Of(w);
    heads.With(w, Head(if h.first == blk then links[blk].next else h.first, if h.size > 0 then h.size - 1 else 0))
  }

  lemma OneDelisted(head: Head, links: LinkMap, owner: Owners, nodes: seq<Ptr>, blk: Ptr, w: Which)
    requires Listed(head, links, owner, nodes, w) && blk in owner && owner[blk] == w
    ensures blk in links && head.size > 0
    ensures Listed(Head(if head.first == blk then links[blk].next else head.first, head.size - 1),
                   Bypassed(links, blk), owner - {blk},
                   Without(nodes, blk), w)
    ensures forall n :: n in links && (n !in owner || owner[n] != w || n == blk) ==>
              n in Bypassed(links, blk) && Bypassed(links, blk)[n] == links[n]
    ensures links[blk].prev != NULL ==> links[blk].prev in links
    ensures links[blk].next != NULL ==> links[blk].next in links
    ensures links[blk].prev != blk && links[blk].next != blk
  {
    var b, a := WithoutParts(nodes, blk);
    BypassChain(links, b, blk, a);
    NodesLinked(links, nodes);
    NoDupRemove(b, blk, a);
    assert forall n :: n in b + a <==> n in Elems(b + a);
    assert forall n :: n in nodes <==> n in Elems(nodes);
    if |b| > 0 { var p := b[|b| - 1]; assert p in b && p in nodes; }
    if |a| > 0 { var p := a[0]; assert p in a && p in nodes; }
    if |b| > 0 { var p := b[0]; assert p in b && head.first == p; }
    assert forall n :: n in b || n in a ==> n in nodes;
  }

  /** Taking a block off its list takes it off, and leaves the other lists alone. */
  lemma DelistedKept(heads: Three<Head>, links: LinkMap, owner: Owners, nodes: Three<seq<Ptr>>, blk: Ptr, w: Which)
    requires Kept(heads, links, owner, nodes) && blk in owner && owner[blk] == w
    ensures blk in links && heads.Of(w).size > 0
    ensures Kept(Delisted(heads, links, blk, w), Bypassed(links, blk), owner - {blk},
                 nodes.With(w, Without(nodes.Of(w), blk)))
    ensures links[blk].prev != NULL ==> links[blk].prev in links
    ensures links[blk].next != NULL ==> links[blk].next in links
    ensures links[blk].prev != blk && links[blk].next != blk
  {
    assert Inside(0);
    OneDelisted(heads.Of(w), links, owner, nodes.Of(w), blk, w);
    var nodes' := nodes.With(w, Without(nodes.Of(w), blk));
    forall v: Which ensures Listed(Delisted(heads, links, blk, w).Of(v), Bypassed(links, blk), owner - {blk},
                                   nodes'.Of(v), v) {
      if v != w {
        assert Listed(heads.Of(v), links, owner, nodes.Of(v), v);
        ChainFrame(links, Bypassed(links, blk), nodes.Of(v));
      }
    }
  }

  /** Putting a block that is on no list in front of one. */
  lemma InsertedKept(heads: Three<Head>, links: LinkMap, owner: Owners, nodes: Three<seq<Ptr>>, blk: Ptr, w: Which)
    requires Kept(heads, links, owner, nodes) && blk !in owner && blk != NULL
    ensures heads.Of(w).first != NULL ==> heads.Of(w).first in links && heads.Of(w).first != blk
    ensures Kept(heads.With(w, Head(blk, heads.Of(w).size + 1)), Prepended(links, heads.Of(w).first, blk),
                 owner[blk := w],
                 nodes.With(w, [blk] + nodes.Of(w)))
  {
    assert Inside(0);
    var s, f := nodes.Of(w), heads.Of(w).first;
    var links', nodes' := Prepended(links, f, blk), nodes.With(w, [blk] + s);
    assert Listed(heads.Of(w), links, owner, s, w);
    PrependChain(links, s, blk);
    if s != [] {
      FirstLinked(links, s);
      assert f in s;
    }
    forall v: Which ensures Listed(heads.With(w, Head(blk, heads.Of(w).size + 1)).Of(v), links', owner[blk := w],
                                   nodes'.Of(v), v) {
      if v != w {
        assert Listed(heads.Of(v), links, owner, nodes.Of(v), v);
        ChainFrame(links, links', nodes.Of(v));
      }
    }
  }

  /** The head of a list. */
  lemma First(heads: Three<Head>, links: LinkMap, owner: Owners, nodes: Three<seq<Ptr>>, w: Which)
    requires Kept(heads, links, owner, nodes)
    ensures var f := heads.Of(w).first; f != NULL ==> f in owner && owner[f] == w
    ensures heads.Of(w).first == NULL <==> heads.Of(w).size == 0
  {
    assert Inside(0);
    var s := nodes.Of(w);
    if s != [] {
      FirstLinked(links, s);
      assert s[0] in s;
    }
  }

  // ---------------------------------------------------------------- occupancy

  /** The list on which a block with this occupancy word belongs. */
  function Class(m: Word): Which {
    if m == 1 then FreeList else if m == FULL then FullList else PartialList
  }

  type Maps = map<Ptr, Word>

  /** Blocks are pages, their header slot is taken, and each is on the list its word calls for. */
  ghost predicate Classed(maps: Maps, owner: Owners) {
    forall z {:trigger Inside(z)} :: Inside(z) ==>
      && maps.Keys == owner.Keys
      && forall b :: b in maps ==> b % PAGE_SIZE == 0 && Bit(maps[b], 0) && owner[b] == Class(maps[b])
  }

  ghost predicate Paged(maps: Maps) {
    forall b :: b in maps ==> b % PAGE_SIZE == 0
  }

  lemma ClassOf(maps: Maps, owner: Owners, b: Ptr)
    requires Classed(maps, owner)
    ensures maps.Keys == owner.Keys && Paged(maps)
    ensures b in maps || b in owner ==>
              b in maps && b in owner && b % PAGE_SIZE == 0 && Bit(maps[b], 0) && owner[b] == Class(maps[b])
  {
    assert Inside(0);
  }

  lemma Reclassed(maps: Maps, owner: Owners, b: Ptr, m: Word)
    requires Classed(maps, owner) && b % PAGE_SIZE == 0 && Bit(m, 0)
    ensures Classed(maps[b := m], owner[b := Class(m)]) && maps[b := m].Keys == maps.Keys + {b}
    ensures b in owner && owner[b] == Class(m) ==> owner[b := Class(m)] == owner
  {
    assert Inside(0);
  }

  lemma Unclassed(maps: Maps, owner: Owners, b: Ptr)
    requires Classed(maps, owner)
    ensures Classed(maps - {b}, owner - {b}) && (maps - {b}).Keys == maps.Keys - {b}
  {
    assert Inside(0);
  }

  /** `n` is the lowest clear bit of `m`, or -1 if there is none. */
  ghost predicate FirstClear(m: Word, n: int) {
    && (n >= 0 ==> !Bit(m, n) && forall j :: 0 <= j < n ==> Bit(m, j))
    && (n < 0 ==> forall j :: 0 <= j < BPS ==> Bit(m, j))
  }

  method FirstFreeSlot(m: Word) returns (n: int)
    ensures -1 <= n < BPS && FirstClear(m, n)
  {
    n := FirstFree([m], BPS);
    forall j | 0 <= j < BPS ensures j / BPS == 0 && (Get([m], j) <==> Bit(m, j)) { }
  }

  /** A block that is not full has a free slot, not the header; taking it leaves the block partial or full. */
  lemma TakeSlot(m: Word, n: int)
    requires Bit(m, 0) && m != FULL && -1 <= n < BPS
    requires FirstClear(m, n)
    ensures 1 <= n < BPS && !Bit(m, n) && (forall j :: 0 <= j < n ==> Bit(m, j)) && Bit(WithBit(m, n), 0)
    ensures Class(WithBit(m, n)) != FreeList
  {
    FullWord(m);
    SetBit(m, n, 0);
    SetBit(m, n, n);
    OneWord(WithBit(m, n));
  }

  /** A slot given back leaves the block free or partial. */
  lemma GiveSlot(m: Word, n: nat)
    requires Bit(m, 0) && 1 <= n < BPS
    ensures Bit(WithoutBit(m, n), 0) && WithoutBit(m, n) != FULL
    ensures !Bit(m, n) ==> WithoutBit(m, n) == m
  {
    UnsetBit(m, n, 0);
    UnsetBit(m, n, n);
    FullWord(WithoutBit(m, n));
    if !Bit(m, n) {
      WordSize();
      forall j | 0 <= j < BPS ensures Bit(WithoutBit(m, n), j) <==> Bit(m, j) { UnsetBit(m, n, j); }
      SameBits(WithoutBit(m, n), m, BPS);
    }
  }

  // ---------------------------------------------------------------- objects

  /** src/mm/slab.c:137-139: the page of an address, and the slot in the page. */
  function PageOf(p: Ptr): Ptr {
    p / 4096 * 4096
  }

  function SlotOf(p: Ptr): nat {
    (p - p / 4096 * 4096) / 128
  }

  /** The address of a slot, as src/mm/slab.c:104 forms it. */
  function Address(blk: Ptr, n: nat): Ptr {
    blk + n * 128
  }

  lemma SlotRange(p: Ptr)
    ensures SlotOf(p) < BPS && PageOf(p) % PAGE_SIZE == 0
    ensures Address(PageOf(p), SlotOf(p)) <= p < Address(PageOf(p), SlotOf(p)) + SLOT
  {
  }

  /** Any address in a slot leads back to the block and the slot. */
  lemma SlotFound(blk: Ptr, n: nat, offset: nat)
    requires blk % PAGE_SIZE == 0 && n < BPS && offset < SLOT
    ensures PageOf(Address(blk, n) + offset) == blk && SlotOf(Address(blk, n) + offset) == n
  {
    var k := blk / 4096;
    assert blk == 4096 * k;
    var p := 4096 * k + n * 128 + offset;
    assert p / 4096 == k;
  }

  /** The slot with address `p` is handed out. */
  ghost predicate IsLive(maps: Maps, p: Ptr) {
    forall z {:trigger Inside(z)} :: Inside(z) ==>
      PageOf(p) in maps && SlotOf(p) > 0 && Bit(maps[PageOf(p)], SlotOf(p)) && p == Address(PageOf(p), SlotOf(p))
  }

  /** The objects handed out and not given back: the slots other than headers whose bits are set. */
  ghost function Live(maps: Maps): iset<Ptr> {
    iset p | IsLive(maps, p)
  }

  /** Live objects lie in their page behind the header, and no two overlap. */
  lemma LiveApart(maps: Maps, p: Ptr, q: Ptr)
    requires p in Live(maps) && q in Live(maps)
    ensures PageOf(p) + SLOT <= p && p + SLOT <= PageOf(p) + PAGE_SIZE && PageOf(p) in maps
    ensures p == q || p + SLOT <= q || q + SLOT <= p
  {
    assert Inside(0);
    SlotRange(p);
    SlotRange(q);
    if p < q < p + SLOT {
      SlotFound(PageOf(p), SlotOf(p), q - p);
      assert false;
    } else if q < p < q + SLOT {
      SlotFound(PageOf(q), SlotOf(q), p - q);
      assert false;
    }
  }

  /** What writing one word changes. */
  lemma LiveUpdate(maps: Maps, blk: Ptr, n: nat, w: Word, p: Ptr)
    requires Paged(maps) && blk in maps && 1 <= n < BPS
    requires forall j :: 0 <= j < BPS && j != n ==> (Bit(w, j) <==> Bit(maps[blk], j))
    ensures p != Address(blk, n) ==> (IsLive(maps[blk := w], p) <==> IsLive(maps, p))
    ensures IsLive(maps[blk := w], Address(blk, n)) <==> Bit(w, n)
  {
    assert Inside(0);
    SlotRange(p);
    SlotFound(blk, n, 0);
  }

  /** Setting a bit adds the object of that slot, and no other. */
  lemma SlotTaken(maps: Maps, blk: Ptr, n: nat)
    requires Paged(maps) && blk in maps && 1 <= n < BPS
    ensures Live(maps[blk := WithBit(maps[blk], n)]) == Live(maps) + iset{Address(blk, n)}
    ensures Address(blk, n) in Live(maps) <==> Bit(maps[blk], n)
  {
    var m := maps[blk];
    forall j | 0 <= j < BPS ensures Bit(WithBit(m, n), j) <==> j == n || Bit(m, j) { SetBit(m, n, j); }
    var maps' := maps[blk := WithBit(m, n)];
    forall p ensures IsLive(maps', p) <==> IsLive(maps, p) || p == Address(blk, n) {
      LiveUpdate(maps, blk, n, WithBit(m, n), p);
    }
    LiveUpdate(maps, blk, n, m, blk);
    assert maps[blk := m] == maps;
  }

  /** Clearing a bit takes the object of that slot away, and no other. */
  lemma SlotGiven(maps: Maps, blk: Ptr, n: nat)
    requires Paged(maps) && blk in maps && 1 <= n < BPS
    ensures Live(maps[blk := WithoutBit(maps[blk], n)]) == Live(maps) - iset{Address(blk, n)}
  {
    var m := maps[blk];
    forall j | 0 <= j < BPS ensures Bit(WithoutBit(m, n), j) <==> j != n && Bit(m, j) { UnsetBit(m, n, j); }
    var maps' := maps[blk := WithoutBit(m, n)];
    forall p ensures IsLive(maps', p) <==> IsLive(maps, p) && p != Address(blk, n) {
      LiveUpdate(maps, blk, n, WithoutBit(m, n), p);
    }
  }

  /** A block that holds nothing but its header adds no objects. */
  lemma EmptyBlock(maps: Maps, blk: Ptr)
    requires Paged(maps) && (blk in maps ==> maps[blk] == 1)
    ensures Live(maps[blk := 1]) == Live(maps) == Live(maps - {blk})
  {
    forall p
      ensures IsLive(maps[blk := 1], p) <==> IsLive(maps, p)
      ensures IsLive(maps - {blk}, p) <==> IsLive(maps, p)
    {
      assert Inside(0);
      OneWord(1);
    }
  }

  /** There is no object in a header, or on a page that is not a block. */
  lemma NotLive(maps: Maps, p: Ptr)
    requires PageOf(p) !in maps || SlotOf(p) == 0
    ensures Live(maps) == Live(maps) - iset{Address(PageOf(p), SlotOf(p))}
  {
    assert Inside(0);
    SlotRange(p);
    SlotFound(PageOf(p), SlotOf(p), 0);
  }

  // ---------------------------------------------------------------- object sizes

  /** src/mm/slab.c:166-183 */
  function AdjustSize(size: nat): nat {
    if size >= SLOT then size / SLOT * SLOT + size % SLOT else SLOT
  }

  /** The object in slot `n` ends inside the page. */
  ghost predicate FitsPage(n: nat, size: nat) {
    (n + 1) * size <= PAGE_SIZE
  }

  /** The 32 objects of a page lie inside it exactly for the sizes up to 128, which all become 128. */
  lemma SizesThatFit(size: nat)
    ensures size <= SLOT <==> forall n: nat :: n < BPS ==> FitsPage(n, AdjustSize(size))
    ensures size <= SLOT <==> AdjustSize(size) == SLOT
    ensures size > SLOT ==> AdjustSize(size) == size
  {
    var adjusted := AdjustSize(size);
    assert size / 128 * 128 + size % 128 == size;
    if size > SLOT {
      assert !FitsPage(31, adjusted);
    }
  }
}
