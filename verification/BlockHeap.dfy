/** What every operation of the bucket allocator (kernel/src/memory.c) does to lists, sizes and places. */
module BlockHeap {
  import opened Words
  import opened Ram
  import opened Pages
  import opened FreeLists
  import opened Blocks
  import opened Regions

  /** Where the pages are: their counts, the first page, and the address at which page 0 of memory is seen. */
  datatype Ground = Ground(rc: seq<nat>, bottom: nat, base: nat)

  ghost predicate Sound(hdr: Heap, owner: map<nat, nat>, heads: seq<nat>, lists: seq<seq<nat>>, g: Ground) {
    && Lists(hdr, owner, heads, lists) && SizesOk(hdr, owner) && Apart(hdr) && Placed(hdr, g.rc, g.bottom, g.base)
    && g.bottom > 0
  }

  /** Two blocks share no byte, headers included, and every byte lies in a held page. */
  lemma SoundMeans(hdr: Heap, owner: map<nat, nat>, heads: seq<nat>, lists: seq<seq<nat>>, g: Ground, a: nat, b: nat, x: nat)
    requires Sound(hdr, owner, heads, lists, g) && a in hdr && b in hdr
    requires a <= x < a + Extent(hdr[a].size, hdr[a].room) && b <= x < b + Extent(hdr[b].size, hdr[b].room)
    ensures a == b
    ensures x >= g.base + g.bottom && HeldIn(g.rc, g.bottom, PageOf(x - g.base, g.bottom))
  {
    hide Lists, SizesOk, Extent, BlockPlaced;
    assert a == b;
    assert BlockPlaced(g.rc, g.bottom, g.base, a, hdr[a].size, hdr[a].room);
    PlacedByte(g, a, hdr[a].size, hdr[a].room, x);
  }

  lemma PlacedByte(g: Ground, a: nat, size: nat, room: nat, x: nat)
    requires BlockPlaced(g.rc, g.bottom, g.base, a, size, room) && a <= x < a + Extent(size, room)
    ensures x >= g.base + g.bottom && HeldIn(g.rc, g.bottom, PageOf(x - g.base, g.bottom))
  {
    var k := (x - g.base - g.bottom) / PAGE_SIZE;
    assert g.rc[k] > 0;
  }

  /** The page under address p, counting from bottom. */
  function PageOf(p: nat, bottom: nat): nat
    requires bottom <= p
  {
    bottom + (p - bottom) / PAGE_SIZE * PAGE_SIZE
  }

  /** The region cut from a fresh run of pages becomes the free list of its class. */
  lemma RefillLists(hdr: Heap, owner: map<nat, nat>, heads: seq<nat>, lists: seq<seq<nat>>, data: nat, c: nat)
    requires Lists(hdr, owner, heads, lists) && c < CLASS_COUNT && heads[c + 1] == 0 && Vacant(hdr, data) && data > 0
    ensures var l := Nodes(data, c);
      Lists(Region(hdr, data, c), Owned(owner, l, c + 1), heads[c + 1 := data], lists[c + 1 := l])
  {
    hide Region, Nodes, Buckets, Owned, ListOk, BackOk, Listed, Vacant;
    var id, l := c + 1, Nodes(data, c);
    var hdr', owner', heads', lists' := Region(hdr, data, c), Owned(owner, l, id), heads[id := data], lists[id := l];
    RegionBlocks(hdr, data, c);
    assert ListOk(hdr, owner, heads[id], lists[id], id);
    NoneLeft(hdr, owner, lists[id], id);
    RegionChain(hdr, owner, data, c);
    forall k | 0 <= k < LISTS ensures ListOk(hdr', owner', heads'[k], lists'[k], k) {
      assert ListOk(hdr, owner, heads[k], lists[k], k);
      if k != id {
        ListFrame(hdr, owner, hdr', owner', heads[k], lists[k], k);
      }
    }
    forall a | a in owner' ensures Listed(owner', lists', a) {
      if a !in l {
        assert Listed(owner, lists, a);
      }
      ListedStill(owner, lists, l, id, a);
    }
    assert ListOk(hdr, owner, heads[USED], lists[USED], USED);
    BackKept(hdr, owner, hdr', heads[USED], lists[USED]);
  }

  lemma ListedStill(owner: map<nat, nat>, lists: seq<seq<nat>>, l: seq<nat>, id: nat, a: nat)
    requires id < |lists| && lists[id] == [] && a in Owned(owner, l, id)
    requires a !in l ==> a in owner && Listed(owner, lists, a)
    ensures Listed(Owned(owner, l, id), lists[id := l], a)
  {
  }

  lemma BackKept(hdr: Heap, owner: map<nat, nat>, hdr': Heap, head: nat, l: seq<nat>)
    requires ListOk(hdr, owner, head, l, USED) && BackOk(hdr, l) && forall a :: a in hdr ==> a in hdr' && hdr'[a] == hdr[a]
    ensures BackOk(hdr', l)
  {
    forall i | 0 <= i < |l| ensures l[i] in hdr' && hdr'[l[i]].prev == At(l, i - 1) {
      assert l[i] in hdr && hdr[l[i]].prev == At(l, i - 1);
    }
  }

  lemma NoneLeft(hdr: Heap, owner: map<nat, nat>, l: seq<nat>, id: nat)
    requires ListOk(hdr, owner, 0, l, id) && 0 !in hdr
    ensures l == []
  {
    assert |l| > 0 ==> At(l, 0) in hdr;
  }

  function Owned(owner: map<nat, nat>, l: seq<nat>, id: nat): (r: map<nat, nat>)
    ensures forall a :: a in r <==> a in owner || a in l
    ensures forall a {:trigger r[a]} :: a in r ==> r[a] == if a in l then id else owner[a]
  {
    owner + (map a | a in l :: id)
  }

  lemma RegionChain(hdr: Heap, owner: map<nat, nat>, data: nat, c: nat)
    requires c < CLASS_COUNT && Vacant(hdr, data) && data > 0
    ensures var l := Nodes(data, c); ListOk(Region(hdr, data, c), Owned(owner, l, c + 1), data, l, c + 1)
  {
    hide Region, Nodes, Buckets, Owned, Node;
    var l := Nodes(data, c);
    RegionBlocks(hdr, data, c);
    NodeFirst(data, c);
    forall i, j | 0 <= i < j < |l| ensures l[i] != l[j] {
      NodesApart(data, c, i, j);
    }
    forall i | 0 <= i < |l| ensures Region(hdr, data, c)[l[i]].next == At(l, i + 1) {
    }
  }

  lemma NodeFirst(data: nat, c: nat)
    requires c < CLASS_COUNT
    ensures Node(data, c, 0) == data
  {
  }

  lemma RefillSizes(hdr: Heap, owner: map<nat, nat>, data: nat, c: nat)
    requires c < CLASS_COUNT && Vacant(hdr, data) && SizesOk(hdr, owner) && owner.Keys == hdr.Keys
    ensures SizesOk(Region(hdr, data, c), Owned(owner, Nodes(data, c), c + 1))
  {
    hide Region, Nodes, Buckets, Owned, Node;
    RegionBlocks(hdr, data, c);
    var hdr', owner' := Region(hdr, data, c), Owned(owner, Nodes(data, c), c + 1);
    forall a | a in hdr' && a in owner'
      ensures SizeOk(hdr'[a].size) && RoomOk(hdr'[a].size, hdr'[a].room)
      ensures (0 < owner'[a] < LISTS ==> hdr'[a].size == 0 || hdr'[a].size == ClassSize(owner'[a] - 1))
    {
      if a in hdr {
        assert a !in Nodes(data, c);
      } else {
        var i :| 0 <= i < |Nodes(data, c)| && Nodes(data, c)[i] == a;
        assert BucketHeader(data, c, i).size == ClassSize(c);
      }
    }
  }

  lemma RefillApart(hdr: Heap, data: nat, c: nat)
    requires c < CLASS_COUNT && Vacant(hdr, data) && Apart(hdr)
    requires forall a :: a in hdr && a < data ==> a + Extent(hdr[a].size, hdr[a].room) <= data
    ensures Apart(Region(hdr, data, c))
  {
    hide Region, Nodes, Buckets, Node;
    var hdr', l := Region(hdr, data, c), Nodes(data, c);
    RegionBlocks(hdr, data, c);
    forall a, b | a in hdr' && b in hdr' && a < b ensures a + Extent(hdr'[a].size, hdr'[a].room) <= b {
      if a !in hdr {
        var i :| 0 <= i < |l| && l[i] == a;
        NodeInside(data, c, i);
        NodeExtent(data, c, i);
        if b !in hdr {
          var j :| 0 <= j < |l| && l[j] == b;
          if i < j { NodesApart(data, c, i, j); } else if j < i { NodesApart(data, c, j, i); }
        }
      }
    }
  }

  lemma NodeExtent(data: nat, c: nat, i: nat)
    requires c < CLASS_COUNT
    ensures Extent(BucketHeader(data, c, i).size, BucketHeader(data, c, i).room) == Stride(c)
    ensures Extent(Tail(c).size, Tail(c).room) == HEADER_SIZE + Room(c)
  {
  }

  lemma RefillPlaced(hdr: Heap, data: nat, c: nat, g: Ground, k: nat)
    requires c < CLASS_COUNT && Vacant(hdr, data) && Placed(hdr, g.rc, g.bottom, g.base)
    requires data == g.base + g.bottom + PAGE_SIZE * k && k + REFILL_PAGES <= |g.rc|
    requires forall j :: k <= j < k + REFILL_PAGES ==> g.rc[j] > 0
    ensures Placed(Region(hdr, data, c), g.rc, g.bottom, g.base)
  {
    hide Region, Nodes, Buckets, Node;
    var hdr', l := Region(hdr, data, c), Nodes(data, c);
    RegionBlocks(hdr, data, c);
    forall a | a in hdr' ensures BlockPlaced(g.rc, g.bottom, g.base, a, hdr'[a].size, hdr'[a].room) {
      if a in hdr {
        assert BlockPlaced(g.rc, g.bottom, g.base, a, hdr[a].size, hdr[a].room);
      } else {
        var i :| 0 <= i < |l| && l[i] == a;
        NodeInside(data, c, i);
        NodeExtent(data, c, i);
        InsideRun(g.rc, g.bottom, k, REFILL_PAGES, a - g.base, Extent(hdr'[a].size, hdr'[a].room));
      }
    }
  }

  /** No block has a byte in a run of pages that nobody held. */
  lemma FreeRunVacant(hdr: Heap, owner: map<nat, nat>, g: Ground, k: nat, count: nat)
    requires Placed(hdr, g.rc, g.bottom, g.base) && SizesOk(hdr, owner) && owner.Keys == hdr.Keys
    requires count > 0 && k + count <= |g.rc| && forall j :: k <= j < k + count ==> g.rc[j] == 0
    ensures var data := g.base + g.bottom + PAGE_SIZE * k;
      forall a :: a in hdr ==> (a < data && a + Extent(hdr[a].size, hdr[a].room) <= data) || a >= data + PAGE_SIZE * count
  {
    hide Extent;
    forall a | a in hdr
      ensures var data := g.base + g.bottom + PAGE_SIZE * k;
        (a < data && a + Extent(hdr[a].size, hdr[a].room) <= data) || a >= data + PAGE_SIZE * count
    {
      assert BlockPlaced(g.rc, g.bottom, g.base, a, hdr[a].size, hdr[a].room);
      assert SizeOk(hdr[a].size) && RoomOk(hdr[a].size, hdr[a].room);
      ExtentHeader(hdr[a].size, hdr[a].room);
      OutsideRun(g.rc, g.bottom, k, count, a - g.base, Extent(hdr[a].size, hdr[a].room));
    }
  }

  lemma ExtentHeader(size: nat, room: nat)
    requires SizeOk(size) && RoomOk(size, room)
    ensures Extent(size, room) >= HEADER_SIZE + room
  {
  }

  /** The ground after a run of free pages is taken. */
  function After(g: Ground, k: nat, count: nat): Ground {
    g.(rc := Taken(g.rc, k, count))
  }

  /** memory.c:217-225: an empty free list is filled from REFILL_PAGES fresh pages. */
  lemma Refill(hdr: Heap, owner: map<nat, nat>, heads: seq<nat>, lists: seq<seq<nat>>, g: Ground, k: nat, c: nat)
    requires Sound(hdr, owner, heads, lists, g) && c < CLASS_COUNT && heads[c + 1] == 0
    requires FreeRunAt(g.rc, k, REFILL_PAGES)
    ensures var data := g.base + g.bottom + PAGE_SIZE * k;
      && Vacant(hdr, data)
      && Sound(Region(hdr, data, c), Owned(owner, Nodes(data, c), c + 1), heads[c + 1 := data],
               lists[c + 1 := Nodes(data, c)], After(g, k, REFILL_PAGES))
  {
    hide Region, Nodes, Buckets, Node, Owned, SizesOk, Apart, Placed, Lists, Extent;
    var data, g' := g.base + g.bottom + PAGE_SIZE * k, After(g, k, REFILL_PAGES);
    ListsShape(hdr, owner, heads, lists);
    FreeRunVacant(hdr, owner, g, k, REFILL_PAGES);
    RefillLists(hdr, owner, heads, lists, data, c);
    RefillSizes(hdr, owner, data, c);
    RefillApart(hdr, data, c);
    PlacedKept(hdr, g.rc, g'.rc, g.bottom, g.base);
    RefillPlaced(hdr, data, c, g', k);
  }

  /** memory.c:227-228, 323-329: the first free block moves to the front of the used list. */
  lemma Take(hdr: Heap, owner: map<nat, nat>, heads: seq<nat>, lists: seq<seq<nat>>, g: Ground, c: nat, origin: nat)
    requires Sound(hdr, owner, heads, lists, g) && c < CLASS_COUNT && heads[c + 1] != 0
    ensures var id, b := c + 1, heads[c + 1];
      && b in hdr && lists[id] != [] && b == lists[id][0] && b !in lists[USED]
      && (hdr[b].size == 0 || hdr[b].size == ClassSize(c)) && RoomOk(hdr[b].size, hdr[b].room)
      && Sound(Pushed(hdr - {b}, heads[USED], b, Header(heads[USED], 0, hdr[b].size, origin, hdr[b].room)), owner[b := USED],
               heads[id := hdr[b].next][USED := b], lists[id := lists[id][1..]][USED := [b] + lists[USED]], g)
  {
    hide Apart, Placed, Pushed, Listed, BackOk, SizesOk;
    var id, b := c + 1, heads[c + 1];
    PopFree(hdr, owner, heads, lists, id);
    var hdr1, owner1, heads1, lists1 := hdr - {b}, owner - {b}, heads[id := hdr[b].next], lists[id := lists[id][1..]];
    var h := Header(heads[USED], 0, hdr[b].size, origin, hdr[b].room);
    Push(hdr1, owner1, heads1, lists1, b, h, USED);
    assert owner1[b := USED] == owner[b := USED];
    assert ListOk(hdr, owner, heads[id], lists[id], id) && owner[b] == id;
    assert ListOk(hdr, owner, heads[USED], lists[USED], USED);
    FreeSize(hdr, owner, b, c);
    MovedSizes(hdr, hdr1, heads[USED], b, h);
    SizesKept(hdr, Pushed(hdr1, heads[USED], b, h), owner, g.rc, g.bottom, g.base);
    UsedSizes(Pushed(hdr1, heads[USED], b, h), owner, b);
  }

  lemma FreeSize(hdr: Heap, owner: map<nat, nat>, b: nat, c: nat)
    requires SizesOk(hdr, owner) && b in hdr && b in owner && owner[b] == c + 1 && c < CLASS_COUNT
    ensures (hdr[b].size == 0 || hdr[b].size == ClassSize(c)) && RoomOk(hdr[b].size, hdr[b].room)
  {
    hide SizeOk;
  }

  lemma UsedSizes(hdr: Heap, owner: map<nat, nat>, b: nat)
    requires SizesOk(hdr, owner) && b in owner
    ensures SizesOk(hdr, owner[b := USED])
  {
    hide SizeOk;
  }

  lemma MovedSizes(hdr: Heap, hdr1: Heap, head: nat, b: nat, h: Header)
    requires b in hdr && hdr1.Keys == hdr.Keys - {b} && h.size == hdr[b].size && h.room == hdr[b].room
    requires forall a :: a in hdr1 ==> hdr1[a].size == hdr[a].size && hdr1[a].room == hdr[a].room
    ensures SameSizes(hdr, Pushed(hdr1, head, b, h))
  {
  }

  /** memory.c:353-396: a used block of class c goes back to the front of its free list. */
  lemma GiveBack(hdr: Heap, owner: map<nat, nat>, heads: seq<nat>, lists: seq<seq<nat>>, g: Ground, i: nat)
    requires Sound(hdr, owner, heads, lists, g) && i < |lists[USED]|
    requires lists[USED][i] in hdr && hdr[lists[USED][i]].size <= MAX_SMALL
    ensures var b := lists[USED][i]; var id := ClassOf(hdr[b].size) + 1;
      Sound(Pushed(Unlinked(hdr, b), heads[id], b, Header(heads[id], 0, hdr[b].size, hdr[b].origin, hdr[b].room)), owner[b := id],
            heads[USED := if heads[USED] == b then hdr[b].next else heads[USED]][id := b],
            lists[USED := Without(lists[USED], i)][id := [b] + lists[id]], g)
  {
    hide Apart, Placed, Unlinked, Without, Pushed, ListOk, Listed, BackOk, SizesOk;
    var b := lists[USED][i];
    var id := ClassOf(hdr[b].size) + 1;
    Unlink(hdr, owner, heads, lists, i);
    var hdr1, owner1 := Unlinked(hdr, b), owner - {b};
    var heads1 := heads[USED := if heads[USED] == b then hdr[b].next else heads[USED]];
    var lists1 := lists[USED := Without(lists[USED], i)];
    var h := Header(heads[id], 0, hdr[b].size, hdr[b].origin, hdr[b].room);
    Push(hdr1, owner1, heads1, lists1, b, h, id);
    assert owner1[b := id] == owner[b := id];
    UnlinkedKeys(hdr, b);
    forall a | a in hdr1 ensures hdr1[a].size == hdr[a].size && hdr1[a].room == hdr[a].room {
      UnlinkedNext(hdr, b, a);
    }
    MovedSizes(hdr, hdr1, heads[id], b, h);
    SizesKept(hdr, Pushed(hdr1, heads[id], b, h), owner, g.rc, g.bottom, g.base);
    GivenSizes(hdr, owner, Pushed(hdr1, heads[id], b, h), b);
  }

  lemma GivenSizes(hdr: Heap, owner: map<nat, nat>, hdr': Heap, b: nat)
    requires SizesOk(hdr, owner) && SameSizes(hdr, hdr') && b in hdr && hdr[b].size <= MAX_SMALL && b in owner
    ensures SizesOk(hdr', owner[b := ClassOf(hdr[b].size) + 1])
  {
    hide SizeOk;
    SmallSize(hdr[b].size);
  }

  lemma SmallSize(size: nat)
    requires size <= MAX_SMALL && SizeOk(size)
    ensures size == 0 || size == ClassSize(ClassOf(size))
  {
  }

  /** memory.c:307-329: a large block on fresh pages of its own. */
  lemma Adopt(hdr: Heap, owner: map<nat, nat>, heads: seq<nat>, lists: seq<seq<nat>>, g: Ground, k: nat, size: u64, origin: nat)
    requires Sound(hdr, owner, heads, lists, g) && size > MAX_SMALL && size + HEADER_SIZE + PAGE_SIZE - 1 < WORD
    requires FreeRunAt(g.rc, k, PageCount(size))
    ensures var b := g.base + g.bottom + PAGE_SIZE * k;
      && b !in hdr
      && Sound(Pushed(hdr, heads[USED], b, Header(heads[USED], 0, size, origin, size)), owner[b := USED], heads[USED := b],
               lists[USED := [b] + lists[USED]], After(g, k, PageCount(size)))
  {
    hide Apart, Placed, SizesOk, PageCount, Extent, ListOk, Listed, BackOk, Pushed, InHeld, SizeOk, Taken;
    var b, count := g.base + g.bottom + PAGE_SIZE * k, PageCount(size);
    LargeExtent(size);
    FreeRunVacant(hdr, owner, g, k, count);
    var h := Header(heads[USED], 0, size, origin, size);
    Push(hdr, owner, heads, lists, b, h, USED);
    AdoptedPlaces(hdr, owner, heads[USED], g, k, size, h);
  }

  lemma AdoptedPlaces(hdr: Heap, owner: map<nat, nat>, head: nat, g: Ground, k: nat, size: u64, h: Header)
    requires SizesOk(hdr, owner) && Apart(hdr) && Placed(hdr, g.rc, g.bottom, g.base) && owner.Keys == hdr.Keys
    requires size > MAX_SMALL && size + HEADER_SIZE + PAGE_SIZE - 1 < WORD && h.size == h.room == size
    requires FreeRunAt(g.rc, k, PageCount(size))
    ensures var b := g.base + g.bottom + PAGE_SIZE * k; var hdr' := Pushed(hdr, head, b, h);
      SizesOk(hdr', owner[b := USED]) && Apart(hdr') && Placed(hdr', After(g, k, PageCount(size)).rc, g.bottom, g.base)
  {
    hide Apart, Placed, SizesOk, PageCount, Extent, Pushed, InHeld, SizeOk, BlockPlaced;
    var b, count := g.base + g.bottom + PAGE_SIZE * k, PageCount(size);
    var hdr', g' := Pushed(hdr, head, b, h), After(g, k, count);
    LargeExtent(size);
    FreeRunVacant(hdr, owner, g, k, count);
    PushedSizes(hdr, head, b, h);
    PlacedKept(hdr, g.rc, g'.rc, g.bottom, g.base);
    InsideRun(g'.rc, g.bottom, k, count, b - g.base, Extent(size, size));
    AlignedPlace(g'.rc, g.bottom, g.base, b, size, k);
    OneMore(hdr, hdr', owner, g'.rc, g.bottom, g.base, b);
  }

  lemma AlignedPlace(rc: seq<nat>, bottom: nat, base: nat, b: nat, size: nat, k: nat)
    requires b == base + bottom + PAGE_SIZE * k && InHeld(rc, bottom, b - base, Extent(size, size))
    ensures BlockPlaced(rc, bottom, base, b, size, size)
  {
    hide InHeld, Extent;
  }

  lemma PushedSizes(hdr: Heap, head: nat, b: nat, h: Header)
    requires b !in hdr
    ensures var hdr' := Pushed(hdr, head, b, h);
      && hdr'.Keys == hdr.Keys + {b} && hdr'[b] == h
      && forall a {:trigger hdr'[a]} {:trigger hdr[a]} :: a in hdr ==> hdr'[a].size == hdr[a].size && hdr'[a].room == hdr[a].room
  {
  }

  lemma LargeExtent(size: u64)
    requires size > MAX_SMALL && size + HEADER_SIZE + PAGE_SIZE - 1 < WORD
    ensures Extent(size, size) == PAGE_SIZE * PageCount(size) && PageCount(size) > 0 && SizeOk(size)
  {
  }

  /** memory.c:353-361, 397-399: a large block leaves the used list and its pages are dropped. */
  lemma Discard(hdr: Heap, owner: map<nat, nat>, heads: seq<nat>, lists: seq<seq<nat>>, g: Ground, i: nat)
    requires Sound(hdr, owner, heads, lists, g) && i < |lists[USED]|
    requires lists[USED][i] in hdr && hdr[lists[USED][i]].size > MAX_SMALL
    ensures var b := lists[USED][i]; var k := (b - g.base - g.bottom) / PAGE_SIZE;
      && b - g.base == g.bottom + PAGE_SIZE * k && 0 <= k && k + PageCount(hdr[b].size) <= |g.rc|
      && Sound(Unlinked(hdr, b), owner - {b}, heads[USED := if heads[USED] == b then hdr[b].next else heads[USED]],
               lists[USED := Without(lists[USED], i)], g)
      && Sound(Unlinked(hdr, b), owner - {b}, heads[USED := if heads[USED] == b then hdr[b].next else heads[USED]],
               lists[USED := Without(lists[USED], i)], g.(rc := Dropped(g.rc, k, PageCount(hdr[b].size))))
  {
    hide Apart, Placed, Unlinked, Without, PageCount, SizesOk, Dropped, ListOk, Listed, BackOk, SizeOk;
    var b := lists[USED][i];
    SizeKnown(hdr, owner, b);
    Unlink(hdr, owner, heads, lists, i);
    DiscardPlaces(hdr, owner, g, b);
  }

  lemma DiscardPlaces(hdr: Heap, owner: map<nat, nat>, g: Ground, b: nat)
    requires SizesOk(hdr, owner) && Apart(hdr) && Placed(hdr, g.rc, g.bottom, g.base) && owner.Keys == hdr.Keys
    requires b in hdr && hdr[b].size > MAX_SMALL
    ensures var k := (b - g.base - g.bottom) / PAGE_SIZE;
      && b - g.base == g.bottom + PAGE_SIZE * k && 0 <= k && k + PageCount(hdr[b].size) <= |g.rc|
      && SizesOk(Unlinked(hdr, b), owner - {b}) && Apart(Unlinked(hdr, b))
      && Placed(Unlinked(hdr, b), g.rc, g.bottom, g.base)
      && Placed(Unlinked(hdr, b), Dropped(g.rc, k, PageCount(hdr[b].size)), g.bottom, g.base)
  {
    hide Apart, Placed, Unlinked, PageCount, SizesOk, Dropped, SizeOk, Extent, BlockPlaced;
    SizeKnown(hdr, owner, b);
    UnlinkedKeys(hdr, b);
    DropPlaced(hdr, b, g.rc, g.bottom, g.base);
    PlaceKnown(hdr, g.rc, g.bottom, g.base, b);
    var rest, hdr1 := hdr - {b}, Unlinked(hdr, b);
    forall a | a in hdr1 ensures hdr1[a].size == hdr[a].size && hdr1[a].room == hdr[a].room {
      UnlinkedNext(hdr, b, a);
    }
    assert SameSizes(rest, hdr1);
    OneLess(hdr, owner, g.rc, g.bottom, g.base, b);
    SizesKept(rest, hdr1, owner - {b}, g.rc, g.bottom, g.base);
    SizesKept(rest, hdr1, owner - {b}, Dropped(g.rc, (b - g.base - g.bottom) / PAGE_SIZE, PageCount(hdr[b].size)), g.bottom, g.base);
  }
}
