/** The bucket allocator of kernel/src/memory.c: malloc, free and realloc over seven size classes. */
module Malloc {
  import opened Words
  import opened Ram
  import opened DirectMap
  import opened Sync
  import opened Pages
  import opened FreeLists
  import opened Blocks
  import opened Regions
  import opened BlockHeap
  import opened Payloads
  import opened Outcomes
  import opened Neighbours
  import opened Snapshots

  lemma TakenSizes(hdr: Heap, head: nat, b: nat, h: Header)
    requires b in hdr
    ensures Pushed(hdr - {b}, head, b, h)[b] == h && KeptBut(hdr, Pushed(hdr - {b}, head, b, h), b)
    ensures Pushed(hdr - {b}, head, b, h).Keys == hdr.Keys
  {
  }

  /** Header of the first free block: a member of the heap, apart from the used list's first. */
  lemma HeadsInHeap(hdr: Heap, owner: map<nat, nat>, heads: seq<nat>, lists: seq<seq<nat>>, id: nat)
    requires Lists(hdr, owner, heads, lists) && id < LISTS
    ensures heads[id] != 0 ==> lists[id] != [] && heads[id] == lists[id][0] && heads[id] in hdr && owner[heads[id]] == id
  {
    assert ListOk(hdr, owner, heads[id], lists[id], id);
  }

  /** The i-th used block b can be unlinked and put in front of free list id, and all is sound then. */
  ghost predicate ReadyToFree(hdr: Heap, owner: map<nat, nat>, heads: seq<nat>, lists: seq<seq<nat>>, g: Ground, b: nat, i: nat, id: nat) {
    && 0 !in hdr && b in hdr && |heads| == LISTS && |lists| == LISTS && 0 < id < LISTS && i < |lists[USED]|
    && hdr[b].prev != b && (hdr[b].prev == 0 || hdr[b].prev in hdr)
    && hdr[b].next != b && (hdr[b].next == 0 || hdr[b].next in hdr)
    && var h, h0 := Header(heads[id], 0, hdr[b].size, hdr[b].origin, hdr[b].room), Header(0, 0, hdr[b].size, hdr[b].origin, hdr[b].room);
    && var loose := Unlinked(hdr, b)[b := h0];
    && heads[id] != b && (heads[id] == 0 || heads[id] in loose) && loose - {b} == Unlinked(hdr, b) && 0 !in loose
    && var hdr' := Pushed(Unlinked(hdr, b), heads[id], b, h);
    && KeptBut(hdr, hdr', b) && hdr'.Keys == hdr.Keys && hdr'[b] == h
    && Sound(hdr', owner[b := id], heads[USED := if heads[USED] == b then hdr[b].next else heads[USED]][id := b],
             lists[USED := Without(lists[USED], i)][id := [b] + lists[id]], g)
  }

  /** The run that alloc_pages hands out reads as zeros. */
  lemma ClaimClears(bottom: nat, k: nat, count: nat, m: Mem)
    requires bottom % PAGE_SIZE == 0
    requires forall j :: 0 <= j < count ==> Page0(bottom, k, j) in m && m[Page0(bottom, k, j)] == ZeroPage()
    ensures Cleared(m, bottom + PAGE_SIZE * k, PAGE_SIZE * count)
  {
    forall r: nat | bottom + PAGE_SIZE * k <= r < bottom + PAGE_SIZE * k + PAGE_SIZE * count ensures ByteOf(m, r) == 0 {
      var j := (r - bottom - PAGE_SIZE * k) / PAGE_SIZE;
      assert r - r % 4096 == Page0(bottom, k, j);
    }
  }

  function Page0(bottom: nat, k: nat, j: nat): nat {
    bottom + PAGE_SIZE * k + PAGE_SIZE * j
  }

  class BucketAllocator {
    const pages: PageAllocator
    var mutating: bool
    var heads: seq<nat>        // used, free_16, free_64, ..., free_65536
    var hdr: Heap              // the block headers in memory
    ghost var lists: Rows
    ghost var owner: map<nat, nat>

    ghost function Here(): Ground
      reads pages`on, pages.counts
    {
      Ground(pages.counts[..], pages.heapBottom, Base())
    }

    /** Lists, block sizes and page counts. */
    ghost function State(): Snapshot
      reads this`lists, this`hdr, pages`on, pages.counts
    {
      Snapshot(lists, BlocksOf(hdr), Here())
    }

    function Base(): nat
      reads pages`on
    {
      if pages.on then KERNEL_SPACE_OFFSET else 0
    }

    ghost predicate Ordered()
      reads this, pages, pages.counts
    {
      pages.Valid() && Sound(hdr, owner, heads, lists, Here())
    }

    ghost predicate Valid()
      reads this, pages, pages.counts
    {
      Ordered() && !mutating
    }

    /** The headers of the live blocks, latest first: the used list. */
    ghost function Used(): seq<nat>
      reads this`lists
    {
      if |lists| == LISTS then lists[USED] else []
    }

    ghost function LiveSet(): set<nat>
      reads this`lists
    {
      Members(Used())
    }

    predicate NeedsPages(size: u64)
      reads this`heads
    {
      size > MAX_SMALL || At(heads, ClassOf(size) + 1) == 0
    }

    constructor (pages: PageAllocator)
      requires pages.Valid()
      ensures Valid() && this.pages == pages && Used() == [] && heads == seq(LISTS, _ => 0) && hdr == map[]
    {
      this.pages := pages;
      mutating := false;
      heads, hdr, lists, owner := seq(LISTS, _ => 0), map[], seq(LISTS, _ => []), map[];
    }

    method Lock()
      requires !mutating
      modifies this`mutating, pages`log
      ensures mutating && pages.log == Then(old(pages.log), Acquire(Allocator))
    {
      mutating := true;
      pages.log := Then(pages.log, Acquire(Allocator));
    }

    method Unlock()
      modifies this`mutating, pages`log
      ensures !mutating && pages.log == Then(old(pages.log), Release(Allocator))
    {
      mutating := false;
      pages.log := Then(pages.log, Release(Allocator));
    }

    /** free_buckets_format_unused on cleared pages: the headers it leaves are those of Region, tail included. */
    method FormatUnused(data: nat, c: nat) returns (first: nat)
      requires c < CLASS_COUNT && data >= Base() && Cleared(pages.mem, data - Base(), REGION)
      modifies this`hdr
      ensures first == data && hdr == Region(old(hdr), data, c)
    {
      var total := REFILL_PAGES * PAGE_SIZE;
      var size := HEADER_SIZE + ClassSize(c);
      var i := 0;
      ghost var k := 0;
      TailIsShort(c);
      while i + size < total
        invariant i == k * size && k <= Buckets(c)
        invariant hdr == Format(old(hdr), data, c, k)
        decreases total - i
      {
        assert k < Buckets(c) by {
          if k == Buckets(c) {
            assert false;
          }
        }
        NodeStep(data, c, k);
        var prev := if i > 0 then data + i - size else 0;
        var next := if i + size < total then data + i + size else 0;
        hdr := hdr[data + i := Header(next, prev, ClassSize(c), 0, ClassSize(c))];
        i := i + size;
        k := k + 1;
      }
      StopsAt(c, k);
      // The last link names the next address all the same: what the memory holds there is a header.
      ClearedHeader(pages.mem, data - Base(), REGION, data + i - Base(), Room(c));
      hdr := hdr[data + i := HeaderAt(pages.mem, data + i - Base(), Room(c))];
      first := data;
    }

    static lemma NodeStep(data: nat, c: nat, k: nat)
      requires c < CLASS_COUNT
      ensures Node(data, c, k) == data + k * Stride(c) && Node(data, c, k + 1) == data + k * Stride(c) + Stride(c)
      ensures k > 0 ==> Node(data, c, k - 1) == data + k * Stride(c) - Stride(c)
      ensures k > 0 <==> k * Stride(c) > 0
    {
      assert k > 0 ==> k * Stride(c) == (k - 1) * Stride(c) + Stride(c);
    }

    static lemma StopsAt(c: nat, k: nat)
      requires c < CLASS_COUNT && k <= Buckets(c) && k * Stride(c) + Stride(c) >= REGION
      ensures k == Buckets(c)
    {
      if k < Buckets(c) {
        TailIsShort(c);
        NodesApart(0, c, k, Buckets(c));
      }
    }

    /** A run of fresh pages, seen through the window. */
    method FreshPages(count: nat) returns (page: nat, over: bool, ghost k: nat)
      requires pages.Valid()
      modifies pages`mem, pages`mutatingHeap, pages`log, pages.counts
      ensures pages.Valid() && pages.log == HeapCall(old(pages.log))
      ensures over <==> 2 * count > pages.heapBottom
      ensures page == 0 <==> over || NoFit(old(pages.counts[..]), count)
      ensures page == 0 ==> pages.counts[..] == old(pages.counts[..]) && pages.mem == old(pages.mem)
      ensures page != 0 ==>
        && FirstFit(old(pages.counts[..]), k, count) && page == old(Here()).base + pages.heapBottom + PAGE_SIZE * k
        && pages.counts[..] == Taken(old(pages.counts[..]), k, count)
        && HeldKept(old(pages.counts[..]), pages.heapBottom, old(pages.mem), pages.mem)
        && Cleared(pages.mem, pages.heapBottom + PAGE_SIZE * k, PAGE_SIZE * count)
    {
      hide ByteOf, HeldKept, Cleared, NoFit;
      page, over := pages.AllocPages(count);
      k := 0;
      if page != 0 {
        k := pages.Index(page);
        ClaimKeeps(old(pages.counts[..]), pages.heapBottom, k, count, old(pages.mem), pages.mem);
        forall j | 0 <= j < count
          ensures Page0(pages.heapBottom, k, j) in pages.mem && pages.mem[Page0(pages.heapBottom, k, j)] == ZeroPage()
        {
          assert pages.Addr(k + j) in pages.mem;
        }
        ClaimClears(pages.heapBottom, k, count, pages.mem);
        page := Phys2Safe(page, pages.on);
      }
    }

    /** memory.c:323-329: the block becomes the first used one. */
    method LinkUsed(b: nat, origin: nat)
      requires |heads| == LISTS && b in hdr && heads[USED] != b && (heads[USED] == 0 || heads[USED] in hdr) && 0 !in hdr
      modifies this`hdr, this`heads
      ensures heads == old(heads)[USED := b]
      ensures hdr == Pushed(old(hdr) - {b}, old(heads)[USED], b, Header(old(heads)[USED], 0, old(hdr)[b].size, origin, old(hdr)[b].room))
    {
      hdr := hdr[b := hdr[b].(origin := origin)];
      hdr := hdr[b := hdr[b].(next := heads[USED])];
      if heads[USED] != 0 {
        hdr := hdr[heads[USED] := hdr[heads[USED]].(prev := b)];
      }
      heads := heads[USED := b];
      hdr := hdr[b := hdr[b].(prev := 0)];
    }

    /** memory.c:353-360: the block leaves the used list. */
    method UnlinkUsed(b: nat)
      requires |heads| == LISTS && b in hdr && 0 !in hdr
      requires hdr[b].prev != b && hdr[b].next != b
      requires hdr[b].prev == 0 || hdr[b].prev in hdr
      requires hdr[b].next == 0 || hdr[b].next in hdr
      modifies this`hdr, this`heads
      ensures heads == old(heads)[USED := if old(heads)[USED] == b then old(hdr)[b].next else old(heads)[USED]]
      ensures hdr == Unlinked(old(hdr), b)[b := Header(0, 0, old(hdr)[b].size, old(hdr)[b].origin, old(hdr)[b].room)]
    {
      if hdr[b].prev != 0 {
        hdr := hdr[hdr[b].prev := hdr[hdr[b].prev].(next := hdr[b].next)];
      }
      if hdr[b].next != 0 {
        hdr := hdr[hdr[b].next := hdr[hdr[b].next].(prev := hdr[b].prev)];
      }
      if b == heads[USED] {
        heads := heads[USED := hdr[heads[USED]].next];
      }
      hdr := hdr[b := hdr[b].(prev := 0)];
      hdr := hdr[b := hdr[b].(next := 0)];
    }

    /** memory.c:362-396: the block becomes the first free one of its class. */
    method LinkFree(b: nat, id: nat)
      requires |heads| == LISTS && b in hdr && 0 < id < LISTS && heads[id] != b && 0 !in hdr && hdr[b].prev == 0
      requires heads[id] == 0 || heads[id] in hdr
      modifies this`hdr, this`heads
      ensures heads == old(heads)[id := b]
      ensures hdr == Pushed(old(hdr) - {b}, old(heads)[id], b, old(hdr)[b].(next := old(heads)[id]))
    {
      if heads[id] != 0 {
        hdr := hdr[heads[id] := hdr[heads[id]].(prev := b)];
      }
      hdr := hdr[b := hdr[b].(next := heads[id])];
      heads := heads[id := b];
    }

    lemma Shape()
      requires Ordered()
      ensures |heads| == LISTS && |lists| == LISTS && 0 !in hdr
    {
      hide Lists, SizesOk, Apart, Placed;
      ListsShape(hdr, owner, heads, lists);
    }

    /** An empty free list is filled. */
    method Refill(c: nat) returns (ok: bool)
      requires Ordered() && c < CLASS_COUNT && heads[c + 1] == 0
      modifies this`hdr, this`heads, this`lists, this`owner
      modifies pages`mem, pages`mutatingHeap, pages`log, pages.counts
      ensures Ordered() && pages.log == HeapCall(old(pages.log))
      ensures ok <==> !NoFit(old(pages.counts[..]), REFILL_PAGES)
      ensures HeldKept(old(pages.counts[..]), pages.heapBottom, old(pages.mem), pages.mem)
      ensures !ok ==>
        && pages.counts[..] == old(pages.counts[..]) && pages.mem == old(pages.mem)
        && hdr == old(hdr) && heads == old(heads) && lists == old(lists)
      ensures ok ==> |heads| == LISTS && heads[c + 1] != 0 && var data := heads[c + 1];
        && TakenAt(old(Here()), pages.counts[..], data, REFILL_PAGES) && Vacant(old(hdr), data)
        && hdr == Region(old(hdr), data, c) && heads == old(heads)[c + 1 := data] && lists == old(lists)[c + 1 := Nodes(data, c)]
    {
      hide Sound, NoFit, FirstFit, Taken, Region, Nodes, Owned, HeldKept, Vacant, FreeRunAt, Cleared;
      Shape();
      ghost var k;
      var page, over;
      page, over, k := FreshPages(REFILL_PAGES);
      ok := page != 0;
      if ok {
        FitIsFree(old(pages.counts[..]), k, REFILL_PAGES);
        BlockHeap.Refill(hdr, owner, heads, lists, old(Here()), k, c);
        var data := FormatUnused(page, c);
        heads := heads[c + 1 := data];
        lists, owner := lists[c + 1 := Nodes(data, c)], Owned(owner, Nodes(data, c), c + 1);
      } else {
        HeldSame(pages.counts[..], pages.heapBottom, pages.mem);
      }
    }

    /** memory.c:227-228, 323-329. */
    method UseFree(c: nat, origin: nat) returns (b: nat)
      requires Ordered() && c < CLASS_COUNT && heads[c + 1] != 0
      modifies this`hdr, this`heads, this`lists, this`owner
      ensures Ordered() && b == old(heads[c + 1]) && b in old(hdr) && hdr.Keys == old(hdr.Keys)
      ensures Handed(old(hdr), hdr, old(Used()), Used(), b, origin)
      ensures hdr[b].size == old(hdr)[b].size && hdr[b].room == old(hdr)[b].room && RoomOk(hdr[b].size, hdr[b].room)
      ensures (hdr[b].size == 0 || hdr[b].size == ClassSize(c))
      ensures old(lists)[c + 1] != [] && b == old(lists)[c + 1][0]
      ensures lists == old(lists)[c + 1 := old(lists)[c + 1][1..]][USED := [b] + old(Used())]
    {
      hide ListOk, Listed, BackOk, SizesOk, Apart, Placed, Pushed, KeptBut;
      Take(hdr, owner, heads, lists, Here(), c, origin);
      HeadsInHeap(hdr, owner, heads, lists, c + 1);
      HeadsInHeap(hdr, owner, heads, lists, USED);
      b := heads[c + 1];
      ghost var h := Header(heads[USED], 0, hdr[b].size, origin, hdr[b].room);
      TakenSizes(hdr, heads[USED], b, h);
      assert Pushed(hdr - {b}, heads[USED], b, h).Keys == hdr.Keys;
      heads := heads[c + 1 := hdr[b].next];
      LinkUsed(b, origin);
      lists, owner := lists[c + 1 := lists[c + 1][1..]][USED := [b] + lists[USED]], owner[b := USED];
    }

    /** memory.c:307-329. */
    method UseFresh(size: u64, origin: nat) returns (b: nat, over: bool)
      requires Ordered() && size > MAX_SMALL && size + HEADER_SIZE + PAGE_SIZE - 1 < WORD
      modifies this`hdr, this`heads, this`lists, this`owner
      modifies pages`mem, pages`mutatingHeap, pages`log, pages.counts
      ensures Ordered() && pages.log == HeapCall(old(pages.log))
      ensures over <==> 2 * PageCount(size) > pages.heapBottom
      ensures b == 0 <==> over || NoFit(old(pages.counts[..]), PageCount(size))
      ensures HeldKept(old(pages.counts[..]), pages.heapBottom, old(pages.mem), pages.mem)
      ensures b == 0 ==>
        && pages.counts[..] == old(pages.counts[..]) && pages.mem == old(pages.mem)
        && hdr == old(hdr) && heads == old(heads) && lists == old(lists)
      ensures b != 0 ==>
        && Handed(old(hdr), hdr, old(Used()), Used(), b, origin) && hdr[b].size == hdr[b].room == size
        && hdr.Keys == old(hdr.Keys) + {b} && b !in old(hdr)
        && lists == old(lists)[USED := [b] + old(Used())]
        && TakenAt(old(Here()), pages.counts[..], b, PageCount(size))
    {
      hide ListOk, Listed, BackOk, SizesOk, Apart, Placed, Pushed, KeptBut, NoFit, FirstFit, Taken, HeldKept,
        FreeRunAt, PageCount;
      ghost var k;
      b, over, k := FreshPages(PageCount(size));
      if b == 0 {
        HeldSame(pages.counts[..], pages.heapBottom, pages.mem);
        return;
      }
      FitIsFree(old(pages.counts[..]), k, PageCount(size));
      Adopt(hdr, owner, heads, lists, old(Here()), k, size, origin);
      HeadsInHeap(hdr, owner, heads, lists, USED);
      ghost var h := Header(heads[USED], 0, size, origin, size);
      FreshSizes(hdr, heads[USED], b, h);
      NotListed(hdr, owner, heads, lists, b);
      hdr := hdr[b := Header(0, 0, size, 0, size)];
      assert hdr - {b} == old(hdr);
      LinkUsed(b, origin);
      lists, owner := lists[USED := [b] + lists[USED]], owner[b := USED];
    }

    static lemma FreshSizes(hdr: Heap, head: nat, b: nat, h: Header)
      requires b !in hdr
      ensures Pushed(hdr, head, b, h)[b] == h && KeptBut(hdr, Pushed(hdr, head, b, h), b)
      ensures Pushed(hdr, head, b, h).Keys == hdr.Keys + {b}
    {
    }

    static lemma NotListed(hdr: Heap, owner: map<nat, nat>, heads: seq<nat>, lists: seq<seq<nat>>, b: nat)
      requires Lists(hdr, owner, heads, lists) && b !in hdr
      ensures b !in lists[USED]
    {
      assert ListOk(hdr, owner, heads[USED], lists[USED], USED);
    }

    /**
     * free_buckets_alloc and malloc. With the MMU on, phys2safe turns a failed alloc_pages into a non-null
     * address that the code goes on to use; that outcome is `oom`. A size for which the page count or the scan of the
     * counters wraps around is `over`. The block has room for the request unless it is a tail that is too short.
     */
    method Alloc(size: u64, origin: u64) returns (p: nat, oom: bool, over: bool)
      requires Valid()
      modifies this`hdr, this`heads, this`lists, this`owner, this`mutating
      modifies pages`mem, pages`mutatingHeap, pages`log, pages.counts
      ensures Valid()
      ensures pages.log == if size == 0 || Wraps(size) then old(pages.log) else AllocatorCall(old(pages.log), old(NeedsPages(size)))
      ensures HeldKept(old(pages.counts[..]), pages.heapBottom, old(pages.mem), pages.mem)
      ensures over <==> Oversized(size)
      ensures p == 0 <==> size == 0 || over || (old(NeedsPages(size)) && NoFit(old(pages.counts[..]), PagesOf(size)))
      ensures oom <==> size != 0 && p == 0 && !over && pages.on
      ensures p == 0 ==> hdr == old(hdr) && heads == old(heads) && lists == old(lists)
      ensures p == 0 || !old(NeedsPages(size)) ==> pages.counts[..] == old(pages.counts[..])
      ensures p != 0 ==> p > HEADER_SIZE && Handed(old(hdr), hdr, old(Used()), Used(), p - HEADER_SIZE, origin)
      ensures p != 0 ==> SizeOf(hdr, p - HEADER_SIZE) == old(Capacity(size)) && RoomOf(hdr, p - HEADER_SIZE) == old(RoomFor(size))
      ensures p != 0 && old(RoomFor(size)) < size ==> old(TailFirst(size))
      ensures p != 0 && !old(NeedsPages(size)) ==> p == old(At(heads, ClassOf(size) + 1)) + HEADER_SIZE
      ensures p != 0 && old(NeedsPages(size)) ==>
        TakenAt(old(Here()), pages.counts[..], p - HEADER_SIZE, PagesOf(size))
      ensures p != 0 ==> Served(old(lists), lists, old(hdr), hdr, size, old(NeedsPages(size)), p - HEADER_SIZE)
      ensures size > MAX_SMALL && !Wraps(size) ==> LargeTaken(old(Here()), pages.counts[..], size, p, over)
      ensures State() == if p == 0 then old(State()) else AfterMalloc(old(State()), size)
      ensures p != 0 ==> p == PlaceOf(old(State()), size) + HEADER_SIZE
      ensures Untouched(old(LiveSet()), old(pages.mem), old(hdr), pages.mem, hdr, Base())
      ensures Minds(old(hdr), old(Here()), old(pages.mem), hdr, pages.counts[..], pages.mem)
    {
      hide Minds, Sound, NoFit, TakenAt, HeldKept, PageCount, Handed, Served, Untouched, ClassSize, ClassOf,
        NeedsPages, TailFirst, Capacity, HeapCall, BlocksOf, AfterMalloc, PlaceOf, LargeTaken;
      p, oom, over := 0, false, Wraps(size);
      if size == 0 || over {
        HeldSame(pages.counts[..], pages.heapBottom, pages.mem);
        MindsNothing(hdr, Here(), pages.mem, pages.counts[..], pages.mem);
        LiveInHeap();
        SelfUntouched(LiveSet(), pages.mem, hdr, Base());
        return;
      }
      Lock();
      var b;
      b, over := AllocBlock(size, origin);
      Unlock();
      p := if b == 0 then 0 else b + HEADER_SIZE;
      oom := b == 0 && pages.on && !over;
      if size > MAX_SMALL {
        NeedsMany(size);
        LargeTakenIs(old(Here()), pages.counts[..], size, p, over);
      }
    }

    lemma NeedsMany(size: u64)
      ensures size > MAX_SMALL ==> NeedsPages(size) && PagesOf(size) == PageCount(size)
    {
    }

    /** The part of free_buckets_alloc under the lock. */
    method AllocBlock(size: u64, origin: u64) returns (b: nat, over: bool)
      requires Ordered() && 0 < size && !Wraps(size)
      modifies this`hdr, this`heads, this`lists, this`owner
      modifies pages`mem, pages`mutatingHeap, pages`log, pages.counts
      ensures Ordered()
      ensures pages.log == if old(NeedsPages(size)) then HeapCall(old(pages.log)) else old(pages.log)
      ensures HeldKept(old(pages.counts[..]), pages.heapBottom, old(pages.mem), pages.mem)
      ensures over <==> Oversized(size)
      ensures b == 0 <==> over || (old(NeedsPages(size)) && NoFit(old(pages.counts[..]), PagesOf(size)))
      ensures b == 0 ==> hdr == old(hdr) && heads == old(heads) && lists == old(lists)
      ensures b == 0 || !old(NeedsPages(size)) ==> pages.counts[..] == old(pages.counts[..])
      ensures b != 0 ==> Handed(old(hdr), hdr, old(Used()), Used(), b, origin)
      ensures b != 0 ==> SizeOf(hdr, b) == old(Capacity(size)) && RoomOf(hdr, b) == old(RoomFor(size))
      ensures b != 0 && old(RoomFor(size)) < size ==> old(TailFirst(size))
      ensures b != 0 && !old(NeedsPages(size)) ==> b == old(At(heads, ClassOf(size) + 1))
      ensures b != 0 && old(NeedsPages(size)) ==> TakenAt(old(Here()), pages.counts[..], b, PagesOf(size))
      ensures b != 0 ==> Served(old(lists), lists, old(hdr), hdr, size, old(NeedsPages(size)), b)
      ensures State() == if b == 0 then old(State()) else AfterMalloc(old(State()), size)
      ensures b != 0 ==> b == PlaceOf(old(State()), size)
      ensures Untouched(old(LiveSet()), old(pages.mem), old(hdr), pages.mem, hdr, Base())
      ensures Minds(old(hdr), old(Here()), old(pages.mem), hdr, pages.counts[..], pages.mem)
    {
      hide NewOnFree, OthersKept, Sound, NoFit, TakenAt, HeldKept, PageCount, ClassSize, ClassOf, KeptBut, Untouched,
        Present, Refilled, ServedFrom, BlocksOf, AfterMalloc, PlaceOf, Needs;
      Shape();
      ghost var g, m, s := Here(), pages.mem, State();
      AllPresent();
      AsSeen(size);
      over := false;
      if size <= MAX_SMALL {
        HeadSize(ClassOf(size));
        b := AllocSmall(ClassOf(size), origin);
      } else {
        b, over := UseFresh(size, origin);
        if b == 0 {
          SameOnFree(hdr, hdr, g);
        } else {
          LargeOnFree(old(hdr), hdr, g, pages.counts[..], b, size);
        }
      }
      TakenOthers(old(hdr), g, m, pages.counts[..], pages.mem, b, PagesOf(size));
      SelfKept(old(hdr));
      ZeroUnused(old(hdr), old(owner), old(heads), old(lists), g);
      LiveContents(old(hdr), old(owner), old(heads), old(lists), g, m, pages.mem, hdr, b);
      if b != 0 {
        MallocStep(s, State(), old(hdr), hdr, size, b);
      }
    }

    /** A free list starts with a block of its class's size or with a tail. */
    lemma HeadSize(c: nat)
      requires Ordered() && c < CLASS_COUNT
      ensures heads[c + 1] != 0 ==>
        && heads[c + 1] in hdr && RoomOk(hdr[heads[c + 1]].size, hdr[heads[c + 1]].room)
        && (hdr[heads[c + 1]].size == 0 || hdr[heads[c + 1]].size == ClassSize(c))
    {
      hide SizeOk, ListOk, Listed, BackOk;
      HeadsInHeap(hdr, owner, heads, lists, c + 1);
    }

    /** memory.c:216-306: one rung of the ladder of size classes. */
    method AllocSmall(c: nat, origin: nat) returns (b: nat)
      requires Ordered() && c < CLASS_COUNT
      modifies this`hdr, this`heads, this`lists, this`owner
      modifies pages`mem, pages`mutatingHeap, pages`log, pages.counts
      ensures Ordered()
      ensures pages.log == if old(heads[c + 1]) == 0 then HeapCall(old(pages.log)) else old(pages.log)
      ensures HeldKept(old(pages.counts[..]), pages.heapBottom, old(pages.mem), pages.mem)
      ensures b == 0 <==> old(heads[c + 1]) == 0 && NoFit(old(pages.counts[..]), REFILL_PAGES)
      ensures b == 0 ==> hdr == old(hdr) && heads == old(heads) && lists == old(lists)
      ensures b == 0 || old(heads[c + 1]) != 0 ==> pages.counts[..] == old(pages.counts[..])
      ensures b != 0 ==> Handed(old(hdr), hdr, old(Used()), Used(), b, origin)
      ensures old(heads[c + 1]) != 0 ==> b == old(heads[c + 1]) && b in old(hdr)
      ensures old(heads[c + 1]) != 0 ==> hdr[b].size == old(hdr)[b].size && hdr[b].room == old(hdr)[b].room
      ensures b != 0 && old(heads[c + 1]) == 0 ==>
        hdr[b].size == hdr[b].room == ClassSize(c) && TakenAt(old(Here()), pages.counts[..], b, REFILL_PAGES)
      ensures b != 0 && old(heads[c + 1]) == 0 ==>
        ServedFrom(old(lists), lists, c, Nodes(b, c), b) && Refilled(old(hdr), hdr, b, c)
      ensures b != 0 && old(heads[c + 1]) != 0 ==>
        ServedFrom(old(lists), lists, c, old(lists[c + 1]), b) && hdr.Keys == old(hdr.Keys)
      ensures NewOnFree(old(hdr), hdr, old(Here()))
    {
      hide NewOnFree, Sound, NoFit, TakenAt, HeldKept, KeptBut, Region, Nodes, Vacant, Refilled;
      Shape();
      HeldSame(pages.counts[..], pages.heapBottom, pages.mem);
      if heads[c + 1] == 0 {
        var ok := Refill(c);
        if !ok {
          SameOnFree(hdr, hdr, old(Here()));
          return 0;
        }
        Shape();
        RegionHead(old(hdr), heads[c + 1], c);
        ghost var refilled := hdr;
        b := UseFree(c, origin);
        KeptThrough(old(hdr), refilled, hdr, b);
        RegionSizes(old(hdr), hdr, b, c);
        RegionOnFree(old(hdr), hdr, old(Here()), pages.counts[..], b, c);
      } else {
        b := UseFree(c, origin);
        FreedWithin(old(hdr), hdr, b);
        SameOnFree(old(hdr), hdr, old(Here()));
      }
    }

    static lemma KeptThrough(h: Heap, h1: Heap, h2: Heap, b: nat)
      requires KeptBut(h, h1, 0) && 0 !in h && KeptBut(h1, h2, b)
      ensures KeptBut(h, h2, b)
    {
      forall a | a in h && a != b ensures a in h2 && h2[a].size == h[a].size && h2[a].room == h[a].room && h2[a].origin == h[a].origin {
        assert a in h1;
      }
    }

    /** The first free block of the request's class is the tail of a region. */
    predicate TailFirst(size: u64)
      reads this`heads, this`hdr
    {
      !NeedsPages(size) && SizeOf(hdr, At(heads, ClassOf(size) + 1)) == 0
    }

    /** The size that the block for this request records. */
    function Capacity(size: u64): nat
      reads this`heads, this`hdr
    {
      if size > MAX_SMALL then size else if TailFirst(size) then 0 else ClassSize(ClassOf(size))
    }

    /** The room that the block for this request has. */
    function RoomFor(size: u64): nat
      reads this`heads, this`hdr
    {
      if size > MAX_SMALL then size
      else if NeedsPages(size) then ClassSize(ClassOf(size)) else RoomOf(hdr, At(heads, ClassOf(size) + 1))
    }

    /** The number of pages for this size, or the scan for so many, is not computed right. */
    predicate Oversized(size: u64) {
      Wraps(size) || (size > MAX_SMALL && 2 * PageCount(size) > pages.heapBottom)
    }

    static lemma RegionHead(h: Heap, data: nat, c: nat)
      requires c < CLASS_COUNT && Vacant(h, data)
      ensures data in Region(h, data, c) && Region(h, data, c)[data].size == Region(h, data, c)[data].room == ClassSize(c)
      ensures KeptBut(h, Region(h, data, c), 0)
    {
      hide Region, Nodes, Buckets, Node;
      RegionBlocks(h, data, c);
      NodeFirst(data, c);
      TailIsShort(c);
      assert Nodes(data, c)[0] == data;
    }

    static lemma RegionSizes(h: Heap, h': Heap, data: nat, c: nat)
      requires c < CLASS_COUNT && Vacant(h, data) && h'.Keys == Region(h, data, c).Keys
      requires KeptBut(Region(h, data, c), h', data) && SizeOf(h', data) == RoomOf(h', data) == ClassSize(c)
      ensures Refilled(h, h', data, c) && data !in h
    {
      hide Region, Nodes, Buckets, Node;
      RegionBlocks(h, data, c);
      NodeFirst(data, c);
      TailIsShort(c);
      var r, l := Region(h, data, c), Nodes(data, c);
      assert l[0] == data;
      forall j | 0 <= j <= Buckets(c)
        ensures SizeOf(h', l[j]) == (if j == Buckets(c) then 0 else ClassSize(c))
        ensures RoomOf(h', l[j]) == (if j == Buckets(c) then Room(c) else ClassSize(c))
      {
        if j > 0 {
          NodesApart(data, c, 0, j);
          assert l[j] in h';
        }
      }
      forall a ensures a in h' <==> a in h || a in Members(l) {
      }
    }

    /** The used list knows each live block's neighbours. */
    static lemma UsedLinks(hdr: Heap, owner: map<nat, nat>, heads: seq<nat>, lists: seq<seq<nat>>, i: nat)
      requires Lists(hdr, owner, heads, lists) && i < |lists[USED]|
      ensures var b := lists[USED][i];
        && b in hdr && b != 0 && hdr[b].prev != b && hdr[b].next != b
        && (hdr[b].prev == 0 || hdr[b].prev in hdr) && (hdr[b].next == 0 || hdr[b].next in hdr)
        && (forall id :: 0 < id < LISTS ==> heads[id] != b)
    {
      var l := lists[USED];
      assert ListOk(hdr, owner, heads[USED], l, USED);
      UsedBlock(hdr, owner, heads[USED], l, i);
      forall id | 0 < id < LISTS ensures heads[id] != l[i] {
        HeadsInHeap(hdr, owner, heads, lists, id);
      }
    }

    static lemma UnlinkedKept(hdr: Heap, b: nat, head: nat, h: Header)
      requires b in hdr && h.size == hdr[b].size && h.room == hdr[b].room && h.origin == hdr[b].origin
      ensures KeptBut(hdr, Unlinked(hdr, b), b) && Unlinked(hdr, b).Keys == hdr.Keys - {b}
      ensures Unlinked(hdr, b)[b := h] - {b} == Unlinked(hdr, b)
      ensures Pushed(Unlinked(hdr, b), head, b, h)[b] == h && Pushed(Unlinked(hdr, b), head, b, h).Keys == hdr.Keys
      ensures KeptBut(hdr, Pushed(Unlinked(hdr, b), head, b, h), b)
    {
    }

    /** free, for the i-th used block of a small class. */
    method FreeSmall(b: nat, ghost i: nat)
      requires Ordered() && i < |Used()| && Used()[i] == b && b in hdr && hdr[b].size <= MAX_SMALL
      modifies this`hdr, this`heads, this`lists, this`owner
      ensures Ordered() && Freed(old(hdr), hdr, old(Used()), Used(), b) && hdr.Keys == old(hdr.Keys)
      ensures hdr[b].size == old(hdr)[b].size && hdr[b].room == old(hdr)[b].room && Fronted(old(lists), lists, ClassOf(hdr[b].size) + 1, b)
      ensures lists == old(lists)[USED := Without(old(Used()), i)][ClassOf(hdr[b].size) + 1 := [b] + old(lists)[ClassOf(hdr[b].size) + 1]]
    {
      hide Sound, Pushed, KeptBut, Unlinked, Without, ClassOf;
      SmallBlock(b, i);
      var id := ClassOf(hdr[b].size) + 1;
      UnlinkUsed(b);
      LinkFree(b, id);
      lists, owner := lists[USED := Without(lists[USED], i)][id := [b] + lists[id]], owner[b := id];
    }

    lemma SmallBlock(b: nat, i: nat)
      requires Ordered() && i < |Used()| && Used()[i] == b && b in hdr && hdr[b].size <= MAX_SMALL
      ensures ReadyToFree(hdr, owner, heads, lists, Here(), b, i, ClassOf(hdr[b].size) + 1)
    {
      hide ListOk, Listed, BackOk, SizesOk, Apart, Placed, Pushed, KeptBut, Unlinked, Without, ClassOf;
      var id := ClassOf(hdr[b].size) + 1;
      GiveBack(hdr, owner, heads, lists, Here(), i);
      UsedLinks(hdr, owner, heads, lists, i);
      HeadsInHeap(hdr, owner, heads, lists, id);
      UnlinkedKept(hdr, b, heads[id], Header(heads[id], 0, hdr[b].size, hdr[b].origin, hdr[b].room));
      UnlinkedKept(hdr, b, heads[id], Header(0, 0, hdr[b].size, hdr[b].origin, hdr[b].room));
    }

    /** free, for the i-th used block, a large one: its pages lose a holder (page 0 of the heap has no counter). */
    method FreeLarge(b: nat, ghost i: nat)
      requires Ordered() && i < |Used()| && Used()[i] == b && b in hdr && hdr[b].size > MAX_SMALL
      modifies this`hdr, this`heads, this`lists, this`owner
      modifies pages`mutatingHeap, pages`log, pages.counts
      ensures Ordered() && Freed(old(hdr), hdr, old(Used()), Used(), b) && hdr.Keys == old(hdr.Keys) - {b}
      ensures lists == old(lists)[USED := Without(old(Used()), i)]
      ensures pages.log == HeapCall(old(pages.log))
      ensures old(hdr)[b].size + HEADER_SIZE + PAGE_SIZE - 1 < WORD
      ensures DroppedAt(old(Here()), pages.counts[..], b, PageCount(old(hdr)[b].size))
    {
      hide Sound, KeptBut, Unlinked, Without, PageCount, Dropped;
      ghost var k := LargeBlock(b, i);
      UnlinkUsed(b);
      pages.IndexOfAddr(k);
      var over := pages.DeallocPages(b, PageCount(hdr[b].size));
      assert !over;
      hdr := hdr - {b};
      lists, owner := lists[USED := Without(lists[USED], i)], owner - {b};
    }

    /** A live large block begins on page k, its pages have counters, and it can be unlinked and dropped. */
    lemma LargeBlock(b: nat, i: nat) returns (k: nat)
      requires Ordered() && i < |Used()| && Used()[i] == b && b in hdr && hdr[b].size > MAX_SMALL
      ensures hdr[b].size + HEADER_SIZE + PAGE_SIZE - 1 < WORD && b < WORD && 0 !in hdr && owner.Keys == hdr.Keys
      ensures hdr[b].prev != b && hdr[b].next != b && |heads| == LISTS && |lists| == LISTS
      ensures (hdr[b].prev == 0 || hdr[b].prev in hdr) && (hdr[b].next == 0 || hdr[b].next in hdr)
      ensures Safe2Phys(b, pages.on) == pages.Addr(k) && b == Base() + pages.Addr(k) && k + PageCount(hdr[b].size) <= pages.counts.Length
      ensures Unlinked(hdr, b)[b := Header(0, 0, hdr[b].size, hdr[b].origin, hdr[b].room)] - {b} == Unlinked(hdr, b)
      ensures KeptBut(hdr, Unlinked(hdr, b), b) && Unlinked(hdr, b).Keys == hdr.Keys - {b}
      ensures var heads' := heads[USED := if heads[USED] == b then hdr[b].next else heads[USED]];
        var lists' := lists[USED := Without(lists[USED], i)];
        Sound(Unlinked(hdr, b), owner - {b}, heads', lists', Here()) &&
        Sound(Unlinked(hdr, b), owner - {b}, heads', lists', Here().(rc := Dropped(Here().rc, k, PageCount(hdr[b].size))))
    {
      hide ListOk, Listed, BackOk, SizesOk, Apart, Placed, KeptBut, Unlinked, Without, PageCount, Dropped;
      k := 0;
      var g := Here();
      UsedSize(b);
      Discard(hdr, owner, heads, lists, g, i);
      k := (b - g.base - g.bottom) / PAGE_SIZE;
      UsedLinks(hdr, owner, heads, lists, i);
      UnlinkedKept(hdr, b, 0, Header(0, 0, hdr[b].size, hdr[b].origin, hdr[b].room));
      LargeExtent(hdr[b].size);
      WindowBack(b);
    }

    lemma UsedSize(b: nat)
      requires SizesOk(hdr, owner) && b in hdr && b in owner
      ensures hdr[b].size < WORD && (hdr[b].size > MAX_SMALL ==> hdr[b].size + HEADER_SIZE + PAGE_SIZE - 1 < WORD)
    {
    }

    lemma WindowBack(b: nat)
      requires b >= Base() && b - Base() < WINDOW
      ensures b < WORD && Safe2Phys(b, pages.on) == b - Base()
    {
    }

    /** A pointer that malloc returned and nobody freed since. */
    ghost predicate Live(p: nat)
      reads this`lists
    {
      |lists| == LISTS && p >= HEADER_SIZE && p - HEADER_SIZE in Used()
    }

    method Free(p: nat)
      requires Valid() && (p == 0 || Live(p))
      modifies this`hdr, this`heads, this`lists, this`owner, this`mutating
      modifies pages`mutatingHeap, pages`log, pages.counts
      ensures Valid()
      ensures p == 0 ==> pages.log == old(pages.log) && hdr == old(hdr) && lists == old(lists) && pages.counts[..] == old(pages.counts[..])
      ensures p != 0 ==> Freed(old(hdr), hdr, old(Used()), Used(), p - HEADER_SIZE)
      ensures p != 0 ==> pages.log == AllocatorCall(old(pages.log), SizeOf(old(hdr), p - HEADER_SIZE) > MAX_SMALL)
      ensures p != 0 && SizeOf(old(hdr), p - HEADER_SIZE) <= MAX_SMALL ==>
        && hdr.Keys == old(hdr.Keys) && SizeOf(hdr, p - HEADER_SIZE) == SizeOf(old(hdr), p - HEADER_SIZE)
        && Fronted(old(lists), lists, ClassOf(SizeOf(hdr, p - HEADER_SIZE)) + 1, p - HEADER_SIZE)
        && pages.counts[..] == old(pages.counts[..])
      ensures p != 0 && SizeOf(old(hdr), p - HEADER_SIZE) > MAX_SMALL ==>
        && hdr.Keys == old(hdr.Keys) - {p - HEADER_SIZE}
        && DroppedAt(old(Here()), pages.counts[..], p - HEADER_SIZE, PageCount(SizeOf(old(hdr), p - HEADER_SIZE)))
      ensures p != 0 && SizeOf(old(hdr), p - HEADER_SIZE) > MAX_SMALL ==>
        LargeDropped(old(Here()), pages.counts[..], SizeOf(old(hdr), p - HEADER_SIZE), p - HEADER_SIZE)
      ensures State() == if p == 0 then old(State()) else AfterFree(old(State()), p - HEADER_SIZE)
      ensures Within(hdr, old(hdr)) && OthersKept(old(hdr), old(Here()), old(pages.mem), pages.counts[..], pages.mem)
    {
      hide OthersKept, KeptBut, Sound, Freed, DroppedAt, Fronted, PageCount, ClassOf, AfterFree, BlocksOf, Without,
        LargeDropped;
      SameOthers(hdr, Here(), pages.mem);
      if p == 0 {
        return;
      }
      Lock();
      var b := p - HEADER_SIZE;
      ghost var i :| 0 <= i < |Used()| && Used()[i] == b;
      UsedKnown(i);
      UsedDistinct();
      if hdr[b].size <= MAX_SMALL {
        FreeSmall(b, i);
      } else {
        FreeLarge(b, i);
        DroppedOthers(old(hdr), old(Here()), pages.mem, pages.counts[..], b);
        LargeDroppedIs(old(Here()), pages.counts[..], old(hdr)[b].size, b);
      }
      FreedKeeps(old(hdr), hdr, old(Used()), Used(), b);
      FreedWithin(old(hdr), hdr, b);
      FreeStep(old(State()), State(), old(hdr), hdr, i, b);
      Unlock();
    }

    lemma UsedKnown(i: nat)
      requires Ordered() && i < |Used()|
      ensures Used()[i] in hdr && Used()[i] != 0
    {
      hide SizesOk, Apart, Placed;
      UsedLinks(hdr, owner, heads, lists, i);
    }

    lemma LiveKnown(p: nat)
      requires Ordered() && Live(p)
      ensures p - HEADER_SIZE in hdr && p - HEADER_SIZE != 0
    {
      hide Sound;
      var i :| 0 <= i < |Used()| && Used()[i] == p - HEADER_SIZE;
      UsedKnown(i);
    }

    static lemma ZeroUnused(h: Heap, owner: map<nat, nat>, heads: seq<nat>, lists: seq<seq<nat>>, g: Ground)
      requires Sound(h, owner, heads, lists, g)
      ensures 0 !in lists[USED]
    {
      hide SizesOk, Apart, Placed, Listed, BackOk;
      assert ListOk(h, owner, heads[USED], lists[USED], USED);
    }

    lemma UsedDistinct()
      requires Ordered()
      ensures forall i, j :: 0 <= i < j < |Used()| ==> Used()[i] != Used()[j]
    {
      hide SizesOk, Apart, Placed, Listed, BackOk;
      assert ListOk(hdr, owner, heads[USED], lists[USED], USED);
    }

    lemma LiveInHeap()
      requires Ordered()
      ensures LiveSet() <= hdr.Keys
    {
      hide SizesOk, Apart, Placed, Listed, BackOk;
      assert ListOk(hdr, owner, heads[USED], lists[USED], USED);
    }

    /** memcpy between two places that do not overlap, both in pages that exist. */
    method Copy(to: nat, from: nat, n: nat)
      requires pages.Valid() && (to + n <= from || from + n <= to)
      requires forall q: nat :: to <= q < to + n ==> Mapped(pages.mem, q)
      modifies pages`mem
      ensures pages.mem.Keys == old(pages.mem.Keys) && Copied(old(pages.mem), pages.mem, to, from, n)
    {
      hide ByteOf;
      var i := 0;
      while i < n
        invariant i <= n && pages.mem.Keys == old(pages.mem.Keys)
        invariant Copied(old(pages.mem), pages.mem, to, from, i)
      {
        assert Mapped(old(pages.mem), to + i);
        pages.mem := PutByte(pages.mem, to + i, ByteOf(pages.mem, from + i));
        i := i + 1;
      }
    }

    lemma AllPresent()
      requires pages.Valid()
      ensures Present(Here(), pages.mem)
    {
      forall k: nat | k < pages.counts.Length ensures pages.heapBottom + PAGE_SIZE * k in pages.mem {
        assert pages.Addr(k) in pages.mem;
      }
    }

    /** Handing out block c leaves the contents of the live blocks alone. */
    static lemma LiveContents(h: Heap, owner: map<nat, nat>, heads: seq<nat>, lists: seq<seq<nat>>, g: Ground,
                              m: Mem, m': Mem, h': Heap, c: nat)
      requires Sound(h, owner, heads, lists, g) && Present(g, m) && HeldKept(g.rc, g.bottom, m, m')
      requires KeptBut(h, h', c) && c !in lists[USED]
      ensures Untouched(Members(lists[USED]), m, h, m', h', g.base)
    {
      hide SizesOk, Apart, Placed, Listed, BackOk, Payload, HeldKept, Present;
      forall a | a in lists[USED]
        ensures a in h && a in h' && h'[a].size == h[a].size && h'[a].room == h[a].room
        ensures Payload(m', h', g.base, a) == Payload(m, h, g.base, a)
      {
        assert ListOk(h, owner, heads[USED], lists[USED], USED);
        assert a in h';
        PayloadHeld(h, owner, heads, lists, g, m, m', h', a);
      }
    }

    /** The lock operations of a realloc: a malloc, a free after it if there is a block to move, or neither. */
    static function ReallocLog(t: Trace, pages: bool, p: nat, was: nat, size: u64, q: nat, spill: bool): Trace {
      if (if p == 0 then size == 0 else was >= size) || Wraps(size) then t
      else
        var t1 := AllocatorCall(t, pages);
        if p == 0 || q == 0 || spill then t1 else AllocatorCall(t1, was > MAX_SMALL)
    }

    /** What block b holds now. */
    function Contents(b: int): seq<u8>
      reads this`hdr, pages`mem, pages`on
    {
      Payload(pages.mem, hdr, Base(), b)
    }

    lemma ContentsSize(b: nat)
      requires Ordered() && b in hdr
      ensures |Contents(b)| == hdr[b].room && RoomOk(hdr[b].size, hdr[b].room)
    {
      hide Lists, SizesOk, Apart, BlockPlaced;
      OwnRoom(hdr, owner, heads, lists, Here(), b);
      PlaceKnown(hdr, pages.counts[..], pages.heapBottom, Base(), b);
    }

    lemma UsedShape()
      requires Ordered()
      ensures |lists| == LISTS
    {
      hide Lists, SizesOk, Apart, Placed;
      ListsShape(hdr, owner, heads, lists);
    }

    /** The end of realloc: block b's contents move to block c, and b is freed. */
    method Move(b: nat, c: nat)
      requires Valid() && Live(b + HEADER_SIZE) && Live(c + HEADER_SIZE) && b != c
      requires b in hdr && c in hdr && hdr[b].size <= hdr[c].room
      modifies this`hdr, this`heads, this`lists, this`owner, this`mutating
      modifies pages`mem, pages`mutatingHeap, pages`log, pages.counts
      ensures Valid() && Freed(old(hdr), hdr, old(Used()), Used(), b)
      ensures Recorded(old(pages.mem), old(hdr), Base(), b) <= Contents(c)
      ensures SizeOf(hdr, c) == SizeOf(old(hdr), c) && RoomOf(hdr, c) == RoomOf(old(hdr), c)
      ensures c in hdr && hdr[c].origin == old(hdr)[c].origin
      ensures pages.log == AllocatorCall(old(pages.log), SizeOf(old(hdr), b) > MAX_SMALL)
      ensures Untouched(old(hdr.Keys) - {b, c}, old(pages.mem), old(hdr), pages.mem, hdr, Base())
      ensures State() == AfterFree(old(State()), b)
      ensures Within(hdr, old(hdr)) && OthersKept(old(hdr), old(Here()), old(pages.mem), pages.counts[..], pages.mem)
    {
      hide AfterFree, BlocksOf, OthersKept, Within, Recorded, Sound, Copied, Live, ByteOf, KeptBut, Payload, Untouched, Leaves,
        AllocatorCall;
      ghost var g, m := Here(), pages.mem;
      AllPresent();
      PayloadsApart(hdr, owner, heads, lists, g, b, c);
      OwnRoom(hdr, owner, heads, lists, g, b);
      forall q: nat | c + HEADER_SIZE - g.base <= q < c + HEADER_SIZE - g.base + hdr[b].size
        ensures Mapped(m, q)
      {
        ByteHeld(hdr, owner, heads, lists, g, m, c, q - (c + HEADER_SIZE - g.base));
      }
      Copy(c + HEADER_SIZE - Base(), b + HEADER_SIZE - Base(), hdr[b].size);
      CopyEffect(hdr, owner, heads, lists, g, m, pages.mem, b, c);
      ghost var m1 := pages.mem;
      CopiedOthers(hdr, owner, heads, lists, g, m, m1, b, c);
      Free(b + HEADER_SIZE);
      MovedOthers(old(hdr), g, m, m1, pages.counts[..]);
      KeptOrigin(old(hdr), hdr, b, c);
      FreedContents(old(hdr), hdr, m1, b, Base());
      UntouchedTwice(old(hdr).Keys - {c}, old(hdr).Keys - {b}, m, old(hdr), m1, old(hdr), pages.mem, hdr, Base());
      assert (old(hdr).Keys - {c}) * (old(hdr).Keys - {b}) == old(hdr).Keys - {b, c};
      UntouchedAt(old(hdr).Keys - {b}, m1, old(hdr), pages.mem, hdr, Base(), c);
    }

    static lemma CopiedOthers(h: Heap, owner: map<nat, nat>, heads: seq<nat>, lists: seq<seq<nat>>, g: Ground,
                              m: Mem, m': Mem, b: nat, c: nat)
      requires Sound(h, owner, heads, lists, g) && Present(g, m) && b in h && c in h && h[b].size <= h[c].room
      requires m'.Keys == m.Keys && c >= g.base && b >= g.base
      requires Copied(m, m', c + HEADER_SIZE - g.base, b + HEADER_SIZE - g.base, h[b].size)
      ensures OthersKept(h, g, m, g.rc, m')
    {
      hide ByteOf, Lists, Apart, Placed, Extent, SizeOk;
      ListsShape(h, owner, heads, lists);
      SizeKnown(h, owner, c);
      ExtentHeader(h[c].size, h[c].room);
      WrittenOthers(h, g, m, m', c);
    }

    static lemma MovedOthers(h: Heap, g: Ground, m: Mem, m1: Mem, rc: seq<nat>)
      requires OthersKept(h, g, m, g.rc, m1) && OthersKept(h, g, m1, rc, m1)
      ensures OthersKept(h, g, m, rc, m1)
    {
      hide OthersKept;
      SameOnFree(h, h, g);
      OthersTwice(h, g, m, h, g.rc, m1, rc, m1);
    }

    static lemma FreedContents(h: Heap, h': Heap, m: Mem, b: nat, base: nat)
      requires KeptBut(h, h', b)
      ensures Untouched(h.Keys - {b}, m, h, m, h', base)
    {
      hide Bytes;
      forall a | a in h && a != b
        ensures a in h' && h'[a].size == h[a].size && h'[a].room == h[a].room && Payload(m, h', base, a) == Payload(m, h, base, a)
      {
        assert a in h' || a !in h';
      }
    }

    /**
     * realloc. It copies as many bytes as the old block's header records. A tail may have room for fewer; then the copy
     * would leave the region. That outcome is `spill`, and as with `oom` and `over` what the code then does is not
     * modelled. Of a tail, which records 0, nothing is copied.
     */
    method Realloc(p: nat, size: u64, origin: u64) returns (q: nat, oom: bool, over: bool, spill: bool)
      requires Valid() && (p == 0 || Live(p))
      modifies this`hdr, this`heads, this`lists, this`owner, this`mutating
      modifies pages`mem, pages`mutatingHeap, pages`log, pages.counts
      ensures Valid()
      ensures p == 0 && q != 0 ==> q > HEADER_SIZE && Handed(old(hdr), hdr, old(Used()), Used(), q - HEADER_SIZE, origin)
      ensures p != 0 ==> (q == p <==> SizeOf(old(hdr), p - HEADER_SIZE) >= size)
      ensures over <==> (p == 0 || SizeOf(old(hdr), p - HEADER_SIZE) < size) && Oversized(size)
      ensures q == 0 <==> if p == 0 then size == 0 || old(Fails(size))
                          else SizeOf(old(hdr), p - HEADER_SIZE) < size && old(Fails(size))
      ensures oom <==> q == 0 && size != 0 && !over && pages.on
      ensures q == 0 || q == p ==> hdr == old(hdr) && lists == old(lists)
      ensures q == 0 || q == p ==> Untouched(old(LiveSet()), old(pages.mem), old(hdr), pages.mem, hdr, Base())
      ensures pages.log ==
        ReallocLog(old(pages.log), old(NeedsPages(size)), p, SizeOf(old(hdr), p - HEADER_SIZE), size, q, spill)
      ensures spill <==> p != 0 && q != 0 && old(RoomFor(size)) < SizeOf(old(hdr), p - HEADER_SIZE) < size
      ensures spill ==> old(TailFirst(size))
      ensures q != 0 && q != p ==> q == PlaceOf(old(State()), size) + HEADER_SIZE
      ensures q != 0 && q != p && !spill ==> q - HEADER_SIZE in hdr && hdr[q - HEADER_SIZE].origin == origin
      ensures State() == if q == 0 || q == p then old(State()) else if p == 0 || spill then AfterMalloc(old(State()), size)
                         else AfterFree(AfterMalloc(old(State()), size), p - HEADER_SIZE)
      ensures p != 0 && q != 0 && q != p && !spill ==> SizeOf(hdr, q - HEADER_SIZE) == old(Capacity(size))
      ensures p != 0 && q != 0 && q != p && !spill ==>
        Relocated(old(hdr), hdr, old(Used()), Used(), old(pages.mem), pages.mem, Base(), p, q, old(RoomFor(size)))
      ensures p != 0 && q != 0 && !spill ==>
        Untouched(old(LiveSet()) - {p - HEADER_SIZE}, old(pages.mem), old(hdr), pages.mem, hdr, Base())
      ensures Minds(old(hdr), old(Here()), old(pages.mem), hdr, pages.counts[..], pages.mem)
    {
      hide Minds, OthersKept, Within, Sound, HeldKept, NoFit, Payload, Leaves, Relocated, Handed, KeptBut,
        AllocatorCall, NeedsPages, Capacity, RoomFor, TailFirst, TakenAt, Contents, Served, PlaceOf, BlocksOf, AfterMalloc,
        AfterFree;
      spill := false;
      if p == 0 {
        q, oom, over := Alloc(size, origin);
        if q != 0 {
          HandedOrigin(old(hdr), hdr, old(Used()), Used(), q - HEADER_SIZE, origin);
        }
        return;
      }
      LiveKnown(p);
      if hdr[p - HEADER_SIZE].size >= size {
        HeldSame(pages.counts[..], pages.heapBottom, pages.mem);
        MindsNothing(hdr, Here(), pages.mem, pages.counts[..], pages.mem);
        LiveInHeap();
        return p, false, false, false;
      }
      q, oom, over, spill := Grow(p, size, origin);
    }

    /** A request of this size gets no block. */
    ghost predicate Fails(size: u64)
      reads this`heads, pages.counts
    {
      Oversized(size) || (NeedsPages(size) && NoFit(pages.counts[..], PagesOf(size)))
    }

    /** What the allocator asks of its own fields before a request can be read from lists, sizes and counts. */
    lemma AsSeen(size: u64)
      requires Ordered()
      ensures NeedsPages(size) == Needs(State(), size) && Oversized(size) == Over(State(), size)
      ensures TailFirst(size) == TailIn(State(), size) && RoomFor(size) == RoomIn(State(), size)
      ensures Fails(size) == Snapshots.Fails(State(), size)
      ensures !NeedsPages(size) ==> At(heads, ClassOf(size) + 1) in hdr
    {
      hide SizesOk, Apart, Placed, Listed, BackOk, NoFit, ClassOf, ClassSize, PageCount;
      if size <= MAX_SMALL {
        HeadsInHeap(hdr, owner, heads, lists, ClassOf(size) + 1);
        assert ListOk(hdr, owner, heads[ClassOf(size) + 1], lists[ClassOf(size) + 1], ClassOf(size) + 1);
      }
    }

    /** The part of realloc that needs a new block. */
    method Grow(p: nat, size: u64, origin: u64) returns (q: nat, oom: bool, over: bool, spill: bool)
      requires Valid() && Live(p) && SizeOf(hdr, p - HEADER_SIZE) < size
      modifies this`hdr, this`heads, this`lists, this`owner, this`mutating
      modifies pages`mem, pages`mutatingHeap, pages`log, pages.counts
      ensures Valid() && q != p
      ensures pages.log ==
        ReallocLog(old(pages.log), old(NeedsPages(size)), p, SizeOf(old(hdr), p - HEADER_SIZE), size, q, spill)
      ensures over <==> Oversized(size)
      ensures q == 0 <==> old(Fails(size))
      ensures oom <==> q == 0 && !over && pages.on
      ensures q == 0 ==> hdr == old(hdr) && lists == old(lists)
      ensures q == 0 ==> Untouched(old(LiveSet()), old(pages.mem), old(hdr), pages.mem, hdr, Base())
      ensures spill <==> q != 0 && old(RoomFor(size)) < SizeOf(old(hdr), p - HEADER_SIZE)
      ensures spill ==> old(TailFirst(size))
      ensures q != 0 ==> q == PlaceOf(old(State()), size) + HEADER_SIZE
      ensures q != 0 && !spill ==> q - HEADER_SIZE in hdr && hdr[q - HEADER_SIZE].origin == origin
      ensures q != 0 && !spill ==> SizeOf(hdr, q - HEADER_SIZE) == old(Capacity(size))
      ensures State() == if q == 0 then old(State()) else if spill then AfterMalloc(old(State()), size)
                         else AfterFree(AfterMalloc(old(State()), size), p - HEADER_SIZE)
      ensures q != 0 && !spill ==>
        Relocated(old(hdr), hdr, old(Used()), Used(), old(pages.mem), pages.mem, Base(), p, q, old(RoomFor(size)))
      ensures q != 0 && !spill ==>
        Untouched(old(LiveSet()) - {p - HEADER_SIZE}, old(pages.mem), old(hdr), pages.mem, hdr, Base())
      ensures Minds(old(hdr), old(Here()), old(pages.mem), hdr, pages.counts[..], pages.mem)
    {
      hide Minds, OthersKept, Within, Sound, HeldKept, NoFit, Payload, Leaves, KeptBut, ClassOf, ClassSize, PageCount,
        TakenAt, Untouched, AllocatorCall, Served, RoomFor, TailFirst, Capacity, PlaceOf, BlocksOf, AfterMalloc, AfterFree;
      LiveKnown(p);
      var b := p - HEADER_SIZE;
      var n := hdr[b].size;
      spill := false;
      q, oom, over := Alloc(size, origin);
      if q == 0 {
        return;
      }
      assert b in old(LiveSet());
      UntouchedAt(old(LiveSet()), old(pages.mem), old(hdr), pages.mem, hdr, Base(), b);
      if hdr[q - HEADER_SIZE].room < n {
        spill := true;
        return;
      }
      ghost var h, m := hdr, pages.mem;
      ghost var rc := pages.counts[..];
      Move(b, q - HEADER_SIZE);
      MindsTwice(old(hdr), old(Here()), old(pages.mem), h, rc, m, hdr, pages.counts[..], pages.mem);
      MovedContents(old(LiveSet()), b, q - HEADER_SIZE, old(pages.mem), old(hdr), m, h, pages.mem, hdr, Base());
    }

    static lemma MovedContents(l: set<nat>, b: nat, c: nat, m: Mem, h: Heap, m1: Mem, h1: Heap, m2: Mem, h2: Heap, base: nat)
      requires Untouched(l, m, h, m1, h1, base) && Recorded(m1, h1, base, b) <= Payload(m2, h2, base, c)
      requires Untouched(h1.Keys - {b, c}, m1, h1, m2, h2, base) && b in l && c !in l
      ensures Untouched(l - {b}, m, h, m2, h2, base) && Recorded(m, h, base, b) <= Payload(m2, h2, base, c)
    {
      hide Payload;
      UntouchedTwice(l, h1.Keys - {b, c}, m, h, m1, h1, m2, h2, base);
      assert l * (h1.Keys - {b, c}) == l - {b};
    }
  }
}
