/** What malloc and free (kernel/src/memory.c) make of the lists, the block sizes and the page counts, as functions. */
module Snapshots {
  import opened Words
  import opened Ram
  import opened Pages
  import opened FreeLists
  import opened Blocks
  import opened Regions
  import opened BlockHeap
  import opened Outcomes

  /** The size that a header records, and the bytes behind the header that are the block's own. */
  datatype Block = Block(size: nat, room: nat)

  datatype Snapshot = Snapshot(lists: Rows, blocks: map<nat, Block>, ground: Ground)

  function BlocksOf(hdr: Heap): map<nat, Block> {
    map a | a in hdr :: Block(hdr[a].size, hdr[a].room)
  }

  /** The first free block of the class for this size, or 0. */
  function Head(s: Snapshot, size: nat): nat
    requires size <= MAX_SMALL
  {
    At(s.lists[ClassOf(size) + 1], 0)
  }

  /** A request of this size takes pages. */
  predicate Needs(s: Snapshot, size: nat) {
    size > MAX_SMALL || Head(s, size) == 0
  }

  /** The page count for this size, header included, wraps around. */
  predicate Wraps(size: nat) {
    size + HEADER_SIZE + PAGE_SIZE - 1 >= WORD
  }

  lemma WrapsExact(size: u64)
    ensures Wraps(size) <==> size >= WORD - 4127
    ensures Wraps(size) <==> PageCount(size) * PAGE_SIZE < size + HEADER_SIZE
  {
    LargeFits(size);
  }

  /** ... or the scan for so many pages goes beyond the counters. */
  predicate Over(s: Snapshot, size: nat) {
    Wraps(size) || (size > MAX_SMALL && 2 * PageCount(size) > s.ground.bottom)
  }

  /** There is no block for this size. */
  ghost predicate Fails(s: Snapshot, size: nat) {
    Over(s, size) || (Needs(s, size) && NoFit(s.ground.rc, PagesOf(size)))
  }

  /** The first free block of the class for this size is a region's tail. */
  predicate TailIn(s: Snapshot, size: nat) {
    !Needs(s, size) && Head(s, size) in s.blocks && s.blocks[Head(s, size)].size == 0
  }

  /** The room of the block for this size. */
  function RoomIn(s: Snapshot, size: nat): nat {
    if size > MAX_SMALL then size
    else if Needs(s, size) then ClassSize(ClassOf(size))
    else if Head(s, size) in s.blocks then s.blocks[Head(s, size)].room else 0
  }

  /** The block for a request of this size: the first free one of its class, or at the first run of free pages. */
  ghost function PlaceOf(s: Snapshot, size: nat): nat {
    if Needs(s, size) then PageSeen(s.ground, Fit(s.ground.rc, PagesOf(size))) else Head(s, size)
  }

  /** The blocks of a fresh region, the tail with a recorded size of 0. */
  function NewBlocks(data: nat, c: nat): map<nat, Block>
    requires c < CLASS_COUNT
  {
    map a | a in Nodes(data, c) :: if a == Node(data, c, Buckets(c)) then Block(0, Room(c)) else Block(ClassSize(c), ClassSize(c))
  }

  /** A malloc that finds a block. */
  ghost function AfterMalloc(s: Snapshot, size: nat): Snapshot {
    var b, needs := PlaceOf(s, size), Needs(s, size);
    var rc := if needs then Taken(s.ground.rc, Fit(s.ground.rc, PagesOf(size)), PagesOf(size)) else s.ground.rc;
    if size > MAX_SMALL then
      Snapshot(s.lists[USED := [b] + s.lists[USED]], s.blocks[b := Block(size, size)], s.ground.(rc := rc))
    else
      var c := ClassOf(size);
      var free := if needs then Nodes(b, c) else s.lists[c + 1];
      Snapshot(s.lists[c + 1 := free[1..]][USED := [b] + s.lists[USED]],
               if needs then s.blocks + NewBlocks(b, c) else s.blocks, s.ground.(rc := rc))
  }

  /** Which page of the heap the kernel sees at b. */
  function PageBehind(g: Ground, b: nat): nat {
    if b < g.base + g.bottom then 0 else (b - g.base - g.bottom) / PAGE_SIZE
  }

  /** The free of a live block: a small one heads its free list, a large one is gone; page 0 of the heap has no counter. */
  function AfterFree(s: Snapshot, b: nat): Snapshot {
    if b !in s.blocks then s
    else
      var size, lists := s.blocks[b].size, s.lists[USED := Removed(s.lists[USED], b)];
      if size <= MAX_SMALL then
        s.(lists := lists[ClassOf(size) + 1 := [b] + lists[ClassOf(size) + 1]])
      else
        var k := PageBehind(s.ground, b);
        var rc := if k == 0 then s.ground.rc else Dropped(s.ground.rc, k, PageCount(size));
        Snapshot(lists, s.blocks - {b}, s.ground.(rc := rc))
  }

  lemma BlocksSame(h: Heap, h': Heap, b: nat)
    requires KeptBut(h, h', b) && h'.Keys == h.Keys && SizeOf(h', b) == SizeOf(h, b) && RoomOf(h', b) == RoomOf(h, b)
    ensures BlocksOf(h') == BlocksOf(h)
  {
  }

  lemma BlocksMore(h: Heap, h': Heap, b: nat)
    requires KeptBut(h, h', b) && h'.Keys == h.Keys + {b}
    ensures BlocksOf(h') == BlocksOf(h)[b := Block(SizeOf(h', b), RoomOf(h', b))]
  {
  }

  lemma BlocksLess(h: Heap, h': Heap, b: nat)
    requires KeptBut(h, h', b) && h'.Keys == h.Keys - {b}
    ensures BlocksOf(h') == BlocksOf(h) - {b}
  {
  }

  lemma BlocksRegion(h: Heap, h': Heap, data: nat, c: nat)
    requires c < CLASS_COUNT && KeptBut(h, h', data) && Refilled(h, h', data, c)
    ensures BlocksOf(h') == BlocksOf(h) + NewBlocks(data, c)
  {
    hide Buckets, Node, Room, ClassSize;
    var l := Nodes(data, c);
    forall a | a in l ensures a in h' && Block(h'[a].size, h'[a].room) == NewBlocks(data, c)[a] {
      var j :| 0 <= j < |l| && l[j] == a;
      if j < Buckets(c) {
        NodesApart(data, c, j, Buckets(c));
      }
    }
    NodeFirst(data, c);
    assert l[0] == data;
  }

  /** What malloc does to lists, headers and counts is what AfterMalloc says. */
  lemma MallocStep(s: Snapshot, s': Snapshot, h: Heap, h': Heap, size: u64, b: nat)
    requires s.blocks == BlocksOf(h) && s'.blocks == BlocksOf(h') && s'.ground == s.ground.(rc := s'.ground.rc)
    requires Served(s.lists, s'.lists, h, h', size, Needs(s, size), b) && KeptBut(h, h', b)
    requires Needs(s, size) ==> TakenAt(s.ground, s'.ground.rc, b, PagesOf(size))
    requires !Needs(s, size) ==> s'.ground.rc == s.ground.rc && SizeOf(h', b) == SizeOf(h, b) && RoomOf(h', b) == RoomOf(h, b)
    requires size > MAX_SMALL ==> SizeOf(h', b) == RoomOf(h', b) == size
    ensures b == PlaceOf(s, size) && s' == AfterMalloc(s, size)
  {
    hide KeptBut, Refilled, FirstFit, Fit, Taken, Nodes, PageCount, ClassSize, ClassOf, BlocksOf, NewBlocks;
    if Needs(s, size) {
      var k: nat :| FirstFit(s.ground.rc, k, PagesOf(size)) && s'.ground.rc == Taken(s.ground.rc, k, PagesOf(size))
        && b == s.ground.base + s.ground.bottom + PAGE_SIZE * k;
      FitIs(s.ground.rc, PagesOf(size), k);
      if size > MAX_SMALL {
        BlocksMore(h, h', b);
      } else {
        BlocksRegion(h, h', b, ClassOf(size));
      }
    } else {
      BlocksSame(h, h', b);
    }
  }

  /** What free does to lists, headers and counts is what AfterFree says. */
  lemma FreeStep(s: Snapshot, s': Snapshot, h: Heap, h': Heap, i: nat, b: nat)
    requires i < |s.lists[USED]| && s.lists[USED][i] == b && forall j {:trigger s.lists[USED][j]} :: 0 <= j < i ==> s.lists[USED][j] != b
    requires s.blocks == BlocksOf(h) && s'.blocks == BlocksOf(h') && s'.ground == s.ground.(rc := s'.ground.rc)
    requires b in h && KeptBut(h, h', b)
    requires h[b].size <= MAX_SMALL ==>
      && h'.Keys == h.Keys && SizeOf(h', b) == SizeOf(h, b) && RoomOf(h', b) == RoomOf(h, b) && s'.ground.rc == s.ground.rc
      && s'.lists == s.lists[USED := Without(s.lists[USED], i)][ClassOf(h[b].size) + 1 := [b] + s.lists[ClassOf(h[b].size) + 1]]
    requires h[b].size > MAX_SMALL ==>
      && h'.Keys == h.Keys - {b} && DroppedAt(s.ground, s'.ground.rc, b, PageCount(h[b].size))
      && s'.lists == s.lists[USED := Without(s.lists[USED], i)]
    ensures s' == AfterFree(s, b)
  {
    hide KeptBut, Dropped, PageCount, ClassOf, Without, Removed;
    RemovedAt(s.lists[USED], i);
    if h[b].size <= MAX_SMALL {
      BlocksSame(h, h', b);
    } else {
      var n := PageCount(h[b].size);
      var k: nat :| s'.ground.rc == (if k == 0 then s.ground.rc else Dropped(s.ground.rc, k, n))
        && b == s.ground.base + s.ground.bottom + PAGE_SIZE * k;
      assert PageBehind(s.ground, b) == k;
      BlocksLess(h, h', b);
    }
  }
}
