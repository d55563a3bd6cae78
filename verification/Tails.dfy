/**
 * How a run of requests reaches the tail of a region: kernel/src/memory.c links the last formatted block to a header
 * that no block follows, and malloc hands it out like any other.
 */
module Tails {
  import opened Words
  import opened Pages
  import opened FreeLists
  import opened Blocks
  import opened Regions
  import opened Payloads
  import opened Outcomes
  import opened Neighbours
  import opened Snapshots
  import opened Malloc

  /** The region's blocks are what formatting left: full ones, and the tail of size 0 with the room that is left. */
  ghost predicate NodeSizes(hdr: Heap, data: nat, c: nat)
    requires c < CLASS_COUNT
  {
    forall j {:trigger Nodes(data, c)[j]} :: 0 <= j <= Buckets(c) ==>
      && Nodes(data, c)[j] in hdr && SizeOf(hdr, Nodes(data, c)[j]) == (if j == Buckets(c) then 0 else ClassSize(c))
      && RoomOf(hdr, Nodes(data, c)[j]) == (if j == Buckets(c) then Room(c) else ClassSize(c))
  }

  /** The free list of class c is the region at data without its first n blocks. */
  ghost predicate Left(lists: seq<seq<nat>>, hdr: Heap, data: nat, c: nat, n: nat)
    requires c < CLASS_COUNT
  {
    n <= Buckets(c) && |lists| == LISTS && lists[c + 1] == Nodes(data, c)[n..] && NodeSizes(hdr, data, c)
  }

  /** Blocks that were used before are used, with their sizes. */
  ghost predicate Remain(h: Heap, used: seq<nat>, h': Heap, used': seq<nat>) {
    forall x :: x in used ==> x in h && x in used' && x in h' && h'[x].size == h[x].size && h'[x].room == h[x].room
  }

  /** Then the next block of the class is node n: a full one, or at the end the tail. */
  lemma NextIsNode(a: BucketAllocator, data: nat, c: nat, n: nat, size: u64)
    requires c < CLASS_COUNT && a.Valid() && Left(a.lists, a.hdr, data, c, n) && 0 < size <= MAX_SMALL && ClassOf(size) == c
    ensures !a.NeedsPages(size) && At(a.heads, c + 1) == Node(data, c, n)
    ensures a.TailFirst(size) <==> n == Buckets(c)
    ensures a.RoomFor(size) == if n == Buckets(c) then Room(c) else ClassSize(c)
  {
    hide SizesOk, Apart, Placed, Listed, BackOk;
    assert a.lists[c + 1][0] == Nodes(data, c)[n] == Node(data, c, n);
    assert ListOk(a.hdr, a.owner, a.heads[c + 1], a.lists[c + 1], c + 1);
  }

  /** One more block of the region is handed out. */
  lemma OneServed(lists: seq<seq<nat>>, lists': seq<seq<nat>>, h: Heap, h': Heap, data: nat, c: nat, n: nat, b: nat)
    requires c < CLASS_COUNT && n < Buckets(c) && Left(lists, h, data, c, n)
    requires ServedFrom(lists, lists', c, lists[c + 1], b) && KeptBut(h, h', b) && b in h' && h'[b].size == h'[b].room == ClassSize(c)
    ensures Left(lists', h', data, c, n + 1) && b == Node(data, c, n)
  {
    hide Buckets, Node, KeptBut;
    var l := Nodes(data, c);
    assert l[n..][1..] == l[n + 1..] && l[n..][0] == l[n];
    forall j | 0 <= j <= Buckets(c)
      ensures l[j] in h' && SizeOf(h', l[j]) == (if j == Buckets(c) then 0 else ClassSize(c))
      ensures RoomOf(h', l[j]) == (if j == Buckets(c) then Room(c) else ClassSize(c))
    {
      if j < n {
        NodesApart(data, c, j, n);
      } else if n < j {
        NodesApart(data, c, n, j);
      }
      if j != n {
        KeptAt(h, h', b, l[j]);
      }
    }
  }

  /** The first block of a new region is handed out. */
  lemma FirstServed(lists: seq<seq<nat>>, lists': seq<seq<nat>>, h: Heap, h': Heap, data: nat, c: nat)
    requires c < CLASS_COUNT && Refilled(h, h', data, c) && ServedFrom(lists, lists', c, Nodes(data, c), data)
    ensures Left(lists', h', data, c, 1) && Node(data, c, 0) == data
  {
    hide Buckets;
    TailIsShort(c);
    forall j | 0 <= j <= Buckets(c) ensures Nodes(data, c)[j] in h' {
      assert Nodes(data, c)[j] in Members(Nodes(data, c));
    }
  }

  lemma StillThere(h: Heap, h': Heap, used: seq<nat>, used': seq<nat>, b: nat, origin: nat)
    requires Handed(h, h', used, used', b, origin) && Members(used) <= h.Keys
    ensures Remain(h, used, h', used')
  {
    hide KeptBut;
    forall x | x in used ensures x in used' && x in h' && h'[x].size == h[x].size && h'[x].room == h[x].room {
      assert x in Members(used);
      KeptAt(h, h', b, x);
    }
  }

  lemma RemainTwice(h0: Heap, u0: seq<nat>, h1: Heap, u1: seq<nat>, h2: Heap, u2: seq<nat>)
    requires Remain(h0, u0, h1, u1) && Remain(h1, u1, h2, u2)
    ensures Remain(h0, u0, h2, u2)
  {
  }

  method DrainFirst(a: BucketAllocator, size: u64, origin: u64) returns (p: nat)
    requires a.Valid() && 0 < size <= MAX_SMALL && a.NeedsPages(size) && !NoFit(a.pages.counts[..], REFILL_PAGES)
    modifies a`hdr, a`heads, a`lists, a`owner, a`mutating
    modifies a.pages`mem, a.pages`mutatingHeap, a.pages`log, a.pages.counts
    ensures a.Valid() && p > HEADER_SIZE && Left(a.lists, a.hdr, p - HEADER_SIZE, ClassOf(size), 1)
    ensures Node(p - HEADER_SIZE, ClassOf(size), 0) == p - HEADER_SIZE
    ensures Remain(old(a.hdr), old(a.Used()), a.hdr, a.Used())
  {
    hide AfterMalloc, PlaceOf, BlocksOf, BlockHeap.Sound, NoFit, TakenAt, HeldKept, Untouched, ClassOf, ClassSize,
      Buckets, Left, Remain, KeptBut;
    ghost var h, lists, used := a.hdr, a.lists, a.Used();
    a.LiveInHeap();
    var oom, over;
    p, oom, over := a.Alloc(size, origin);
    FirstServed(lists, a.lists, h, a.hdr, p - HEADER_SIZE, ClassOf(size));
    StillThere(h, a.hdr, used, a.Used(), p - HEADER_SIZE, origin);
  }

  method DrainNext(a: BucketAllocator, size: u64, origin: u64, ghost data: nat, ghost n: nat) returns (p: nat)
    requires a.Valid() && 0 < size <= MAX_SMALL && n < Buckets(ClassOf(size)) && Left(a.lists, a.hdr, data, ClassOf(size), n)
    modifies a`hdr, a`heads, a`lists, a`owner, a`mutating
    modifies a.pages`mem, a.pages`mutatingHeap, a.pages`log, a.pages.counts
    ensures a.Valid() && Left(a.lists, a.hdr, data, ClassOf(size), n + 1) && p == Node(data, ClassOf(size), n) + HEADER_SIZE
    ensures Remain(old(a.hdr), old(a.Used()), a.hdr, a.Used())
  {
    hide AfterMalloc, PlaceOf, BlocksOf, BlockHeap.Sound, NoFit, TakenAt, HeldKept, Untouched, ClassOf, ClassSize,
      Buckets, Node, Remain, KeptBut;
    ghost var h, lists, used := a.hdr, a.lists, a.Used();
    NextIsNode(a, data, ClassOf(size), n, size);
    a.LiveInHeap();
    var oom, over;
    p, oom, over := a.Alloc(size, origin);
    OneServed(lists, a.lists, h, a.hdr, data, ClassOf(size), n, p - HEADER_SIZE);
    StillThere(h, a.hdr, used, a.Used(), p - HEADER_SIZE, origin);
  }

  /**
   * From an empty free list and a fitting run, n requests of the class without a free between them get the first n
   * blocks of a region, all full, for any n up to the number of whole blocks; the rest of the region stays free.
   */
  method Drain(a: BucketAllocator, size: u64, origin: u64, n: nat) returns (ps: seq<nat>, ghost data: nat)
    requires a.Valid() && 0 < size <= MAX_SMALL && a.NeedsPages(size) && !NoFit(a.pages.counts[..], REFILL_PAGES)
    requires 0 < n <= Buckets(ClassOf(size))
    modifies a`hdr, a`heads, a`lists, a`owner, a`mutating
    modifies a.pages`mem, a.pages`mutatingHeap, a.pages`log, a.pages.counts
    ensures a.Valid() && |ps| == n && Left(a.lists, a.hdr, data, ClassOf(size), n)
    ensures forall i :: 0 <= i < n ==> ps[i] == Node(data, ClassOf(size), i) + HEADER_SIZE
    ensures Remain(old(a.hdr), old(a.Used()), a.hdr, a.Used())
  {
    hide BlockHeap.Sound, NoFit, ClassOf, ClassSize, Buckets, Node, Left, Remain;
    ghost var h0, u0 := a.hdr, a.Used();
    var p := DrainFirst(a, size, origin);
    data := p - HEADER_SIZE;
    ps := [p];
    while |ps| < n
      invariant 1 <= |ps| <= n && a.Valid() && Left(a.lists, a.hdr, data, ClassOf(size), |ps|)
      invariant forall i :: 0 <= i < |ps| ==> ps[i] == Node(data, ClassOf(size), i) + HEADER_SIZE
      invariant Remain(h0, u0, a.hdr, a.Used())
    {
      ghost var h, used := a.hdr, a.Used();
      p := DrainNext(a, size, origin, data, |ps|);
      RemainTwice(h0, u0, h, used, a.hdr, a.Used());
      ps := ps + [p];
    }
  }

  predicate AreNodes(ps: seq<nat>, data: nat, c: nat)
    requires c < CLASS_COUNT
  {
    forall i :: 0 <= i < |ps| ==> ps[i] == Node(data, c, i) + HEADER_SIZE
  }

  /** After all whole blocks the next request of the class gets the tail: a block that records size 0, and its room. */
  method TailComes(a: BucketAllocator, size: u64, origin: u64) returns (ps: seq<nat>, tail: nat)
    requires a.Valid() && 0 < size <= MAX_SMALL && a.NeedsPages(size) && !NoFit(a.pages.counts[..], REFILL_PAGES)
    modifies a`hdr, a`heads, a`lists, a`owner, a`mutating
    modifies a.pages`mem, a.pages`mutatingHeap, a.pages`log, a.pages.counts
    ensures a.Valid() && |ps| == Buckets(ClassOf(size)) && a.Live(tail) && SizeOf(a.hdr, tail - HEADER_SIZE) == 0 < size
    ensures RoomOf(a.hdr, tail - HEADER_SIZE) == Room(ClassOf(size))
    ensures exists data :: tail == Node(data, ClassOf(size), |ps|) + HEADER_SIZE && AreNodes(ps, data, ClassOf(size))
  {
    hide AfterMalloc, PlaceOf, BlocksOf, BlockHeap.Sound, NoFit, TakenAt, HeldKept, Untouched, ClassOf, ClassSize, Node, Remain, KeptBut;
    TailIsShort(ClassOf(size));
    ghost var data;
    ps, data := Drain(a, size, origin, Buckets(ClassOf(size)));
    NextIsNode(a, data, ClassOf(size), |ps|, size);
    assert Nodes(data, ClassOf(size))[|ps|..][0] == Node(data, ClassOf(size), |ps|);
    var oom, over;
    tail, oom, over := a.Alloc(size, origin);
  }

  /** So for every class a fresh allocator with one fitting run of pages comes to its tail. */
  method FreshTail(pages: PageAllocator, size: u64, origin: u64) returns (a: BucketAllocator, ps: seq<nat>, tail: nat)
    requires pages.Valid() && 0 < size <= MAX_SMALL && !NoFit(pages.counts[..], REFILL_PAGES)
    modifies pages`mem, pages`mutatingHeap, pages`log, pages.counts
    ensures fresh(a) && a.Valid() && |ps| == Buckets(ClassOf(size))
    ensures a.Live(tail) && SizeOf(a.hdr, tail - HEADER_SIZE) == 0 && RoomOf(a.hdr, tail - HEADER_SIZE) == Room(ClassOf(size))
  {
    hide BlockHeap.Sound, NoFit, Buckets;
    a := new BucketAllocator(pages);
    ps, tail := TailComes(a, size, origin);
  }

  /** In that state a realloc of a smaller live block into the class spills exactly when the tail is too short for it. */
  method TailSpills(a: BucketAllocator, p: nat, size: u64, origin: u64) returns (q: nat, spill: bool)
    requires a.Valid() && 0 < size <= MAX_SMALL && a.NeedsPages(size) && !NoFit(a.pages.counts[..], REFILL_PAGES)
    requires a.Live(p) && SizeOf(a.hdr, p - HEADER_SIZE) < size
    modifies a`hdr, a`heads, a`lists, a`owner, a`mutating
    modifies a.pages`mem, a.pages`mutatingHeap, a.pages`log, a.pages.counts
    ensures a.Valid() && q != 0 && (spill <==> Room(ClassOf(size)) < old(SizeOf(a.hdr, p - HEADER_SIZE)))
  {
    hide AfterMalloc, AfterFree, PlaceOf, BlocksOf, BlockHeap.Sound, NoFit, HeldKept, Untouched, ClassOf, ClassSize, Node,
      KeptBut, Left, Relocated, Minds, Room, Buckets, PageCount;
    TailIsShort(ClassOf(size));
    ghost var data;
    var ps, oom, over;
    ps, data := Drain(a, size, origin, Buckets(ClassOf(size)));
    NextIsNode(a, data, ClassOf(size), |ps|, size);
    q, oom, over, spill := a.Realloc(p, size, origin);
  }
}
