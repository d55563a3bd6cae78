/** Where the blocks of kernel/src/memory.c lie: size classes, byte ranges, and the pages under them. */
module Blocks {
  import opened Words
  import opened Ram
  import opened Pages
  import opened FreeLists

  const HEADER_SIZE := 32
  const REFILL_PAGES := 65
  const REGION := 266240     // REFILL_PAGES pages
  const MAX_SMALL := 65536
  const CLASS_COUNT := 7

  function ClassSize(c: nat): (s: nat)
    requires c < CLASS_COUNT
    ensures 0 < s <= MAX_SMALL
  {
    if c == 0 then 16 else if c == 1 then 64 else if c == 2 then 256 else if c == 3 then 1024
    else if c == 4 then 4096 else if c == 5 then 16384 else 65536
  }

  /** The size-class ladder of free_buckets_alloc and free. */
  function ClassOf(size: nat): (c: nat)
    requires size <= MAX_SMALL
    ensures c < CLASS_COUNT && size <= ClassSize(c) && (c > 0 ==> ClassSize(c - 1) < size)
  {
    if size <= 16 then 0 else if size <= 64 then 1 else if size <= 256 then 2 else if size <= 1024 then 3
    else if size <= 4096 then 4 else if size <= 16384 then 5 else 6
  }

  /** Pages of a large block; the sum is a size_t and wraps around. */
  function PageCount(size: nat): nat {
    (size + HEADER_SIZE + PAGE_SIZE - 1) % WORD / PAGE_SIZE
  }

  /** n is the least number of pages that hold a header and a payload of this size. */
  predicate LeastPages(n: nat, size: nat) {
    PAGE_SIZE * (n - 1) < size + HEADER_SIZE <= PAGE_SIZE * n
  }

  /** A large block's pages hold its header and payload exactly when that sum does not wrap, and then are the fewest. */
  lemma LargeFits(size: u64)
    ensures PageCount(size) * PAGE_SIZE >= size + HEADER_SIZE <==> size + HEADER_SIZE + PAGE_SIZE - 1 < WORD
    ensures size + HEADER_SIZE + PAGE_SIZE - 1 < WORD ==> LeastPages(PageCount(size), size)
  {
  }

  lemma LeastIs(n: nat, size: u64)
    requires LeastPages(n, size) && size + HEADER_SIZE + PAGE_SIZE - 1 < WORD
    ensures n == PageCount(size)
  {
    hide PageCount;
    LargeFits(size);
  }

  lemma LargeWraps()
    ensures PageCount(WORD - 1) == 1
  {
  }

  /** The bytes that a block occupies, header included. */
  function Extent(size: nat, room: nat): (n: nat)
    ensures n >= HEADER_SIZE || size >= WORD
  {
    if size <= MAX_SMALL then HEADER_SIZE + room
    else if size + HEADER_SIZE + PAGE_SIZE - 1 < WORD then PageCount(size) * PAGE_SIZE
    else HEADER_SIZE
  }

  /** The size that a block's header records. */
  function SizeOf(hdr: Heap, b: int): nat {
    if b in hdr then hdr[b].size else 0
  }

  function RoomOf(hdr: Heap, b: int): nat {
    if b in hdr then hdr[b].room else 0
  }

  /** The room of a block is the size that its header records, unless that is 0, as for the tail of a region. */
  predicate RoomOk(size: nat, room: nat) {
    size != 0 ==> room == size
  }

  predicate SizeOk(size: nat) {
    || size == 0
    || (exists c :: 0 <= c < CLASS_COUNT && size == ClassSize(c))
    || (MAX_SMALL < size && size + HEADER_SIZE + PAGE_SIZE - 1 < WORD)
  }

  /** A free block of class c has that class's size, or is the tail of a formatted region, of size 0. */
  ghost predicate SizesOk(hdr: Heap, owner: map<nat, nat>) {
    forall a {:trigger hdr[a]} :: a in hdr && a in owner ==>
      && SizeOk(hdr[a].size) && RoomOk(hdr[a].size, hdr[a].room)
      && (0 < owner[a] < LISTS ==> hdr[a].size == 0 || hdr[a].size == ClassSize(owner[a] - 1))
  }

  /** No two blocks overlap. */
  ghost predicate Apart(hdr: Heap) {
    forall a, b {:trigger hdr[a], hdr[b]} :: a in hdr && b in hdr && a < b ==> a + Extent(hdr[a].size, hdr[a].room) <= b
  }

  /** The bytes [p, p + n) lie in the heap, in pages that somebody holds. */
  ghost predicate InHeld(rc: seq<nat>, bottom: nat, p: nat, n: nat) {
    && bottom <= p && p + n <= bottom + PAGE_SIZE * |rc|
    && forall k {:trigger rc[k]} :: 0 <= k < |rc| && bottom + PAGE_SIZE * k < p + n && p < bottom + PAGE_SIZE * k + PAGE_SIZE ==> rc[k] > 0
  }

  /** base is the address at which the kernel sees physical address 0: 0, or the kernel window. */
  ghost predicate BlockPlaced(rc: seq<nat>, bottom: nat, base: nat, a: nat, size: nat, room: nat) {
    && a >= base && InHeld(rc, bottom, a - base, Extent(size, room))
    && (size > MAX_SMALL ==> (a - base - bottom) % PAGE_SIZE == 0)
  }

  ghost predicate Placed(hdr: Heap, rc: seq<nat>, bottom: nat, base: nat) {
    forall a {:trigger hdr[a]} :: a in hdr ==> BlockPlaced(rc, bottom, base, a, hdr[a].size, hdr[a].room)
  }

  /** The blocks and their sizes are the same; links may differ. */
  ghost predicate SameSizes(hdr: Heap, hdr': Heap) {
    hdr'.Keys == hdr.Keys && forall a {:trigger hdr'[a]} {:trigger hdr[a]} :: a in hdr ==>
      hdr'[a].size == hdr[a].size && hdr'[a].room == hdr[a].room
  }

  lemma SizesKept(hdr: Heap, hdr': Heap, owner: map<nat, nat>, rc: seq<nat>, bottom: nat, base: nat)
    requires SameSizes(hdr, hdr')
    ensures Apart(hdr) ==> Apart(hdr')
    ensures Placed(hdr, rc, bottom, base) ==> Placed(hdr', rc, bottom, base)
    ensures SizesOk(hdr, owner) ==> SizesOk(hdr', owner)
  {
    hide Extent, SizeOk, BlockPlaced;
  }

  lemma SizeKnown(hdr: Heap, owner: map<nat, nat>, a: nat)
    requires SizesOk(hdr, owner) && a in hdr && a in owner
    ensures SizeOk(hdr[a].size) && RoomOk(hdr[a].size, hdr[a].room) && hdr[a].size < WORD
  {
  }

  lemma PlaceKnown(hdr: Heap, rc: seq<nat>, bottom: nat, base: nat, a: nat)
    requires Placed(hdr, rc, bottom, base) && a in hdr
    ensures BlockPlaced(rc, bottom, base, a, hdr[a].size, hdr[a].room) && a >= base + bottom
  {
  }

  /** Without one block the others are as well placed as before. */
  lemma OneLess(hdr: Heap, owner: map<nat, nat>, rc: seq<nat>, bottom: nat, base: nat, b: nat)
    requires SizesOk(hdr, owner) && Apart(hdr) && Placed(hdr, rc, bottom, base)
    ensures SizesOk(hdr - {b}, owner - {b}) && Apart(hdr - {b}) && Placed(hdr - {b}, rc, bottom, base)
  {
    hide SizeOk, Extent, BlockPlaced;
  }

  /** One more block, away from the others. */
  lemma OneMore(hdr: Heap, hdr': Heap, owner: map<nat, nat>, rc: seq<nat>, bottom: nat, base: nat, b: nat)
    requires SizesOk(hdr, owner) && Apart(hdr) && Placed(hdr, rc, bottom, base) && owner.Keys == hdr.Keys
    requires hdr'.Keys == hdr.Keys + {b} && forall a :: a in hdr && a != b ==>
      hdr'[a].size == hdr[a].size && hdr'[a].room == hdr[a].room
    requires b !in hdr && SizeOk(hdr'[b].size) && RoomOk(hdr'[b].size, hdr'[b].room)
    requires BlockPlaced(rc, bottom, base, b, hdr'[b].size, hdr'[b].room)
    requires forall a :: a in hdr ==> (a < b && a + Extent(hdr[a].size, hdr[a].room) <= b) || a >= b + Extent(hdr'[b].size, hdr'[b].room)
    requires Extent(hdr'[b].size, hdr'[b].room) > 0
    ensures SizesOk(hdr', owner[b := USED]) && Apart(hdr') && Placed(hdr', rc, bottom, base)
  {
    hide SizeOk, Extent, BlockPlaced;
  }

  /** More held pages do not disturb a placed block. */
  lemma PlacedKept(hdr: Heap, rc: seq<nat>, rc': seq<nat>, bottom: nat, base: nat)
    requires Placed(hdr, rc, bottom, base) && |rc'| == |rc|
    requires forall k :: 0 <= k < |rc| && rc[k] > 0 ==> rc'[k] > 0
    ensures Placed(hdr, rc', bottom, base)
  {
    forall a | a in hdr ensures BlockPlaced(rc', bottom, base, a, hdr[a].size, hdr[a].room) {
    }
  }

  /** A placed range has no byte in a run of pages that nobody held. */
  lemma OutsideRun(rc: seq<nat>, bottom: nat, k: nat, count: nat, p: nat, n: nat)
    requires InHeld(rc, bottom, p, n) && n > 0 && count > 0 && k + count <= |rc|
    requires forall j :: k <= j < k + count ==> rc[j] == 0
    ensures p + n <= bottom + PAGE_SIZE * k || p >= bottom + PAGE_SIZE * (k + count)
  {
    var start := bottom + PAGE_SIZE * k;
    var j := if p <= start then 0 else (p - start) / PAGE_SIZE;
    assert j < count ==> rc[k + j] == 0;
    assert p < start + PAGE_SIZE * count ==> j < count;
  }

  /** A range inside a run of held pages is placed. */
  lemma InsideRun(rc: seq<nat>, bottom: nat, k: nat, count: nat, p: nat, n: nat)
    requires k + count <= |rc| && forall j :: k <= j < k + count ==> rc[j] > 0
    requires bottom + PAGE_SIZE * k <= p && p + n <= bottom + PAGE_SIZE * (k + count)
    ensures InHeld(rc, bottom, p, n)
  {
  }

  /** Dropping a page-aligned block's pages leaves every other block placed. */
  lemma DropPlaced(hdr: Heap, b: nat, rc: seq<nat>, bottom: nat, base: nat)
    requires b in hdr && Placed(hdr, rc, bottom, base) && Apart(hdr) && hdr[b].size > MAX_SMALL && SizeOk(hdr[b].size)
    ensures var k := (b - base - bottom) / PAGE_SIZE;
      && b - base == bottom + PAGE_SIZE * k && k + PageCount(hdr[b].size) <= |rc|
      && Placed(hdr - {b}, Dropped(rc, k, PageCount(hdr[b].size)), bottom, base)
  {
    var k, count := (b - base - bottom) / PAGE_SIZE, PageCount(hdr[b].size);
    assert BlockPlaced(rc, bottom, base, b, hdr[b].size, hdr[b].room);
    assert Extent(hdr[b].size, hdr[b].room) == count * PAGE_SIZE;
    var rc' := Dropped(rc, k, count);
    forall a | a in hdr && a != b ensures BlockPlaced(rc', bottom, base, a, hdr[a].size, hdr[a].room) {
      assert BlockPlaced(rc, bottom, base, a, hdr[a].size, hdr[a].room);
      var p, n := a - base, Extent(hdr[a].size, hdr[a].room);
      assert a + n <= b || b + count * PAGE_SIZE <= a;
      forall j | 0 <= j < |rc| && bottom + PAGE_SIZE * j < p + n && p < bottom + PAGE_SIZE * j + PAGE_SIZE
        ensures rc'[j] > 0
      {
        assert rc[j] > 0;
      }
    }
  }
}
