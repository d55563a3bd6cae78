/** What malloc, free and realloc (kernel/src/memory.c) do to blocks, lists, page counts and memory, as predicates. */
module Outcomes {
  import opened Words
  import opened Ram
  import opened Pages
  import opened FreeLists
  import opened Blocks
  import opened Regions
  import opened BlockHeap
  import opened Payloads

  /** Every block but b is where it was, with its size, room and origin. */
  ghost predicate KeptBut(hdr: Heap, hdr': Heap, b: nat) {
    forall a {:trigger hdr'[a]} {:trigger a in hdr'} :: a in hdr && a != b ==>
      a in hdr' && hdr'[a].size == hdr[a].size && hdr'[a].room == hdr[a].room && hdr'[a].origin == hdr[a].origin
  }

  lemma SelfKept(h: Heap)
    ensures KeptBut(h, h, 0)
  {
  }

  lemma KeptAt(h: Heap, h': Heap, b: nat, x: nat)
    requires KeptBut(h, h', b) && x in h && x != b
    ensures x in h' && h'[x].size == h[x].size && h'[x].room == h[x].room
  {
  }

  lemma HeldSame(rc: seq<nat>, bottom: nat, m: Mem)
    ensures HeldKept(rc, bottom, m, m)
  {
  }

  lemma FitIsFree(rc: seq<nat>, k: nat, n: nat)
    requires FirstFit(rc, k, n)
    ensures FreeRunAt(rc, k, n)
  {
    hide FreeRunAt;
  }

  /** A run of free pages is cleared; no held page is in it. */
  lemma ClaimKeeps(rc: seq<nat>, bottom: nat, k: nat, count: nat, m: Mem, m': Mem)
    requires FreeRunAt(rc, k, count) && m'.Keys == m.Keys
    requires forall a :: a in m ==>
      m'[a] == if exists j :: 0 <= j < count && a == bottom + PAGE_SIZE * k + PAGE_SIZE * j then ZeroPage() else m[a]
    ensures HeldKept(rc, bottom, m, m')
  {
    forall a: nat | HeldIn(rc, bottom, a) && a in m ensures m'[a] == m[a] {
      var i := (a - bottom) / PAGE_SIZE;
      assert rc[i] > 0 && !(k <= i < k + count);
    }
  }

  /** Block b is handed out: it was not live, it is the latest live block now, and no other live block changed. */
  ghost predicate Handed(hdr: Heap, hdr': Heap, used: seq<nat>, used': seq<nat>, b: nat, origin: nat) {
    used' == [b] + used && b !in used && b in hdr' && hdr'[b].origin == origin && KeptBut(hdr, hdr', b)
  }

  lemma HandedOrigin(h: Heap, h': Heap, used: seq<nat>, used': seq<nat>, b: nat, origin: nat)
    requires Handed(h, h', used, used', b, origin)
    ensures b in h' && h'[b].origin == origin
  {
    hide KeptBut;
  }

  lemma KeptOrigin(h: Heap, h': Heap, b: nat, c: nat)
    requires KeptBut(h, h', b) && c in h && c != b
    ensures c in h' && h'[c].origin == h[c].origin
  {
  }

  /** Block b is freed: one live block fewer, and no other block changed. */
  ghost predicate Freed(hdr: Heap, hdr': Heap, used: seq<nat>, used': seq<nat>, b: nat) {
    b in hdr && KeptBut(hdr, hdr', b) && Leaves(used, used', b)
  }

  lemma FreedKeeps(hdr: Heap, hdr': Heap, used: seq<nat>, used': seq<nat>, b: nat)
    requires Freed(hdr, hdr', used, used', b)
    ensures KeptBut(hdr, hdr', b)
  {
  }

  ghost predicate Leaves(l: seq<nat>, l': seq<nat>, b: int) {
    exists i {:trigger l[i]} :: 0 <= i < |l| && l[i] == b && l' == Without(l, i)
  }

  /** The block behind p gave way to a new one behind q, of the given room, that begins with the bytes p's header records. */
  ghost predicate Relocated(h: Heap, h': Heap, used: seq<nat>, used': seq<nat>, m: Mem, m': Mem, base: nat, p: nat, q: nat, room: nat) {
    && q > HEADER_SIZE && q - HEADER_SIZE !in used && RoomOf(h', q - HEADER_SIZE) == room
    && Leaves([q - HEADER_SIZE] + used, used', p - HEADER_SIZE)
    && Recorded(m, h, base, p - HEADER_SIZE) <= Payload(m', h', base, q - HEADER_SIZE)
  }

  /** The block b lies on the first run of n free pages, which is now held. */
  ghost predicate TakenAt(g: Ground, rc: seq<nat>, b: nat, n: nat) {
    exists k {:trigger Taken(g.rc, k, n)} ::
      FirstFit(g.rc, k, n) && rc == Taken(g.rc, k, n) && b == g.base + g.bottom + PAGE_SIZE * k
  }

  /** The pages of block b lost one holder each; the first page of the heap has no counter to lower. */
  ghost predicate DroppedAt(g: Ground, rc: seq<nat>, b: nat, n: nat) {
    exists k: nat {:trigger Dropped(g.rc, k, n)} ::
      rc == (if k == 0 then g.rc else Dropped(g.rc, k, n)) && b == g.base + g.bottom + PAGE_SIZE * k
  }

  /** A large malloc, by the least number of pages that hold the block. */
  ghost predicate LargeTaken(g: Ground, rc: seq<nat>, size: nat, p: nat, over: bool) {
    forall n: nat {:trigger LeastPages(n, size)} :: LeastPages(n, size) ==>
      && (over <==> 2 * n > g.bottom) && (p == 0 <==> over || NoFit(g.rc, n))
      && (p != 0 ==> p >= HEADER_SIZE && TakenAt(g, rc, p - HEADER_SIZE, n))
  }

  /** The free of a large block b, likewise. */
  ghost predicate LargeDropped(g: Ground, rc: seq<nat>, size: nat, b: nat) {
    forall n: nat {:trigger LeastPages(n, size)} :: LeastPages(n, size) ==> DroppedAt(g, rc, b, n)
  }

  lemma LargeTakenIs(g: Ground, rc: seq<nat>, size: u64, p: nat, over: bool)
    requires size + HEADER_SIZE + PAGE_SIZE - 1 < WORD && (over <==> 2 * PageCount(size) > g.bottom)
    requires p == 0 <==> over || NoFit(g.rc, PageCount(size))
    requires p != 0 ==> p >= HEADER_SIZE && TakenAt(g, rc, p - HEADER_SIZE, PageCount(size))
    ensures LargeTaken(g, rc, size, p, over)
  {
    hide PageCount, NoFit, TakenAt, LeastPages;
    forall n: nat | LeastPages(n, size) ensures n == PageCount(size) {
      LeastIs(n, size);
    }
  }

  lemma LargeDroppedIs(g: Ground, rc: seq<nat>, size: u64, b: nat)
    requires size + HEADER_SIZE + PAGE_SIZE - 1 < WORD && DroppedAt(g, rc, b, PageCount(size))
    ensures LargeDropped(g, rc, size, b)
  {
    hide PageCount, DroppedAt, LeastPages;
    forall n: nat | LeastPages(n, size) ensures n == PageCount(size) {
      LeastIs(n, size);
    }
  }

  ghost predicate Fronted(lists: seq<seq<nat>>, lists': seq<seq<nat>>, id: nat, b: nat) {
    id < |lists| && id < |lists'| && lists'[id] == [b] + lists[id]
  }

  /** The blocks of a formatted region joined the heap: full ones, and the tail with a recorded size of 0 and its room. */
  ghost predicate Refilled(hdr: Heap, hdr': Heap, data: nat, c: nat)
    requires c < CLASS_COUNT
  {
    && hdr'.Keys == hdr.Keys + Members(Nodes(data, c))
    && forall j :: 0 <= j <= Buckets(c) ==>
        && SizeOf(hdr', Nodes(data, c)[j]) == (if j == Buckets(c) then 0 else ClassSize(c))
        && RoomOf(hdr', Nodes(data, c)[j]) == (if j == Buckets(c) then Room(c) else ClassSize(c))
  }

  /** The pages that a request takes when it needs any. */
  function PagesOf(size: nat): nat {
    if size > MAX_SMALL then PageCount(size) else REFILL_PAGES
  }

  /** Where the kernel sees page k of the heap. */
  function PageSeen(g: Ground, k: nat): nat {
    g.base + g.bottom + PAGE_SIZE * k
  }

  /** Block b is the first of these free blocks of class c; the others stay, in order. */
  ghost predicate ServedFrom(lists: seq<seq<nat>>, lists': seq<seq<nat>>, c: nat, free: seq<nat>, b: nat) {
    && c < CLASS_COUNT && |lists| == LISTS && free != [] && b == free[0]
    && lists' == lists[c + 1 := free[1..]][USED := [b] + lists[USED]]
  }

  /** Where block b for a request comes from: a run of its own, the class's free list, or a new region. */
  ghost predicate Served(lists: seq<seq<nat>>, lists': seq<seq<nat>>, hdr: Heap, hdr': Heap, size: nat, refill: bool, b: nat) {
    if size > MAX_SMALL then |lists| == LISTS && lists' == lists[USED := [b] + lists[USED]] && hdr'.Keys == hdr.Keys + {b}
    else if refill then ServedFrom(lists, lists', ClassOf(size), Nodes(b, ClassOf(size)), b) && Refilled(hdr, hdr', b, ClassOf(size))
    else |lists| == LISTS && ServedFrom(lists, lists', ClassOf(size), lists[ClassOf(size) + 1], b) && hdr'.Keys == hdr.Keys
  }

  /** Large malloc then free: dropping the pages that were just taken restores the counts, off the first heap page. */
  lemma LargeCycle(g: Ground, rc1: seq<nat>, rc2: seq<nat>, b: nat, n: nat)
    requires TakenAt(g, rc1, b, n) && DroppedAt(g.(rc := rc1), rc2, b, n) && n > 0
    ensures rc2 == g.rc <==> b != g.base + g.bottom
  {
    var k: nat :| FirstFit(g.rc, k, n) && rc1 == Taken(g.rc, k, n) && b == g.base + g.bottom + PAGE_SIZE * k;
    assert rc1[k] == 1;
    if k > 0 {
      assert rc2 == Dropped(rc1, k, n);
      forall i | 0 <= i < |g.rc| ensures rc2[i] == g.rc[i] {
        assert k <= i < k + n ==> g.rc[i] == 0;
      }
    }
  }
}
