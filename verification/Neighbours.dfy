/**
 * What the heap (kernel/src/memory.c) leaves alone: pages that somebody else holds keep their holders and their bytes,
 * and new blocks only come to lie on pages that nobody held.
 */
module Neighbours {
  import opened Words
  import opened Ram
  import opened Pages
  import opened FreeLists
  import opened Blocks
  import opened Regions
  import opened BlockHeap
  import opened Payloads
  import opened Outcomes

  /** The block at b shares no byte with the page seen at x. */
  predicate Misses(b: nat, size: nat, room: nat, x: nat) {
    b + Extent(size, room) <= x || x + PAGE_SIZE <= b
  }

  ghost predicate NoBlockIn(h: Heap, x: nat) {
    forall b {:trigger h[b]} :: b in h ==> Misses(b, h[b].size, h[b].room, x)
  }

  /** The block touches only pages that nobody holds. */
  ghost predicate OnFree(g: Ground, b: nat, size: nat, room: nat) {
    forall k {:trigger g.rc[k]} :: 0 <= k < |g.rc| && g.rc[k] > 0 ==> Misses(b, size, room, PageSeen(g, k))
  }

  /** Every block was there before, with its size, or lies on pages that nobody held. */
  ghost predicate NewOnFree(h: Heap, h': Heap, g: Ground) {
    forall b {:trigger h'[b]} :: b in h' ==>
      (b in h && h'[b].size == h[b].size && h'[b].room == h[b].room) || OnFree(g, b, h'[b].size, h'[b].room)
  }

  /** Page k was held, and no block had a byte in it. */
  ghost predicate Foreign(h: Heap, g: Ground, k: nat) {
    k < |g.rc| && g.rc[k] > 0 && NoBlockIn(h, PageSeen(g, k))
  }

  /** Pages that others hold keep their holders and their bytes. */
  ghost predicate OthersKept(h: Heap, g: Ground, m: Mem, rc': seq<nat>, m': Mem) {
    |rc'| == |g.rc| && forall k {:trigger g.rc[k]} {:trigger rc'[k]} :: 0 <= k < |g.rc| && Foreign(h, g, k) ==>
      rc'[k] == g.rc[k] && SamePage(m, m', g.bottom + PAGE_SIZE * k)
  }

  /** No block is new, and none changed its size. */
  ghost predicate Within(h': Heap, h: Heap) {
    forall b {:trigger h'[b]} :: b in h' ==> b in h && h'[b].size == h[b].size && h'[b].room == h[b].room
  }

  lemma FreedWithin(h: Heap, h': Heap, b: nat)
    requires KeptBut(h, h', b)
    requires h'.Keys == h.Keys - {b} || (h'.Keys == h.Keys && SizeOf(h', b) == SizeOf(h, b) && RoomOf(h', b) == RoomOf(h, b))
    ensures Within(h', h)
  {
    hide KeptBut;
    forall a | a in h' ensures a in h && h'[a].size == h[a].size && h'[a].room == h[a].room {
      assert a in h'.Keys;
      if a != b {
        KeptAt(h, h', b, a);
      }
    }
  }

  /** An operation of the heap that minds the other users of pages. */
  ghost predicate Minds(h: Heap, g: Ground, m: Mem, h': Heap, rc': seq<nat>, m': Mem) {
    NewOnFree(h, h', g) && OthersKept(h, g, m, rc', m')
  }

  lemma MindsTwice(h: Heap, g: Ground, m: Mem, h1: Heap, rc1: seq<nat>, m1: Mem, h2: Heap, rc2: seq<nat>, m2: Mem)
    requires Minds(h, g, m, h1, rc1, m1) && OthersKept(h1, g.(rc := rc1), m1, rc2, m2) && Within(h2, h1)
    ensures Minds(h, g, m, h2, rc2, m2)
  {
    hide NewOnFree, OthersKept;
    OthersTwice(h, g, m, h1, rc1, m1, rc2, m2);
    OnFreeTwice(h, g, h1, h2);
  }

  lemma MindsNothing(h: Heap, g: Ground, m: Mem, rc': seq<nat>, m': Mem)
    requires rc' == g.rc && HeldKept(g.rc, g.bottom, m, m')
    ensures Minds(h, g, m, h, rc', m')
  {
    hide NewOnFree, OthersKept, HeldKept;
    SameOnFree(h, h, g);
    TakenOthers(h, g, m, rc', m', 0, 0);
  }

  predicate SamePage(m: Mem, m': Mem, a: nat) {
    a in m ==> a in m' && m'[a] == m[a]
  }

  /** Where no block was, and somebody held the page, no block is afterwards. */
  lemma StillForeign(h: Heap, h': Heap, g: Ground, k: nat)
    requires NewOnFree(h, h', g) && Foreign(h, g, k)
    ensures NoBlockIn(h', PageSeen(g, k))
  {
    hide Misses;
    forall b | b in h' ensures Misses(b, h'[b].size, h'[b].room, PageSeen(g, k)) {
      assert g.rc[k] > 0;
    }
  }

  lemma SameOnFree(h: Heap, h': Heap, g: Ground)
    requires Within(h', h)
    ensures NewOnFree(h, h', g)
  {
    hide OnFree;
  }

  lemma SameOthers(h: Heap, g: Ground, m: Mem)
    ensures OthersKept(h, g, m, g.rc, m)
  {
    forall k | 0 <= k < |g.rc| ensures SamePage(m, m, g.bottom + PAGE_SIZE * k) {
    }
  }

  /** Two operations in a row; the second starts from the ground that the first leaves. */
  lemma OthersTwice(h: Heap, g: Ground, m: Mem, h1: Heap, rc1: seq<nat>, m1: Mem, rc2: seq<nat>, m2: Mem)
    requires OthersKept(h, g, m, rc1, m1) && NewOnFree(h, h1, g) && OthersKept(h1, g.(rc := rc1), m1, rc2, m2)
    ensures OthersKept(h, g, m, rc2, m2)
  {
    hide NoBlockIn, NewOnFree;
    forall k | 0 <= k < |g.rc| && Foreign(h, g, k)
      ensures rc2[k] == g.rc[k] && SamePage(m, m2, g.bottom + PAGE_SIZE * k)
    {
      assert rc1[k] == g.rc[k];
      StillForeign(h, h1, g, k);
      assert Foreign(h1, g.(rc := rc1), k);
    }
  }

  /** The second operation adds no block. */
  lemma OnFreeTwice(h: Heap, g: Ground, h1: Heap, h2: Heap)
    requires NewOnFree(h, h1, g) && Within(h2, h1)
    ensures NewOnFree(h, h2, g)
  {
    hide OnFree;
  }

  /** A block inside a run of free pages. */
  lemma InRunOnFree(g: Ground, k: nat, n: nat, b: nat, size: nat, room: nat)
    requires FreeRunAt(g.rc, k, n) && PageSeen(g, k) <= b && b + Extent(size, room) <= PageSeen(g, k) + PAGE_SIZE * n
    ensures OnFree(g, b, size, room)
  {
    hide Extent;
    forall j | 0 <= j < |g.rc| && g.rc[j] > 0 ensures Misses(b, size, room, PageSeen(g, j)) {
      assert !(k <= j < k + n);
    }
  }

  /** A large block on fresh pages of its own. */
  lemma LargeOnFree(h: Heap, h': Heap, g: Ground, rc: seq<nat>, b: nat, size: nat)
    requires TakenAt(g, rc, b, PageCount(size)) && KeptBut(h, h', b) && h'.Keys == h.Keys + {b}
    requires h'[b].size == h'[b].room == size
    requires MAX_SMALL < size && size + HEADER_SIZE + PAGE_SIZE - 1 < WORD
    ensures NewOnFree(h, h', g)
  {
    hide KeptBut, OnFree, PageCount, FreeRunAt;
    var k: nat :| FirstFit(g.rc, k, PageCount(size)) && b == g.base + g.bottom + PAGE_SIZE * k;
    LargeExtent(size);
    FitIsFree(g.rc, k, PageCount(size));
    InRunOnFree(g, k, PageCount(size), b, size, size);
    forall a | a in h' && a != b ensures a in h && h'[a].size == h[a].size && h'[a].room == h[a].room {
      KeptAt(h, h', b, a);
    }
  }

  /** The blocks of a formatted region. */
  lemma RegionOnFree(h: Heap, h': Heap, g: Ground, rc: seq<nat>, b: nat, c: nat)
    requires c < CLASS_COUNT && TakenAt(g, rc, b, REFILL_PAGES) && KeptBut(h, h', b) && Refilled(h, h', b, c) && b !in h
    ensures NewOnFree(h, h', g)
  {
    hide KeptBut, OnFree, FreeRunAt, Nodes, Buckets, Node, Extent;
    var k: nat :| FirstFit(g.rc, k, REFILL_PAGES) && b == g.base + g.bottom + PAGE_SIZE * k;
    FitIsFree(g.rc, k, REFILL_PAGES);
    var l := Nodes(b, c);
    forall a | a in h' ensures (a in h && h'[a].size == h[a].size && h'[a].room == h[a].room) || OnFree(g, a, h'[a].size, h'[a].room) {
      if a in h {
        KeptAt(h, h', b, a);
      } else {
        assert a in Members(l);
        var i :| 0 <= i < |l| && l[i] == a;
        NodeInside(b, c, i);
        NodeExtent(b, c, i);
        assert SizeOf(h', a) == (if i == Buckets(c) then 0 else ClassSize(c));
        assert RoomOf(h', a) == (if i == Buckets(c) then Room(c) else ClassSize(c));
        InRunOnFree(g, k, REFILL_PAGES, a, h'[a].size, h'[a].room);
      }
    }
  }

  /** Taking free pages, with held pages left alone. */
  lemma TakenOthers(h: Heap, g: Ground, m: Mem, rc': seq<nat>, m': Mem, b: nat, n: nat)
    requires rc' == g.rc || TakenAt(g, rc', b, n)
    requires HeldKept(g.rc, g.bottom, m, m')
    ensures OthersKept(h, g, m, rc', m')
  {
    hide NoBlockIn;
    forall j | 0 <= j < |g.rc| && Foreign(h, g, j)
      ensures |rc'| == |g.rc| && rc'[j] == g.rc[j] && SamePage(m, m', g.bottom + PAGE_SIZE * j)
    {
      assert HeldIn(g.rc, g.bottom, g.bottom + PAGE_SIZE * j);
      if rc' != g.rc {
        var k: nat :| FirstFit(g.rc, k, n) && rc' == Taken(g.rc, k, n);
        assert !(k <= j < k + n);
      }
    }
  }

  /** Giving up the pages of a large block. */
  lemma DroppedOthers(h: Heap, g: Ground, m: Mem, rc': seq<nat>, b: nat)
    requires b in h && MAX_SMALL < h[b].size && h[b].size + HEADER_SIZE + PAGE_SIZE - 1 < WORD
    requires DroppedAt(g, rc', b, PageCount(h[b].size))
    ensures OthersKept(h, g, m, rc', m)
  {
    hide PageCount;
    LargeExtent(h[b].size);
    var n := PageCount(h[b].size);
    var k: nat :| rc' == (if k == 0 then g.rc else Dropped(g.rc, k, n)) && b == g.base + g.bottom + PAGE_SIZE * k;
    forall j | 0 <= j < |g.rc| && Foreign(h, g, j) ensures rc'[j] == g.rc[j] {
      assert Misses(b, h[b].size, h[b].room, PageSeen(g, j));
      assert !(k <= j < k + n);
    }
  }

  /** Writing into a block's payload. */
  lemma WrittenOthers(h: Heap, g: Ground, m: Mem, m': Mem, b: nat)
    requires b in h && b >= g.base && m'.Keys == m.Keys && Extent(h[b].size, h[b].room) >= HEADER_SIZE + h[b].room
    requires g.bottom % PAGE_SIZE == 0
    requires forall q: nat {:trigger ByteOf(m', q)} ::
      !(b + HEADER_SIZE - g.base <= q < b + HEADER_SIZE - g.base + h[b].room) ==> ByteOf(m', q) == ByteOf(m, q)
    ensures OthersKept(h, g, m, g.rc, m')
  {
    hide Extent;
    forall k | 0 <= k < |g.rc| && Foreign(h, g, k) ensures SamePage(m, m', g.bottom + PAGE_SIZE * k) {
      var a := g.bottom + PAGE_SIZE * k;
      assert Misses(b, h[b].size, h[b].room, PageSeen(g, k));
      if a in m {
        forall j | 0 <= j < 4096 ensures m'[a][j] == m[a][j] {
          assert ByteOf(m', a + j) == ByteOf(m, a + j);
          assert (a + j) - (a + j) % 4096 == a;
        }
      }
    }
  }
}
