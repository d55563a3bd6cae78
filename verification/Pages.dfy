/** The page allocator of kernel/src/memory.c: a first-fit search over page reference counts. */
module Pages {
  import opened Words
  import opened Ram
  import opened DirectMap
  import opened Sync

  const UINT16_MAX := 65535

  /** A free run of `count` pages can start at p, in the range the search scans (memory.c:88-97). */
  ghost predicate FreeRunAt(rc: seq<nat>, p: nat, count: nat) {
    p < |rc| - count && rc[p] == 0 && forall q :: p < q < p + count ==> rc[q] == 0
  }

  ghost predicate FirstFit(rc: seq<nat>, k: nat, count: nat) {
    FreeRunAt(rc, k, count) && forall p: nat :: p < k ==> !FreeRunAt(rc, p, count)
  }

  ghost predicate NoFit(rc: seq<nat>, count: nat) {
    forall p: nat :: !FreeRunAt(rc, p, count)
  }

  /** Where the search finds its run: the first place from p on, or |rc| if there is none. */
  ghost function FitFrom(rc: seq<nat>, count: nat, p: nat): nat
    decreases |rc| - p
  {
    if p >= |rc| || FreeRunAt(rc, p, count) then p else FitFrom(rc, count, p + 1)
  }

  ghost function Fit(rc: seq<nat>, count: nat): nat {
    FitFrom(rc, count, 0)
  }

  lemma {:induction false} FitFromIs(rc: seq<nat>, count: nat, p: nat, k: nat)
    requires FirstFit(rc, k, count) && p <= k
    ensures FitFrom(rc, count, p) == k
    decreases k - p
  {
    if p < k {
      FitFromIs(rc, count, p + 1, k);
    }
  }

  /** The first fit is unique. */
  lemma FitIs(rc: seq<nat>, count: nat, k: nat)
    requires FirstFit(rc, k, count)
    ensures Fit(rc, count) == k
  {
    FitFromIs(rc, count, 0, k);
  }

  /** The counts after one operation on pages k..k+count. */
  function Taken(rc: seq<nat>, k: nat, count: nat): (r: seq<nat>)
    ensures |r| == |rc|
  {
    seq(|rc|, i requires 0 <= i < |rc| => if k <= i < k + count then 1 else rc[i])
  }

  function Shared(rc: seq<nat>, k: nat, count: nat): (r: seq<nat>)
    ensures |r| == |rc|
  {
    seq(|rc|, i requires 0 <= i < |rc| =>
      if k <= i < k + count && rc[i] != 65535 && rc[i] != 0 then rc[i] + 1 else rc[i])
  }

  function Dropped(rc: seq<nat>, k: nat, count: nat): (r: seq<nat>)
    ensures |r| == |rc|
  {
    seq(|rc|, i requires 0 <= i < |rc| => if k <= i < k + count && rc[i] != 0 then rc[i] - 1 else rc[i])
  }

  /** The free pages among the first n counts. */
  function FreeCount(rc: seq<nat>, n: nat): nat
    requires n <= |rc|
  {
    if n == 0 then 0 else FreeCount(rc, n - 1) + (if rc[n - 1] == 0 then 1 else 0)
  }

  /** The pages that a search for a single page can hand out (all but the last, memory.c:88). */
  function Available(rc: seq<nat>): nat {
    if rc == [] then 0 else FreeCount(rc, |rc| - 1)
  }

  lemma {:induction false} FreeCountTake(rc: seq<nat>, k: nat, n: nat)
    requires n <= |rc| && k < |rc| && rc[k] == 0
    ensures FreeCount(Taken(rc, k, 1), n) == FreeCount(rc, n) - (if k < n then 1 else 0)
  {
    if n > 0 {
      FreeCountTake(rc, k, n - 1);
    }
  }

  lemma {:induction false} FreeCountFit(rc: seq<nat>, n: nat)
    requires n < |rc|
    ensures FreeCount(rc, n) == 0 <==> forall p: nat :: p < n ==> !FreeRunAt(rc, p, 1)
  {
    if n > 0 {
      FreeCountFit(rc, n - 1);
      assert rc[n - 1] == 0 <==> FreeRunAt(rc, n - 1, 1);
    }
  }

  /** Single pages run out exactly when no available page is left. */
  lemma AvailableFit(rc: seq<nat>)
    ensures Available(rc) == 0 <==> NoFit(rc, 1)
  {
    if rc != [] {
      FreeCountFit(rc, |rc| - 1);
    }
  }

  lemma AvailableTake(rc: seq<nat>, k: nat)
    requires FirstFit(rc, k, 1)
    ensures Available(Taken(rc, k, 1)) == Available(rc) - 1
  {
    FreeCountTake(rc, k, |rc| - 1);
  }

  /** The counts after n single pages were allocated, one after the other. */
  ghost function TakeN(rc: seq<nat>, n: nat): (r: seq<nat>)
    ensures |r| == |rc|
  {
    if n == 0 then rc else
      var before := TakeN(rc, n - 1);
      Taken(before, Fit(before, 1), 1)
  }

  lemma {:induction false} TakeMore(rc: seq<nat>, j: nat, n: nat)
    ensures TakeN(TakeN(rc, j), n) == TakeN(rc, j + n)
  {
    if n > 0 {
      TakeMore(rc, j, n - 1);
      assert TakeN(rc, j + n) == var before := TakeN(rc, j + n - 1); Taken(before, Fit(before, 1), 1);
    }
  }

  lemma TakeOne(rc: seq<nat>, k: nat)
    requires FirstFit(rc, k, 1)
    ensures TakeN(rc, 1) == Taken(rc, k, 1)
  {
    FitIs(rc, 1, k);
    assert TakeN(rc, 0) == rc;
  }

  /** The page at physical address a is counted in rc as held. */
  predicate HeldIn(rc: seq<nat>, heapBottom: nat, a: nat) {
    a >= heapBottom &&
    var k := (a - heapBottom) / PAGE_SIZE;
    a == heapBottom + PAGE_SIZE * k && k < |rc| && rc[k] > 0
  }

  class PageAllocator {
    const heapBottom: u64
    const counts: array<nat>   // uint16_t counters, from pages_bottom on
    var on: bool               // satp selects a page table
    var mem: Mem
    var mutatingHeap: bool
    ghost var log: Trace       // lock operations, in order

    ghost predicate Valid()
      reads this, counts
    {
      && heapBottom > 0 && heapBottom % PAGE_SIZE == 0
      && heapBottom + PAGE_SIZE * counts.Length <= WINDOW
      && (forall k :: 0 <= k < counts.Length ==> counts[k] <= 65535)
      && (forall k :: 0 <= k < counts.Length ==> Addr(k) in mem)
      && 0 !in mem
      && !mutatingHeap
    }

    function Addr(k: nat): nat {
      heapBottom + PAGE_SIZE * k
    }

    function Index(page: nat): int {
      (page - heapBottom) / PAGE_SIZE
    }

    lemma IndexOfAddr(k: nat)
      ensures Index(Addr(k)) == k && Addr(k) % PAGE_SIZE == heapBottom % PAGE_SIZE
    {
    }

    /** Boot memory: the counts and the page contents found at start-up are parameters. */
    constructor (heapBottom: u64, counts: array<nat>, mem: Mem, on: bool)
      requires heapBottom > 0 && heapBottom % PAGE_SIZE == 0
      requires heapBottom + PAGE_SIZE * counts.Length <= WINDOW
      requires forall k :: 0 <= k < counts.Length ==> counts[k] <= UINT16_MAX
      requires forall k :: 0 <= k < counts.Length ==> heapBottom + PAGE_SIZE * k in mem
      requires 0 !in mem
      ensures Valid() && this.counts == counts && this.heapBottom == heapBottom && this.mem == mem && this.on == on
    {
      this.heapBottom, this.counts, this.mem, this.on := heapBottom, counts, mem, on;
      mutatingHeap := false;
      log := Start;
    }

    method Lock()
      requires !mutatingHeap
      modifies this`mutatingHeap, this`log
      ensures mutatingHeap && log == Then(old(log), Acquire(Heap))
    {
      mutatingHeap := true;
      log := Then(log, Acquire(Heap));
    }

    method Unlock()
      modifies this`mutatingHeap, this`log
      ensures !mutatingHeap && log == Then(old(log), Release(Heap))
    {
      mutatingHeap := false;
      log := Then(log, Release(Heap));
    }

    /** page_ref_count: the counter of the page that an address lies in, or none up to the first heap page's start. */
    function RefCount(page: nat): (i: int)
      ensures page <= heapBottom ==> i == -1
      ensures page > heapBottom ==> 0 <= i && Addr(i) <= page < Addr(i + 1)
      ensures heapBottom < page < Addr(counts.Length) ==> i < counts.Length
    {
      if page > heapBottom then Index(page) else -1
    }

    /**
     * The scan ends at heap_bottom - count, a difference of pointers to uint16_t. When 2 * count exceeds the address of
     * heap_bottom it wraps around and the scan goes on behind the counters; that outcome is `over`.
     */
    method AllocPages(count: nat) returns (page: nat, over: bool)
      requires Valid()
      modifies this`mem, this`mutatingHeap, this`log, counts
      ensures Valid() && log == HeapCall(old(log))
      ensures over <==> 2 * count > heapBottom
      ensures page == 0 <==> over || NoFit(old(counts[..]), count)
      ensures page == 0 ==> counts[..] == old(counts[..]) && mem == old(mem)
      ensures page != 0 ==>
        && page >= heapBottom && page == Addr(Index(page))
        && FirstFit(old(counts[..]), Index(page), count)
        && counts[..] == Taken(old(counts[..]), Index(page), count)
        && mem.Keys == old(mem.Keys)
        && forall a :: a in mem ==>
            mem[a] == if exists j :: 0 <= j < count && a == page + PAGE_SIZE * j then ZeroPage() else old(mem[a])
    {
      Lock();
      over := 2 * count > heapBottom;
      if over {
        Unlock();
        return 0, over;
      }
      var n := counts.Length;
      var p := 0;
      while p < n - count
        invariant forall q: nat :: q < p ==> !FreeRunAt(counts[..], q, count)
        invariant mutatingHeap && log == Then(old(log), Acquire(Heap))
        invariant counts[..] == old(counts[..]) && mem == old(mem)
      {
        if counts[p] == 0 {
          var enough := true;
          var q := p + 1;
          while q < p + count && enough
            invariant p < q
            invariant enough ==> forall r :: p < r < q && r < p + count ==> counts[r] == 0
            invariant !enough ==> q < p + count && counts[q] != 0
            decreases p + count - q, enough
          {
            if counts[q] != 0 {
              enough := false;
            } else {
              q := q + 1;
            }
          }
          if enough {
            assert FirstFit(old(counts[..]), p, count);
            page := Claim(p, count);
            Unlock();
            return;
          }
        }
        p := p + 1;
      }
      Unlock();
      page := 0;
    }

    /** alloc_pages(1) */
    method AllocPage() returns (page: nat)
      requires Valid()
      modifies this`mem, this`mutatingHeap, this`log, counts
      ensures Valid() && log == HeapCall(old(log))
      ensures page == 0 <==> Available(old(counts[..])) == 0
      ensures page == 0 ==> counts[..] == old(counts[..]) && mem == old(mem)
      ensures page != 0 ==>
        && 0 <= Index(page) < counts.Length && page == Addr(Index(page))
        && page in mem && 0 < page < WINDOW && page % 4096 == 0
        && old(counts[..])[Index(page)] == 0 && !HeldIn(old(counts[..]), heapBottom, page)
        && counts[..] == Taken(old(counts[..]), Index(page), 1)
        && Available(counts[..]) == Available(old(counts[..])) - 1
        && Index(page) == Fit(old(counts[..]), 1) && counts[..] == TakeN(old(counts[..]), 1)
        && mem == old(mem)[page := ZeroPage()]
        && (forall j :: 0 <= j < Index(page) ==> old(counts[..])[j] != 0)
    {
      AvailableFit(counts[..]);
      var over;
      page, over := AllocPages(1);
      if page != 0 {
        IndexOfAddr(Index(page));
        AvailableTake(old(counts[..]), Index(page));
        FitIs(old(counts[..]), 1, Index(page));
        TakeOne(old(counts[..]), Index(page));
        forall j | 0 <= j < Index(page) ensures old(counts[..])[j] != 0 {
          assert !FreeRunAt(old(counts[..]), j, 1);
        }
        forall a | a in mem ensures mem[a] == if a == page then ZeroPage() else old(mem)[a] {
          assert a == page <==> exists j :: 0 <= j < 1 && a == page + PAGE_SIZE * j by {
            assert page == page + PAGE_SIZE * 0;
          }
        }
      }
    }

    /** The found run is marked and zeroed (memory.c:98-112). */
    method Claim(p: nat, count: nat) returns (page: nat)
      requires p < counts.Length - count
      requires heapBottom > 0 && heapBottom % PAGE_SIZE == 0
      requires heapBottom + PAGE_SIZE * counts.Length <= WINDOW
      requires forall k :: 0 <= k < counts.Length ==> Addr(k) in mem
      modifies this`mem, counts
      ensures page == Addr(p) && Index(page) == p
      ensures counts[..] == Taken(old(counts[..]), p, count)
      ensures mem.Keys == old(mem.Keys)
      ensures forall a :: a in mem ==>
        mem[a] == if exists j :: 0 <= j < count && a == page + PAGE_SIZE * j then ZeroPage() else old(mem[a])
    {
      var q := p;
      while q < p + count
        invariant p <= q <= p + count && mem == old(mem)
        invariant forall i :: 0 <= i < counts.Length ==> counts[i] == if p <= i < q then 1 else old(counts[i])
      {
        counts[q] := 1;
        q := q + 1;
      }
      assert counts[..] == Taken(old(counts[..]), p, count);
      var safe := Phys2Safe(Addr(p), on);
      WindowRoundTrip(Addr(p), on);
      var j := 0;
      while j < count
        invariant 0 <= j <= count && counts[..] == Taken(old(counts[..]), p, count)
        invariant mem.Keys == old(mem.Keys)
        invariant forall a :: a in mem ==>
          mem[a] == if exists i :: 0 <= i < j && a == Addr(p) + PAGE_SIZE * i then ZeroPage() else old(mem[a])
      {
        assert Addr(p + j) in mem;
        mem := mem[Safe2Phys(safe, on) + PAGE_SIZE * j := ZeroPage()];
        j := j + 1;
      }
      page := Safe2Phys(safe, on);
      IndexOfAddr(p);
    }

    /**
     * incr_page_ref_count takes a physical address. A range that runs past the last counter makes the code go on into
     * what lies behind the counters; that outcome is `over`.
     */
    method IncrPageRefCount(page: nat, count: nat) returns (over: bool)
      requires Valid()
      modifies this`mutatingHeap, this`log, counts
      ensures Valid() && log == HeapCall(old(log))
      ensures counts[..] ==
        if page <= heapBottom then old(counts[..]) else Shared(old(counts[..]), Index(page), count)
      ensures over <==> page > heapBottom && count > 0 && Index(page) + count > counts.Length
    {
      over := false;
      Lock();
      var rc := RefCount(page);
      if rc == -1 {
        Unlock();
        return;
      }
      var i := 0;
      while i < count && !over
        invariant 0 <= i <= count && (over ==> i < count && rc + i >= counts.Length)
        invariant i > 0 ==> rc + i <= counts.Length
        invariant mutatingHeap && log == Then(old(log), Acquire(Heap))
        invariant forall k :: 0 <= k < counts.Length ==>
          counts[k] == if k < rc + i then Shared(old(counts[..]), rc, count)[k] else old(counts[k])
        decreases count - i, !over
      {
        if rc + i >= counts.Length {
          over := true;
        } else {
          if counts[rc + i] != UINT16_MAX && counts[rc + i] != 0 {
            counts[rc + i] := counts[rc + i] + 1;
          }
          i := i + 1;
        }
      }
      Unlock();
    }

    /** dealloc_pages takes a physical address or its alias in the kernel window. */
    method DeallocPages(page: u64, count: nat) returns (over: bool)
      requires Valid()
      modifies this`mutatingHeap, this`log, counts
      ensures Valid() && log == HeapCall(old(log))
      ensures counts[..] ==
        if Safe2Phys(page, on) <= heapBottom then old(counts[..])
        else Dropped(old(counts[..]), Index(Safe2Phys(page, on)), count)
      ensures over <==> Safe2Phys(page, on) > heapBottom && count > 0 && Index(Safe2Phys(page, on)) + count > counts.Length
    {
      over := false;
      Lock();
      var rc := RefCount(Safe2Phys(page, on));
      if rc == -1 {
        Unlock();
        return;
      }
      var i := 0;
      while i < count && !over
        invariant 0 <= i <= count && (over ==> i < count && rc + i >= counts.Length)
        invariant i > 0 ==> rc + i <= counts.Length
        invariant mutatingHeap && log == Then(old(log), Acquire(Heap))
        invariant forall k :: 0 <= k < counts.Length ==>
          counts[k] == if k < rc + i then Dropped(old(counts[..]), rc, count)[k] else old(counts[k])
        decreases count - i, !over
      {
        if rc + i >= counts.Length {
          over := true;
        } else {
          if counts[rc + i] != 0 {
            counts[rc + i] := counts[rc + i] - 1;
          }
          i := i + 1;
        }
      }
      Unlock();
    }
  }
}
