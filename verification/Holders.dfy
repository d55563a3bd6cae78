/** Reference counts against the holders they stand for, over runs of the page operations of kernel/src/memory.c. */
module Holders {
  import opened Pages

  /** Pages k..k+count, by index, are allocated, shared with one more holder, or given up by one holder. */
  datatype Op = Alloc(k: nat, count: nat) | Incr(k: nat, count: nat) | Dealloc(k: nat, count: nat)

  /** What the operation does to the counts; the page at heap_bottom, index 0, has no reachable counter. */
  function Effect(rc: seq<nat>, op: Op): (r: seq<nat>)
    ensures |r| == |rc|
  {
    match op
    case Alloc(k, count) => Taken(rc, k, count)
    case Incr(k, count) => if k == 0 then rc else Shared(rc, k, count)
    case Dealloc(k, count) => if k == 0 then rc else Dropped(rc, k, count)
  }

  predicate Covers(op: Op, i: nat) {
    op.k <= i < op.k + op.count
  }

  /** How many parties hold each page after the operation. */
  function HoldersAfter(h: seq<nat>, op: Op): (r: seq<nat>)
    requires !op.Alloc? ==> OnHeld(h, op)
    ensures |r| == |h|
  {
    seq(|h|, i requires 0 <= i < |h| =>
      if !Covers(op, i) then h[i] else if op.Alloc? then 1 else if op.Incr? then h[i] + 1 else h[i] - 1)
  }

  predicate OnHeld(h: seq<nat>, op: Op) {
    forall i :: 0 <= i < |h| && Covers(op, i) ==> h[i] > 0
  }

  /** Callers allocate what alloc_pages finds, and share or give up only pages that have a holder. */
  ghost predicate Fair(rc: seq<nat>, h: seq<nat>, op: Op) {
    && |h| == |rc| && op.k + op.count <= |rc| && op.count > 0
    && (op.Alloc? ==> FirstFit(rc, op.k, op.count))
    && (!op.Alloc? ==> OnHeld(h, op))
  }

  /** Shares and drops leave page 0 out, and no count is at its maximum when it is raised. */
  ghost predicate Counted(rc: seq<nat>, op: Op) {
    && (!op.Alloc? ==> op.k > 0)
    && (op.Incr? ==> forall i :: 0 <= i < |rc| && Covers(op, i) ==> rc[i] < UINT16_MAX)
  }

  /** One operation keeps counts equal to holders exactly when it is counted; only pages without holders are allocated. */
  lemma StepExact(rc: seq<nat>, h: seq<nat>, op: Op)
    requires Fair(rc, h, op) && rc == h && forall i :: 0 <= i < |rc| ==> rc[i] <= UINT16_MAX
    ensures Effect(rc, op) == HoldersAfter(h, op) <==> Counted(rc, op)
    ensures forall i :: 0 <= i < |rc| ==> Effect(rc, op)[i] <= UINT16_MAX
    ensures op.Alloc? ==> forall i :: 0 <= i < |h| && Covers(op, i) ==> h[i] == 0
  {
    var r, s := Effect(rc, op), HoldersAfter(h, op);
    if Counted(rc, op) {
      forall i | 0 <= i < |rc| ensures r[i] == s[i] {
      }
    } else {
      if op.k == 0 && !op.Alloc? {
        assert Covers(op, 0) && r[0] != s[0];
      } else {
        var i :| 0 <= i < |rc| && Covers(op, i) && rc[i] >= UINT16_MAX;
        assert r[i] != s[i];
      }
    }
  }

  /** What clients ask of the page allocator. */
  datatype Request = AllocOf(count: nat) | IncrOf(k: nat, count: nat) | DeallocOf(k: nat, count: nat)

  function OpOf(r: Request): Op
    requires !r.AllocOf?
  {
    if r.IncrOf? then Incr(r.k, r.count) else Dealloc(r.k, r.count)
  }

  /** Clients share and give up pages that they hold, page 0 aside, and no page gets more than 65535 holders. */
  predicate Legal(h: seq<nat>, r: Request) {
    r.count > 0 && (!r.AllocOf? ==> r.k > 0 && r.k + r.count <= |h| && OnHeld(h, OpOf(r)) && (r.IncrOf? ==> BelowMax(h, OpOf(r))))
  }

  predicate BelowMax(h: seq<nat>, op: Op) {
    forall i :: 0 <= i < |h| && Covers(op, i) ==> h[i] < UINT16_MAX
  }

  /**
   * The clients' books after a request: an allocation gets the first run of pages without holders, if there is one and
   * the scan for it ends among the counters.
   */
  ghost predicate Booked(bottom: nat, h: seq<nat>, r: Request, h': seq<nat>) {
    if !Legal(h, r) then h' == h
    else if r.AllocOf? then
      if 2 * r.count > bottom || NoFit(h, r.count) then h' == h
      else exists k :: FirstFit(h, k, r.count) && h' == HoldersAfter(h, Alloc(k, r.count))
    else h' == HoldersAfter(h, OpOf(r))
  }

  /** One request, served by the allocator itself; the books follow what it returns. */
  method Serve(a: PageAllocator, h: seq<nat>, r: Request) returns (h': seq<nat>)
    requires a.Valid() && a.counts[..] == h
    modifies a`mem, a`mutatingHeap, a`log, a.counts
    ensures a.Valid() && a.counts[..] == h' && Booked(a.heapBottom, h, r, h')
  {
    h' := h;
    if !Legal(h, r) {
      return;
    }
    if r.AllocOf? {
      var page, over := a.AllocPages(r.count);
      if page != 0 {
        StepExact(h, h, Alloc(a.Index(page), r.count));
        h' := HoldersAfter(h, Alloc(a.Index(page), r.count));
      }
    } else {
      StepExact(h, h, OpOf(r));
      a.IndexOfAddr(r.k);
      h' := HoldersAfter(h, OpOf(r));
      if r.IncrOf? {
        var over := a.IncrPageRefCount(a.Addr(r.k), r.count);
      } else {
        var over := a.DeallocPages(a.Addr(r.k), r.count);
      }
    }
  }

  /** After any run of requests every count is the number of the page's outstanding holders. */
  method Run(a: PageAllocator, h: seq<nat>, requests: seq<Request>) returns (h': seq<nat>, ghost books: seq<seq<nat>>)
    requires a.Valid() && a.counts[..] == h
    modifies a`mem, a`mutatingHeap, a`log, a.counts
    ensures a.Valid() && a.counts[..] == h' && |books| == |requests| + 1 && books[0] == h && books[|requests|] == h'
    ensures forall n :: 0 <= n < |requests| ==> Booked(a.heapBottom, books[n], requests[n], books[n + 1])
  {
    hide Booked;
    h', books := h, [h];
    var n := 0;
    while n < |requests|
      invariant 0 <= n <= |requests| && a.Valid() && a.counts[..] == h'
      invariant |books| == n + 1 && books[0] == h && books[n] == h'
      invariant forall j :: 0 <= j < n ==> Booked(a.heapBottom, books[j], requests[j], books[j + 1])
    {
      h' := Serve(a, h', requests[n]);
      books := books + [h'];
      n := n + 1;
    }
  }

  /** Giving up what was just allocated restores the counts, unless the run begins at page 0. */
  lemma AllocThenDealloc(rc: seq<nat>, k: nat, count: nat)
    requires FirstFit(rc, k, count) && count > 0
    ensures Effect(Effect(rc, Alloc(k, count)), Dealloc(k, count)) == rc <==> k > 0
  {
    var taken := Taken(rc, k, count);
    assert taken[k] == 1;
    if k > 0 {
      forall i | 0 <= i < |rc| ensures Dropped(taken, k, count)[i] == rc[i] {
        assert k <= i < k + count ==> rc[i] == 0;
      }
      assert Dropped(taken, k, count) == rc;
    }
  }
}
