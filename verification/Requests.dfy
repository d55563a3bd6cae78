/** Whole runs of malloc, free and realloc (kernel/src/memory.c) by clients that free only what they hold. */
module Requests {
  import opened Words
  import opened Ram
  import opened Sync
  import opened FreeLists
  import opened Blocks
  import opened Payloads
  import opened BlockHeap
  import opened Outcomes
  import opened Neighbours
  import opened Snapshots
  import opened Malloc
  import opened Locks

  /** Pointers are named by their place in the list of those that the clients hold. */
  datatype Request =
    | MallocOf(size: u64, origin: u64)
    | FreeOf(n: nat)
    | ReallocOf(n: nat, size: u64, origin: u64)
    | WriteOf(n: nat, at: nat, value: u8)

  /**
   * What a client knows of a pointer: the size it asked for, whether it got a region's tail, and the bytes of the
   * block, as many as it has room for.
   */
  datatype Held = Held(p: nat, asked: nat, tail: bool, bytes: seq<u8>)

  function Pointers(books: seq<Held>): (s: seq<nat>)
    ensures |s| == |books| && forall i {:trigger s[i]} :: 0 <= i < |s| ==> s[i] == books[i].p
  {
    seq(|books|, i requires 0 <= i < |books| => books[i].p)
  }

  /** The block covers what was asked for, unless it is a tail. */
  predicate Covered(e: Held) {
    e.asked <= |e.bytes| || e.tail
  }

  /** The size that the block's header records. */
  function Size(e: Held): nat {
    if e.tail then 0 else |e.bytes|
  }

  /** The block behind the pointer has these bytes. */
  ghost predicate TrueTo(e: Held, m: Mem, h: Heap, base: nat) {
    && Before(e.p) in h && h[Before(e.p)].size == Size(e) && h[Before(e.p)].room == |e.bytes|
    && Payload(m, h, base, Before(e.p)) == e.bytes
  }

  ghost predicate Faithful(books: seq<Held>, m: Mem, h: Heap, base: nat) {
    forall n {:trigger books[n]} :: 0 <= n < |books| ==> TrueTo(books[n], m, h, base) && Covered(books[n])
  }

  /** What a request finds: lists, block sizes and page counts, and whether the MMU is on. */
  datatype View = View(state: Snapshot, on: bool)

  ghost function ViewOf(a: BucketAllocator): View
    reads a, a.pages, a.pages.counts
  {
    View(a.State(), a.pages.on)
  }

  /**
   * The code leaves its data structures: it uses a null page with the MMU on, a page count that wrapped around, copies
   * past a tail in a realloc, or lets a client write behind a tail that is too short for what it asked for.
   */
  ghost predicate Stops(v: View, books: seq<Held>, r: Request) {
    match r
    case MallocOf(size, _) => size != 0 && Fails(v.state, size) && (Over(v.state, size) || v.on)
    case FreeOf(_) => false
    case WriteOf(n, at, _) => n < |books| && |books[n].bytes| <= at < books[n].asked
    case ReallocOf(n, size, _) =>
      Spills(v, books, r) || (Grows(books, r) && Fails(v.state, size) && (Over(v.state, size) || v.on))
  }

  /** A realloc that needs a new block. */
  predicate Grows(books: seq<Held>, r: Request) {
    r.ReallocOf? && r.n < |books| && Size(books[r.n]) < r.size
  }

  /** A realloc that copies past a tail: the one stop by which the heap has changed. */
  ghost predicate Spills(v: View, books: seq<Held>, r: Request) {
    Grows(books, r) && !Fails(v.state, r.size) && RoomIn(v.state, r.size) < Size(books[r.n])
  }

  /** What the next request finds, if this one is served. */
  ghost function Next(v: View, books: seq<Held>, r: Request): View {
    match r
    case MallocOf(size, _) =>
      if size == 0 || Fails(v.state, size) then v else v.(state := AfterMalloc(v.state, size))
    case FreeOf(n) =>
      if n < |books| then v.(state := AfterFree(v.state, Before(books[n].p))) else v
    case WriteOf(_, _, _) => v
    case ReallocOf(n, size, _) =>
      if !Grows(books, r) || Fails(v.state, size) then v
      else v.(state := AfterFree(AfterMalloc(v.state, size), Before(books[n].p)))
  }

  /** The locked calls that a request makes. */
  ghost function CallsOf(v: View, books: seq<Held>, r: Request): seq<Call> {
    match r
    case MallocOf(size, _) => if size == 0 || Wraps(size) then [] else [Bucket(Needs(v.state, size))]
    case FreeOf(n) => if n < |books| then [Bucket(Size(books[n]) > MAX_SMALL)] else []
    case WriteOf(_, _, _) => []
    case ReallocOf(n, size, _) =>
      if !Grows(books, r) || Wraps(size) then []
      else if Fails(v.state, size) || Spills(v, books, r) then [Bucket(Needs(v.state, size))]
      else [Bucket(Needs(v.state, size)), Bucket(Size(books[n]) > MAX_SMALL)]
  }

  /** What a stop leaves. */
  ghost function Stopped(v: View, books: seq<Held>, r: Request): View {
    if Spills(v, books, r) then v.(state := AfterMalloc(v.state, r.size)) else v
  }

  /**
   * The clients' books after a request. Requests about pointers nobody holds change nothing. A realloc that needs a new
   * block keeps as many bytes as the old header records: none of a tail.
   */
  ghost predicate Booked(v: View, books: seq<Held>, r: Request, books': seq<Held>) {
    match r
    case MallocOf(size, _) =>
      if size == 0 || Fails(v.state, size) then books' == books
      else |books'| == |books| + 1 && books' == books + [books'[|books|]] && NewBlock(v, size, books'[|books|])
    case FreeOf(n) =>
      books' == if n < |books| then books[..n] + books[n + 1..] else books
    case WriteOf(n, at, value) =>
      books' == if n < |books| && at < |books[n].bytes| then books[n := Poked(books[n], at, value)] else books
    case ReallocOf(n, size, _) =>
      if n >= |books| then books' == books
      else if Size(books[n]) >= size then books' == books[n := books[n].(asked := size)]
      else if Fails(v.state, size) then books' == books
      else |books'| == |books| && books' == books[n := books'[n]] && NewBlock(v, size, books'[n])
           && books[n].bytes[..Size(books[n])] <= books'[n].bytes
  }

  /** A new block for a request of this size. */
  ghost predicate NewBlock(v: View, size: u64, e: Held) {
    && e.asked == size && e.tail == TailIn(v.state, size) && |e.bytes| == RoomIn(v.state, size)
    && e.p == PlaceOf(v.state, size) + HEADER_SIZE
  }

  function Poked(e: Held, at: nat, value: u8): Held
    requires at < |e.bytes|
  {
    e.(bytes := e.bytes[at := value])
  }

  /** The headers in front of pointers. */
  function Headers(live: seq<nat>): (s: seq<nat>)
    ensures |s| == |live| && forall i {:trigger s[i]} :: 0 <= i < |s| ==> s[i] == Before(live[i])
  {
    seq(|live|, i requires 0 <= i < |live| => Before(live[i]))
  }

  function Before(p: nat): nat {
    if p >= HEADER_SIZE then p - HEADER_SIZE else 0
  }

  /** The used list holds exactly the blocks of these pointers, each once. */
  ghost predicate Holds(used: seq<nat>, live: seq<nat>) {
    (forall i :: 0 <= i < |live| ==> live[i] >= HEADER_SIZE) && multiset(used) == multiset(Headers(live))
  }

  lemma HoldsLive(used: seq<nat>, live: seq<nat>, n: nat)
    requires Holds(used, live) && n < |live|
    ensures live[n] >= HEADER_SIZE && live[n] - HEADER_SIZE in used
    ensures forall b :: b in Members(Headers(live)) <==> b in used
  {
    SameMembers(used, live);
    assert Headers(live)[n] in multiset(Headers(live));
  }

  lemma SameMembers(used: seq<nat>, live: seq<nat>)
    requires Holds(used, live)
    ensures Members(Headers(live)) == Members(used)
  {
    forall b ensures b in Headers(live) <==> b in used {
      assert b in Headers(live) <==> b in multiset(Headers(live));
      assert b in used <==> b in multiset(used);
    }
  }

  lemma LeavesBag(l: seq<nat>, l': seq<nat>, b: nat)
    requires Leaves(l, l', b)
    ensures multiset(l') == multiset(l) - multiset{b} && b in l
  {
    var i :| 0 <= i < |l| && l[i] == b && l' == Without(l, i);
    assert l == l[..i] + [l[i]] + l[i + 1..];
  }

  lemma HandedHolds(used: seq<nat>, live: seq<nat>, p: nat)
    requires Holds(used, live) && p > HEADER_SIZE
    ensures Holds([p - HEADER_SIZE] + used, live + [p])
  {
    assert Headers(live + [p]) == Headers(live) + [p - HEADER_SIZE];
  }

  lemma FreedHolds(used: seq<nat>, used': seq<nat>, live: seq<nat>, n: nat)
    requires Holds(used, live) && n < |live| && Leaves(used, used', Before(live[n]))
    ensures Holds(used', Without(live, n))
  {
    var h := Headers(live);
    LeavesBag(used, used', h[n]);
    assert h == h[..n] + [h[n]] + h[n + 1..];
    assert Headers(Without(live, n)) == h[..n] + h[n + 1..];
  }

  lemma SwapBag(h: seq<nat>, n: nat, x: nat)
    requires n < |h|
    ensures multiset(h[n := x]) == multiset(h) - multiset{h[n]} + multiset{x}
  {
    assert h == h[..n] + [h[n]] + h[n + 1..];
    assert h[n := x] == h[..n] + [x] + h[n + 1..];
  }

  lemma MovedHolds(used: seq<nat>, used': seq<nat>, live: seq<nat>, n: nat, q: nat)
    requires Holds(used, live) && n < |live| && q > HEADER_SIZE
    requires Leaves([q - HEADER_SIZE] + used, used', Before(live[n]))
    ensures Holds(used', live[n := q])
  {
    hide Leaves;
    var h, x := Headers(live), q - HEADER_SIZE;
    assert Headers(live[n := q]) == h[n := x];
    assert h[n] in multiset(h);
    calc {
      multiset(used');
      { LeavesBag([x] + used, used', h[n]); }
      multiset([x] + used) - multiset{h[n]};
      { ConsBag(x, used); }
      multiset{x} + multiset(h) - multiset{h[n]};
      { TradeBag(multiset(h), h[n], x); }
      multiset(h) - multiset{h[n]} + multiset{x};
      { SwapBag(h, n, x); }
      multiset(h[n := x]);
    }
  }

  lemma ConsBag(x: nat, l: seq<nat>)
    ensures multiset([x] + l) == multiset{x} + multiset(l)
  {
  }

  lemma TradeBag(m: multiset<nat>, was: nat, x: nat)
    requires was in m
    ensures m - multiset{was} + multiset{x} == multiset{x} + m - multiset{was}
  {
  }

  /** No two held pointers are to the same block. */
  lemma DistinctHeaders(used: seq<nat>, live: seq<nat>, i: nat, j: nat)
    requires Holds(used, live) && i < j < |live| && forall i, j :: 0 <= i < j < |used| ==> used[i] != used[j]
    ensures Before(live[i]) != Before(live[j])
  {
    var h := Headers(live);
    if h[i] == h[j] {
      CountTwice(h, i, j);
      CountOnce(used, h[i]);
      assert false;
    }
  }

  lemma CountTwice(l: seq<nat>, i: nat, j: nat)
    requires i < j < |l| && l[i] == l[j]
    ensures multiset(l)[l[i]] >= 2
  {
    assert l == l[..j] + [l[j]] + l[j + 1..] && l[..j][i] == l[i];
  }

  lemma CountOnce(l: seq<nat>, x: nat)
    requires forall i, j :: 0 <= i < j < |l| ==> l[i] != l[j]
    ensures multiset(l)[x] <= 1
  {
    if x in l {
      var k :| 0 <= k < |l| && l[k] == x;
      assert x !in l[..k] && x !in l[k + 1..];
      assert l == l[..k] + [x] + l[k + 1..];
      assert multiset(l) == multiset(l[..k]) + multiset([x]) + multiset(l[k + 1..]);
    }
  }

  lemma FaithfulMore(books: seq<Held>, e: Held, m: Mem, h: Heap, base: nat)
    requires Faithful(books, m, h, base) && TrueTo(e, m, h, base) && Covered(e)
    ensures Faithful(books + [e], m, h, base)
  {
    hide TrueTo, Covered;
  }

  lemma StillFaithful(books: seq<Held>, s: set<nat>, m: Mem, h: Heap, m': Mem, h': Heap, base: nat)
    requires Faithful(books, m, h, base) && Untouched(s, m, h, m', h', base)
    requires forall n :: 0 <= n < |books| ==> Before(books[n].p) in s
    ensures Faithful(books, m', h', base)
  {
    hide Payload, Untouched, Covered;
    forall n | 0 <= n < |books| ensures TrueTo(books[n], m', h', base) {
      UntouchedAt(s, m, h, m', h', base, Before(books[n].p));
    }
  }

  lemma Reasked(books: seq<Held>, n: nat, size: nat, m: Mem, h: Heap, base: nat)
    requires Faithful(books, m, h, base) && n < |books| && Size(books[n]) >= size
    ensures Faithful(books[n := books[n].(asked := size)], m, h, base)
  {
  }

  lemma EntryTrue(books: seq<Held>, n: nat, m: Mem, h: Heap, base: nat)
    requires Faithful(books, m, h, base) && n < |books|
    ensures TrueTo(books[n], m, h, base) && Covered(books[n])
  {
  }

  /** One entry changes, and its block may; the others' blocks do not. */
  lemma OthersFaithful(books: seq<Held>, n: nat, e: Held, s: set<nat>, m: Mem, h: Heap, m': Mem, h': Heap, base: nat)
    requires Faithful(books, m, h, base) && Untouched(s, m, h, m', h', base) && n < |books|
    requires forall i :: 0 <= i < |books| && i != n ==> Before(books[i].p) in s
    requires TrueTo(e, m', h', base) && Covered(e)
    ensures Faithful(books[n := e], m', h', base)
  {
    hide Payload, Untouched, Covered;
    forall i | 0 <= i < |books| && i != n ensures TrueTo(books[i], m', h', base) {
      UntouchedAt(s, m, h, m', h', base, Before(books[i].p));
    }
  }

  /** What the clients' books say is so. */
  ghost predicate Kept(a: BucketAllocator, books: seq<Held>)
    reads a, a.pages, a.pages.counts
  {
    && a.Valid() && Holds(a.Used(), Pointers(books)) && Faithful(books, a.pages.mem, a.hdr, a.Base())
  }

  lemma HeldBlocks(a: BucketAllocator, books: seq<Held>)
    requires Kept(a, books)
    ensures forall n :: 0 <= n < |books| ==>
      && books[n].p >= HEADER_SIZE && Before(books[n].p) in a.Used() && Before(books[n].p) in a.LiveSet()
      && a.Live(books[n].p)
    ensures forall i, j :: 0 <= i < |books| && 0 <= j < |books| && i != j ==> Before(books[i].p) != Before(books[j].p)
    ensures a.LiveSet() <= a.hdr.Keys
  {
    hide BlockHeap.Sound, Faithful;
    a.LiveInHeap();
    a.UsedDistinct();
    a.UsedShape();
    forall n | 0 <= n < |books|
      ensures books[n].p >= HEADER_SIZE && Before(books[n].p) in a.Used()
    {
      HoldsLive(a.Used(), Pointers(books), n);
    }
    forall i, j | 0 <= i < |books| && 0 <= j < |books| && i != j ensures Before(books[i].p) != Before(books[j].p) {
      DistinctHeaders(a.Used(), Pointers(books), if i < j then i else j, if i < j then j else i);
    }
  }

  method ServeMalloc(a: BucketAllocator, books: seq<Held>, r: Request)
    returns (books': seq<Held>, stop: bool, ghost calls: seq<Call>)
    requires Kept(a, books) && r.MallocOf?
    modifies a`hdr, a`heads, a`lists, a`owner, a`mutating
    modifies a.pages`mem, a.pages`mutatingHeap, a.pages`log, a.pages.counts
    ensures a.Valid() && a.pages.log == Logged(old(a.pages.log), calls) && calls == CallsOf(old(ViewOf(a)), books, r)
    ensures stop <==> Stops(old(ViewOf(a)), books, r)
    ensures !stop ==> Kept(a, books') && Booked(old(ViewOf(a)), books, r, books')
    ensures ViewOf(a) == if stop then Stopped(old(ViewOf(a)), books, r) else Next(old(ViewOf(a)), books, r)
    ensures stop ==> books' == books && (!Spills(old(ViewOf(a)), books, r) ==> Kept(a, books))
    ensures Minds(old(a.hdr), old(a.Here()), old(a.pages.mem), a.hdr, a.pages.counts[..], a.pages.mem)
  {
    hide BlockHeap.Sound, HeldKept, Payload, KeptBut, Holds, Pages.NoFit, TakenAt, Untouched, AllocatorCall, Minds,
      Served, PageCount, Faithful, ClassSize, ClassOf, AfterMalloc, BlocksOf, PlaceOf, Fails, TailIn, RoomIn;
    books', stop, calls := books, false, [];
    ghost var v, needs := ViewOf(a), a.NeedsPages(r.size);
    HeldBlocks(a, books);
    a.AsSeen(r.size);
    var tail := a.TailFirst(r.size);
    var p, oom, over := a.Alloc(r.size, r.origin);
    if r.size != 0 && !Wraps(r.size) {
      calls := [Bucket(needs)];
    }
    OneLogged(old(a.pages.log), Bucket(needs));
    stop := oom || (over && r.size != 0);
    StillFaithful(books, old(a.LiveSet()), old(a.pages.mem), old(a.hdr), a.pages.mem, a.hdr, a.Base());
    if p != 0 {
      HandedHolds(old(a.Used()), Pointers(books), p);
      a.ContentsSize(p - HEADER_SIZE);
      var e := Held(p, r.size, tail, a.Contents(p - HEADER_SIZE));
      FaithfulMore(books, e, a.pages.mem, a.hdr, a.Base());
      books' := books + [e];
      assert Pointers(books') == Pointers(books) + [p];
    }
  }

  lemma OneLogged(t: Trace, c: Call)
    ensures Logged(t, [c]) == LogOf(t, c) && Logged(t, []) == t
  {
    assert [c][1..] == [];
  }

  lemma TwoLogged(t: Trace, c: Call, d: Call)
    ensures Logged(t, [c, d]) == LogOf(LogOf(t, c), d)
  {
    assert [c, d][1..] == [d];
    OneLogged(LogOf(t, c), d);
  }

  method ServeFree(a: BucketAllocator, books: seq<Held>, r: Request) returns (books': seq<Held>, ghost calls: seq<Call>)
    requires Kept(a, books) && r.FreeOf? && r.n < |books|
    modifies a`hdr, a`heads, a`lists, a`owner, a`mutating
    modifies a.pages`mutatingHeap, a.pages`log, a.pages.counts
    ensures a.pages.log == Logged(old(a.pages.log), calls) && calls == CallsOf(old(ViewOf(a)), books, r)
    ensures Kept(a, books') && Booked(old(ViewOf(a)), books, r, books') && ViewOf(a) == Next(old(ViewOf(a)), books, r)
    ensures Minds(old(a.hdr), old(a.Here()), old(a.pages.mem), a.hdr, a.pages.counts[..], a.pages.mem)
  {
    hide BlockHeap.Sound, HeldKept, Payload, KeptBut, DroppedAt, Fronted, Leaves, Untouched, AllocatorCall, Without,
      OthersKept, Holds, AfterFree, BlocksOf;
    HeldBlocks(a, books);
    EntryTrue(books, r.n, a.pages.mem, a.hdr, a.Base());
    var b := books[r.n].p - HEADER_SIZE;
    calls := [Bucket(SizeOf(a.hdr, b) > MAX_SMALL)];
    OneLogged(a.pages.log, calls[0]);
    a.Free(books[r.n].p);
    books' := books[..r.n] + books[r.n + 1..];
    SameOnFree(old(a.hdr), a.hdr, old(a.Here()));
    FreedHolds(old(a.Used()), a.Used(), Pointers(books), r.n);
    PointersWithout(books, r.n);
    BucketAllocator.FreedContents(old(a.hdr), a.hdr, a.pages.mem, b, a.Base());
    FaithfulWithout(books, r.n, a.pages.mem, old(a.hdr), a.Base());
    StillFaithful(books', old(a.hdr).Keys - {b}, old(a.pages.mem), old(a.hdr), a.pages.mem, a.hdr, a.Base());
  }

  lemma PointersWithout(books: seq<Held>, n: nat)
    requires n < |books|
    ensures Pointers(books[..n] + books[n + 1..]) == Without(Pointers(books), n)
  {
  }

  lemma FaithfulWithout(books: seq<Held>, n: nat, m: Mem, h: Heap, base: nat)
    requires Faithful(books, m, h, base) && n < |books|
    ensures Faithful(books[..n] + books[n + 1..], m, h, base)
  {
    hide TrueTo, Covered;
  }

  /** A client writes a byte of a block through its pointer. */
  method ServeWrite(a: BucketAllocator, books: seq<Held>, r: Request) returns (books': seq<Held>)
    requires Kept(a, books) && r.WriteOf? && r.n < |books| && r.at < |books[r.n].bytes|
    modifies a.pages`mem
    ensures Kept(a, books') && books' == books[r.n := Poked(books[r.n], r.at, r.value)] && ViewOf(a) == old(ViewOf(a))
    ensures Minds(old(a.hdr), old(a.Here()), old(a.pages.mem), a.hdr, a.pages.counts[..], a.pages.mem)
  {
    hide BlockHeap.Sound, Payload, Untouched, Holds, OthersKept, ByteOf, PutByte, Present, Pages.HeldIn, BlocksOf;
    HeldBlocks(a, books);
    a.AllPresent();
    var b := books[r.n].p - HEADER_SIZE;
    ghost var m, g := a.pages.mem, a.Here();
    ByteHeld(a.hdr, a.owner, a.heads, a.lists, g, m, b, r.at);
    var q := b + HEADER_SIZE - a.Base() + r.at;
    a.pages.mem := PutByte(a.pages.mem, q, r.value);
    PokeEffect(a.hdr, a.owner, a.heads, a.lists, g, m, a.pages.mem, b, r.at, r.value);
    SameOnFree(a.hdr, a.hdr, g);
    var e := Poked(books[r.n], r.at, r.value);
    books' := books[r.n := e];
    assert Pointers(books') == Pointers(books);
    OthersFaithful(books, r.n, e, a.hdr.Keys - {b}, m, a.hdr, a.pages.mem, a.hdr, a.Base());
  }

  /** One byte of a block's contents changes, and nothing else. */
  lemma PokeEffect(hdr: Heap, owner: map<nat, nat>, heads: seq<nat>, lists: seq<seq<nat>>, g: Ground, m: Mem, m': Mem,
                   b: nat, at: nat, v: u8)
    requires BlockHeap.Sound(hdr, owner, heads, lists, g) && Present(g, m) && b in hdr && at < hdr[b].room
    requires Put(m, m', b + HEADER_SIZE - g.base + at, v)
    ensures Payload(m', hdr, g.base, b) == SetAt(Payload(m, hdr, g.base, b), at, v)
    ensures Untouched(hdr.Keys - {b}, m, hdr, m', hdr, g.base)
    ensures OthersKept(hdr, g, m, g.rc, m')
  {
    hide Lists, Apart, BlockPlaced, Placed, Extent, SizeOk, ByteOf, PutByte, OthersKept;
    ListsShape(hdr, owner, heads, lists);
    SizeKnown(hdr, owner, b);
    ExtentHeader(hdr[b].size, hdr[b].room);
    PlaceKnown(hdr, g.rc, g.bottom, g.base, b);
    WrittenOthers(hdr, g, m, m', b);
    forall a | a in hdr && a != b ensures Payload(m', hdr, g.base, a) == Payload(m, hdr, g.base, a) {
      PayloadsApart(hdr, owner, heads, lists, g, a, b);
    }
  }

  lemma RelocatedLists(h: Heap, h': Heap, used: seq<nat>, used': seq<nat>, m: Mem, m': Mem, base: nat, p: nat, q: nat, room: nat)
    requires Relocated(h, h', used, used', m, m', base, p, q, room)
    ensures q > HEADER_SIZE && q - HEADER_SIZE !in used && Leaves([q - HEADER_SIZE] + used, used', p - HEADER_SIZE)
  {
    hide Payload, Leaves;
  }

  lemma ReallocCalls(v: View, books: seq<Held>, r: Request, q: nat, spill: bool)
    requires r.ReallocOf? && r.n < |books|
    requires Grows(books, r) ==> (q == 0 <==> Fails(v.state, r.size)) && (spill <==> Spills(v, books, r))
    ensures CallsOf(v, books, r) ==
      if !Grows(books, r) || Wraps(r.size) then []
      else if q == 0 || spill then [Bucket(Needs(v.state, r.size))]
      else [Bucket(Needs(v.state, r.size)), Bucket(Size(books[r.n]) > MAX_SMALL)]
  {
    hide Fails, Wraps, Needs;
  }

  lemma ReallocStops(v: View, books: seq<Held>, r: Request, q: nat, oom: bool, over: bool, spill: bool)
    requires r.ReallocOf? && r.n < |books|
    requires over <==> Grows(books, r) && Over(v.state, r.size)
    requires q == 0 <==> Grows(books, r) && Fails(v.state, r.size)
    requires (oom <==> q == 0 && !over && v.on) && (spill <==> Spills(v, books, r))
    ensures Stops(v, books, r) <==> oom || over || spill
    ensures !Stops(v, books, r) && q == 0 ==> Booked(v, books, r, books) && Next(v, books, r) == v
    ensures !Grows(books, r) ==> Booked(v, books, r, books[r.n := books[r.n].(asked := r.size)]) && Next(v, books, r) == v
  {
    hide AfterMalloc, AfterFree, Over, RoomIn;
  }

  /** A realloc that got a new block is booked. */
  lemma ReallocBooked(v: View, books: seq<Held>, r: Request, e: Held)
    requires Grows(books, r) && !Fails(v.state, r.size) && NewBlock(v, r.size, e) && books[r.n].bytes[..Size(books[r.n])] <= e.bytes
    ensures Booked(v, books, r, books[r.n := e])
  {
    hide Fails, NewBlock;
  }

  method ServeRealloc(a: BucketAllocator, books: seq<Held>, r: Request)
    returns (books': seq<Held>, stop: bool, ghost calls: seq<Call>)
    requires Kept(a, books) && r.ReallocOf? && r.n < |books|
    modifies a`hdr, a`heads, a`lists, a`owner, a`mutating
    modifies a.pages`mem, a.pages`mutatingHeap, a.pages`log, a.pages.counts
    ensures a.Valid() && a.pages.log == Logged(old(a.pages.log), calls) && calls == CallsOf(old(ViewOf(a)), books, r)
    ensures stop <==> Stops(old(ViewOf(a)), books, r)
    ensures !stop ==> Kept(a, books') && Booked(old(ViewOf(a)), books, r, books')
    ensures ViewOf(a) == if stop then Stopped(old(ViewOf(a)), books, r) else Next(old(ViewOf(a)), books, r)
    ensures stop ==> books' == books && (!Spills(old(ViewOf(a)), books, r) ==> Kept(a, books))
    ensures Minds(old(a.hdr), old(a.Here()), old(a.pages.mem), a.hdr, a.pages.counts[..], a.pages.mem)
  {
    hide BlockHeap.Sound, HeldKept, Payload, KeptBut, Leaves, Relocated, Untouched, AllocatorCall, Pages.NoFit,
      Without, Minds, Holds, PageCount, Faithful, ClassSize, ClassOf, AfterMalloc, AfterFree, BlocksOf, PlaceOf, Fails,
      TailIn, RoomIn, Over, CallsOf, Stops, Booked;
    books', stop, calls := books, false, [];
    var e := books[r.n];
    var p := e.p;
    HeldBlocks(a, books);
    EntryTrue(books, r.n, a.pages.mem, a.hdr, a.Base());
    a.AsSeen(r.size);
    ghost var needs, was := a.NeedsPages(r.size), SizeOf(a.hdr, p - HEADER_SIZE);
    var tail := a.TailFirst(r.size);
    OneLogged(a.pages.log, Bucket(needs));
    TwoLogged(a.pages.log, Bucket(needs), Bucket(was > MAX_SMALL));
    var q, oom, over, spill := a.Realloc(p, r.size, r.origin);
    if was < r.size && !Wraps(r.size) {
      calls := if q == 0 || spill then [Bucket(needs)] else [Bucket(needs), Bucket(was > MAX_SMALL)];
    }
    ReallocCalls(old(ViewOf(a)), books, r, q, spill);
    ReallocStops(old(ViewOf(a)), books, r, q, oom, over, spill);
    stop := oom || over || spill;
    if spill {
      return;
    }
    if q == 0 || q == p {
      StillFaithful(books, old(a.LiveSet()), old(a.pages.mem), old(a.hdr), a.pages.mem, a.hdr, a.Base());
      if q == p {
        Reasked(books, r.n, r.size, a.pages.mem, a.hdr, a.Base());
        books' := books[r.n := e.(asked := r.size)];
        assert Pointers(books') == Pointers(books);
      }
    } else {
      RelocatedBytes(old(a.hdr), a.hdr, old(a.Used()), a.Used(), old(a.pages.mem), a.pages.mem, a.Base(), p, q, old(a.RoomFor(r.size)));
      RelocatedLists(old(a.hdr), a.hdr, old(a.Used()), a.Used(), old(a.pages.mem), a.pages.mem, a.Base(), p, q, old(a.RoomFor(r.size)));
      MovedHolds(old(a.Used()), a.Used(), Pointers(books), r.n, q);
      var e' := Held(q, r.size, tail, a.Contents(q - HEADER_SIZE));
      books' := books[r.n := e'];
      assert Pointers(books') == Pointers(books)[r.n := q];
      HoldsLive(a.Used(), Pointers(books'), r.n);
      a.LiveInHeap();
      a.ContentsSize(q - HEADER_SIZE);
      ReallocBooked(old(ViewOf(a)), books, r, e');
      OthersFaithful(books, r.n, e', old(a.LiveSet()) - {p - HEADER_SIZE}, old(a.pages.mem), old(a.hdr), a.pages.mem, a.hdr, a.Base());
    }
  }

  lemma RelocatedBytes(h: Heap, h': Heap, used: seq<nat>, used': seq<nat>, m: Mem, m': Mem, base: nat, p: nat, q: nat, room: nat)
    requires Relocated(h, h', used, used', m, m', base, p, q, room)
    ensures q > HEADER_SIZE && RoomOf(h', q - HEADER_SIZE) == room
    ensures Recorded(m, h, base, p - HEADER_SIZE) <= Payload(m', h', base, q - HEADER_SIZE)
  {
    hide Payload, Leaves;
  }

  /** One request, served or found to be one at which the code leaves its data structures. */
  method Serve(a: BucketAllocator, books: seq<Held>, r: Request)
    returns (books': seq<Held>, stop: bool, ghost calls: seq<Call>)
    requires Kept(a, books)
    modifies a`hdr, a`heads, a`lists, a`owner, a`mutating
    modifies a.pages`mem, a.pages`mutatingHeap, a.pages`log, a.pages.counts
    ensures a.Valid() && a.pages.log == Logged(old(a.pages.log), calls) && calls == CallsOf(old(ViewOf(a)), books, r)
    ensures stop <==> Stops(old(ViewOf(a)), books, r)
    ensures !stop ==> Kept(a, books') && Booked(old(ViewOf(a)), books, r, books')
    ensures ViewOf(a) == if stop then Stopped(old(ViewOf(a)), books, r) else Next(old(ViewOf(a)), books, r)
    ensures stop ==> books' == books && (!Spills(old(ViewOf(a)), books, r) ==> Kept(a, books))
    ensures Minds(old(a.hdr), old(a.Here()), old(a.pages.mem), a.hdr, a.pages.counts[..], a.pages.mem)
  {
    hide BlockHeap.Sound, Payload, Untouched, AllocatorCall, Holds, Faithful, NewOnFree, OthersKept, HeldKept,
      PlaceOf, Fails, AfterMalloc, AfterFree, BlocksOf, RoomIn, TailIn;
    HeldSame(a.pages.counts[..], a.pages.heapBottom, a.pages.mem);
    MindsNothing(a.hdr, a.Here(), a.pages.mem, a.pages.counts[..], a.pages.mem);
    if r.MallocOf? {
      books', stop, calls := ServeMalloc(a, books, r);
    } else if r.n >= |books| {
      // Nobody frees, resizes or writes what nobody holds.
      books', stop, calls := books, false, [];
    } else if r.FreeOf? {
      stop := false;
      books', calls := ServeFree(a, books, r);
    } else if r.ReallocOf? {
      books', stop, calls := ServeRealloc(a, books, r);
    } else if r.at < |books[r.n].bytes| {
      stop, calls := false, [];
      books' := ServeWrite(a, books, r);
    } else {
      // Clients write within what they asked for; only a short tail does not cover that.
      books', stop, calls := books, r.at < books[r.n].asked, [];
    }
  }

  /**
   * A run serves all requests up to the first at which the code leaves its data structures; what each request finds
   * follows from what the one before found. After it the used list holds exactly the pointers that the clients hold;
   * every block has the bytes that its holder last wrote or kept through realloc, and covers what was asked for unless
   * it was handed out as a tail. That is so after a stop, too, unless it was a copy past a tail. The lock operations
   * are those of the calls that the requests make.
   */
  method Run(a: BucketAllocator, books: seq<Held>, requests: seq<Request>)
    returns (books': seq<Held>, done: nat, stop: bool, ghost history: seq<seq<Held>>, ghost views: seq<View>)
    requires Kept(a, books)
    modifies a`hdr, a`heads, a`lists, a`owner, a`mutating
    modifies a.pages`mem, a.pages`mutatingHeap, a.pages`log, a.pages.counts
    ensures a.Valid() && done <= |requests|
    ensures Course(old(ViewOf(a)), books, requests, done, views, history) && history[done] == books'
    ensures stop <==> done < |requests|
    ensures stop ==> Stops(views[done], books', requests[done])
    ensures a.pages.log == Logged(old(a.pages.log), AllCalls(views, history, requests, if stop then done + 1 else done))
    ensures ViewOf(a) == if stop then Stopped(views[done], books', requests[done]) else views[done]
    ensures !stop || !Spills(views[done], books', requests[done]) ==> Kept(a, books')
  {
    hide BlockHeap.Sound, Payload, Kept, Booked, Stops, Spills, Stopped, Next, CallsOf, AllocatorCall, Minds, BlocksOf, ViewOf;
    books', done, stop, history, views := books, 0, false, [books], [ViewOf(a)];
    ghost var t, calls := a.pages.log, [];
    assert a.Valid() && a.pages.log == Logged(t, []) by {
      KeptValid(a, books);
    }
    while done < |requests|
      invariant 0 <= done <= |requests| && !stop && Kept(a, books') && a.Valid() && a.pages.log == Logged(t, calls)
      invariant Course(old(ViewOf(a)), books, requests, done, views, history)
      invariant history[done] == books' && views[done] == ViewOf(a) && calls == AllCalls(views, history, requests, done)
    {
      ghost var more;
      var served;
      served, stop, more := Serve(a, books', requests[done]);
      LoggedJoin(t, calls, more);
      calls := calls + more;
      if stop {
        return;
      }
      books' := served;
      AllCallsPrefix(views, history, requests, ViewOf(a), books', done + 1);
      history, views := history + [books'], views + [ViewOf(a)];
      done := done + 1;
    }
  }

  /** The locked calls of the first n requests. */
  ghost function AllCalls(views: seq<View>, history: seq<seq<Held>>, requests: seq<Request>, n: nat): seq<Call>
    requires n <= |views| && n <= |history| && n <= |requests|
  {
    if n == 0 then [] else AllCalls(views, history, requests, n - 1) + CallsOf(views[n - 1], history[n - 1], requests[n - 1])
  }

  lemma {:induction false} AllCallsPrefix(views: seq<View>, history: seq<seq<Held>>, requests: seq<Request>, v: View,
                                         books: seq<Held>, n: nat)
    requires n <= |views| && n <= |history| && n <= |requests|
    ensures AllCalls(views + [v], history + [books], requests, n) == AllCalls(views, history, requests, n)
  {
    hide CallsOf;
    if n > 0 {
      AllCallsPrefix(views, history, requests, v, books, n - 1);
    }
  }

  /**
   * The first n requests in order, from this view and these books: none of them stops, each view is the next of the one
   * before, and the books are those of the request.
   */
  ghost predicate Course(v: View, books: seq<Held>, requests: seq<Request>, n: nat, views: seq<View>, history: seq<seq<Held>>) {
    && n <= |requests| && |history| == |views| == n + 1 && views[0] == v && history[0] == books
    && forall t {:trigger views[t]} :: 0 <= t < n ==>
        && !Stops(views[t], history[t], requests[t]) && views[t + 1] == Next(views[t], history[t], requests[t])
        && Booked(views[t], history[t], requests[t], history[t + 1])
  }

  /** The same pointers, sizes and tails; what the blocks hold may differ. */
  ghost predicate Alike(books: seq<Held>, others: seq<Held>) {
    |books| == |others| && forall n {:trigger books[n]} {:trigger others[n]} :: 0 <= n < |books| ==>
      && books[n].p == others[n].p && books[n].asked == others[n].asked && books[n].tail == others[n].tail
      && |books[n].bytes| == |others[n].bytes|
  }

  /** A request's outcome depends on the view and on pointers and sizes only. */
  lemma AlikeStep(v: View, books: seq<Held>, others: seq<Held>, r: Request, books': seq<Held>, others': seq<Held>)
    requires Alike(books, others)
    ensures Stops(v, books, r) == Stops(v, others, r) && Next(v, books, r) == Next(v, others, r)
    ensures Booked(v, books, r, books') && Booked(v, others, r, others') ==> Alike(books', others')
  {
    hide Fails, Over, AfterMalloc, AfterFree, PlaceOf, TailIn, RoomIn;
  }

  /**
   * A run is determined: two courses of the same requests from the same start have the same views, and if both end as
   * Run ends, they serve equally many requests.
   */
  lemma CourseUnique(v: View, books: seq<Held>, requests: seq<Request>, n: nat, views: seq<View>,
    history: seq<seq<Held>>, n': nat, views': seq<View>, history': seq<seq<Held>>)
    requires Course(v, books, requests, n, views, history) && Course(v, books, requests, n', views', history')
    requires n < |requests| ==> Stops(views[n], history[n], requests[n])
    requires n' < |requests| ==> Stops(views'[n'], history'[n'], requests[n'])
    ensures n == n' && views == views' && forall t :: 0 <= t <= n ==> Alike(history[t], history'[t])
  {
    hide Stops, Booked, Next, Alike;
    var m := if n < n' then n else n';
    assert Alike(books, books) by {
      AlikeSelf(books);
    }
    for t := 0 to m
      invariant forall u :: 0 <= u <= t ==> views[u] == views'[u] && Alike(history[u], history'[u])
    {
      assert Booked(views[t], history[t], requests[t], history[t + 1]);
      assert Booked(views'[t], history'[t], requests[t], history'[t + 1]);
      AlikeStep(views[t], history[t], history'[t], requests[t], history[t + 1], history'[t + 1]);
    }
    if m < |requests| {
      AlikeStep(views[m], history[m], history'[m], requests[m], [], []);
    }
  }

  lemma AlikeSelf(books: seq<Held>)
    ensures Alike(books, books)
  {
  }

  lemma KeptValid(a: BucketAllocator, books: seq<Held>)
    requires Kept(a, books)
    ensures a.Valid()
  {
  }

  lemma {:induction false} LoggedJoin(t: Trace, c: seq<Call>, d: seq<Call>)
    ensures Logged(Logged(t, c), d) == Logged(t, c + d)
    decreases |c|
  {
    if c == [] {
      assert c + d == d;
    } else {
      assert (c + d)[1..] == c[1..] + d;
      LoggedJoin(LogOf(t, c[0]), c[1..], d);
    }
  }
}
