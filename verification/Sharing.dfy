/**
 * The heap (kernel/src/memory.c) and the page tables (kernel/src/mmu.c) on one page allocator: whatever the order of
 * their operations, neither takes, writes or gives up what the other holds.
 */
module Sharing {
  import opened Ram
  import opened Pages
  import opened PageTable
  import opened Mapping
  import opened Standard
  import opened Views
  import opened Mmu
  import opened FreeLists
  import opened Blocks
  import opened BlockHeap
  import opened Payloads
  import opened Outcomes
  import opened Neighbours
  import opened Snapshots
  import opened Malloc
  import Requests
  import Spaces

  datatype Op = HeapOp(request: Requests.Request) | TableOp(op: Spaces.Op)

  predicate Fair(op: Op) {
    op.TableOp? ==> Spaces.Proper(op.op)
  }

  /** No block shares a byte with a page table. */
  ghost predicate Separate(h: Heap, base: nat, sh: Shape) {
    forall t {:trigger NoBlockIn(h, base + t)} {:trigger t in sh} :: t in sh ==> NoBlockIn(h, base + t)
  }

  /** What the heap minds includes the page tables: they stay as they are, and no block comes to lie on one. */
  lemma HeapSpares(h: Heap, g: Ground, m: Mem, h': Heap, rc': seq<nat>, m': Mem, sh: Shape)
    requires Tree(m, sh) && TablesHeld(g.rc, g.bottom, sh) && Separate(h, g.base, sh) && Minds(h, g, m, h', rc', m')
    ensures forall t :: t in sh ==> t in m' && m'[t] == m[t]
    ensures Tree(m', sh) && SameWalks(m, m', sh) && TablesHeld(rc', g.bottom, sh) && Separate(h', g.base, sh)
    ensures SameMissing(m, m', sh)
    ensures AllStandard(m, sh) ==> AllStandard(m', sh)
  {
    hide NoBlockIn, NewOnFree, AllStandard;
    forall t | t in sh ensures t in m' && m'[t] == m[t] && HeldIn(rc', g.bottom, t) && NoBlockIn(h', g.base + t) {
      assert HeldIn(g.rc, g.bottom, t);
      var k := (t - g.bottom) / PAGE_SIZE;
      assert g.rc[k] > 0 && PageSeen(g, k) == g.base + t;
      assert Foreign(h, g, k);
      StillForeign(h, h', g, k);
    }
    OutsideTables(m, m', sh);
    OutsideMissing(m, m', sh);
    if AllStandard(m, sh) {
      SameFits(m, m', sh);
    }
  }

  lemma BytePage(hdr: Heap, owner: map<nat, nat>, heads: seq<nat>, lists: seq<seq<nat>>, g: Ground, m: Mem, b: nat, x: nat)
    requires Sound(hdr, owner, heads, lists, g) && Present(g, m) && b in hdr && b <= x < b + Extent(hdr[b].size, hdr[b].room)
    ensures InHeldPage(g, m, x)
  {
    hide Lists, SizesOk, Apart, Extent, InHeld, BlockPlaced;
    PlaceKnown(hdr, g.rc, g.bottom, g.base, b);
    PlacedByte(g, b, hdr[b].size, hdr[b].room, x);
    PageStart(g.bottom, x - g.base);
  }

  /** New tables come from pages that nobody held, so they miss every block. */
  lemma StillSeparate(hdr: Heap, owner: map<nat, nat>, heads: seq<nat>, lists: seq<seq<nat>>, g: Ground, m: Mem, sh: Shape,
                      rc': seq<nat>, m': Mem, sh': Shape)
    requires Sound(hdr, owner, heads, lists, g) && Present(g, m) && Separate(hdr, g.base, sh) && Tree(m', sh')
    requires Grows(g.bottom, g.rc, m, sh, rc', m', sh')
    ensures Separate(hdr, g.base, sh')
  {
    hide Sound, Present, HeldIn, Extent;
    forall t | t in sh' ensures NoBlockIn(hdr, g.base + t) {
      if t !in sh {
        forall b | b in hdr ensures Misses(b, hdr[b].size, hdr[b].room, g.base + t) {
          if !Misses(b, hdr[b].size, hdr[b].room, g.base + t) {
            BlockExtent(hdr, owner, heads, lists, g, b);
            var x := if b <= g.base + t then g.base + t else b;
            BytePage(hdr, owner, heads, lists, g, m, b, x);
            assert false;
          }
        }
      }
    }
  }

  /** What page-table operations do leaves the heap in order and every block's contents alone. */
  lemma TablesSpare(hdr: Heap, owner: map<nat, nat>, heads: seq<nat>, lists: seq<seq<nat>>, g: Ground, m: Mem, sh: Shape,
                    rc': seq<nat>, m': Mem, sh': Shape)
    requires Sound(hdr, owner, heads, lists, g) && Present(g, m) && Separate(hdr, g.base, sh)
    requires Grows(g.bottom, g.rc, m, sh, rc', m', sh')
    ensures Sound(hdr, owner, heads, lists, g.(rc := rc'))
    ensures Payloads.Untouched(hdr.Keys, m, hdr, m', hdr, g.base)
  {
    hide Lists, SizesOk, Apart, Placed, ByteOf;
    PlacedKept(hdr, g.rc, rc', g.bottom, g.base);
    forall b | b in hdr ensures Payload(m', hdr, g.base, b) == Payload(m, hdr, g.base, b) {
      SamePayload(hdr, owner, heads, lists, g, m, sh, rc', m', sh', b);
    }
  }

  lemma SamePayload(hdr: Heap, owner: map<nat, nat>, heads: seq<nat>, lists: seq<seq<nat>>, g: Ground, m: Mem, sh: Shape,
                    rc': seq<nat>, m': Mem, sh': Shape, b: nat)
    requires Sound(hdr, owner, heads, lists, g) && Present(g, m) && Separate(hdr, g.base, sh) && b in hdr
    requires Grows(g.bottom, g.rc, m, sh, rc', m', sh')
    ensures Payload(m', hdr, g.base, b) == Payload(m, hdr, g.base, b)
  {
    hide Sound, Present, HeldIn, Extent, NoBlockIn;
    BlockExtent(hdr, owner, heads, lists, g, b);
    var p, p' := Payload(m, hdr, g.base, b), Payload(m', hdr, g.base, b);
    forall j | 0 <= j < |p| ensures p'[j] == p[j] {
      var x := b + HEADER_SIZE + j;
      var t := (x - g.base) - (x - g.base) % 4096;
      BytePage(hdr, owner, heads, lists, g, m, b, x);
      if t in sh {
        BlockMisses(hdr, b, g.base + t);
        assert false;
      }
      assert ByteOf(m', x - g.base) == ByteOf(m, x - g.base);
    }
  }

  lemma BlockMisses(hdr: Heap, b: nat, x: nat)
    requires NoBlockIn(hdr, x) && b in hdr
    ensures Misses(b, hdr[b].size, hdr[b].room, x)
  {
  }

  lemma BlockExtent(hdr: Heap, owner: map<nat, nat>, heads: seq<nat>, lists: seq<seq<nat>>, g: Ground, b: nat)
    requires Sound(hdr, owner, heads, lists, g) && b in hdr
    ensures Extent(hdr[b].size, hdr[b].room) >= HEADER_SIZE + hdr[b].room && b >= g.base
  {
    hide Lists, Apart, Extent, SizeOk, BlockPlaced;
    ListsShape(hdr, owner, heads, lists);
    SizeKnown(hdr, owner, b);
    ExtentHeader(hdr[b].size, hdr[b].room);
    PlaceKnown(hdr, g.rc, g.bottom, g.base, b);
  }

  /** Heap and tables are in order on the same pages, and apart. */
  ghost predicate InOrder(a: BucketAllocator, mmu: MmuTables)
    reads a, mmu, a.pages, a.pages.counts, mmu.pages, mmu.pages.counts
  {
    && a.pages == mmu.pages && a.Valid() && mmu.Valid() && Separate(a.hdr, a.Base(), mmu.shape)
  }

  /** A kernel starts in order: no block, no table, no space. */
  method Boot(pages: PageAllocator) returns (a: BucketAllocator, mmu: MmuTables)
    requires pages.Valid()
    ensures fresh(a) && fresh(mmu) && a.pages == mmu.pages == pages
    ensures InOrder(a, mmu) && Requests.Kept(a, []) && Spaces.AreSpaces(mmu.shape, []) && AllStandard(pages.mem, mmu.shape)
    ensures Spaces.Describes(Spaces.Known(pages.heapBottom, pages.counts[..], []), mmu, [])
  {
    a := new BucketAllocator(pages);
    mmu := new MmuTables(pages);
    assert Requests.Headers(Requests.Pointers([])) == a.Used();
  }

  method StepHeap(a: BucketAllocator, mmu: MmuTables, books: seq<Requests.Held>, spaces: seq<nat>, r: Requests.Request)
    returns (books': seq<Requests.Held>, stop: bool)
    requires InOrder(a, mmu) && Requests.Kept(a, books) && Spaces.AreSpaces(mmu.shape, spaces)
    modifies a`hdr, a`heads, a`lists, a`owner, a`mutating
    modifies a.pages`mem, a.pages`mutatingHeap, a.pages`log, a.pages.counts
    ensures InOrder(a, mmu)
    ensures SameWalks(old(mmu.pages.mem), mmu.pages.mem, mmu.shape) && SameMissing(old(mmu.pages.mem), mmu.pages.mem, mmu.shape)
    ensures stop <==> Requests.Stops(old(Requests.ViewOf(a)), books, r)
    ensures Requests.ViewOf(a) ==
      if stop then Requests.Stopped(old(Requests.ViewOf(a)), books, r) else Requests.Next(old(Requests.ViewOf(a)), books, r)
    ensures !stop ==> Requests.Kept(a, books') && Requests.Booked(old(Requests.ViewOf(a)), books, r, books')
    ensures stop ==> books' == books && (!Requests.Spills(old(Requests.ViewOf(a)), books, r) ==> Requests.Kept(a, books))
    ensures AllStandard(old(mmu.pages.mem), mmu.shape) ==> AllStandard(mmu.pages.mem, mmu.shape)
  {
    hide Sound, Tree, TablesHeld, Separate, Minds, SameWalks, SameMissing, AllStandard, Requests.Booked, Requests.Kept,
      Requests.Stops, Requests.Stopped, Requests.Next, Requests.Spills, Requests.ViewOf;
    ghost var h, g, m := a.hdr, a.Here(), a.pages.mem;
    ghost var calls;
    books', stop, calls := Requests.Serve(a, books, r);
    HeapSpares(h, g, m, a.hdr, a.pages.counts[..], a.pages.mem, mmu.shape);
  }

  method StepTables(a: BucketAllocator, mmu: MmuTables, books: seq<Requests.Held>, spaces: seq<nat>, op: Spaces.Op, ghost k: Spaces.Known)
    returns (spaces': seq<nat>, stop: bool)
    requires InOrder(a, mmu) && Requests.Kept(a, books) && Spaces.Proper(op) && Spaces.AreSpaces(mmu.shape, spaces)
    requires Spaces.Describes(k, mmu, spaces)
    modifies mmu`shape, mmu.pages`mem, mmu.pages`mutatingHeap, mmu.pages`log, mmu.pages.counts
    ensures InOrder(a, mmu) && Requests.Kept(a, books) && spaces <= spaces' && Spaces.AreSpaces(mmu.shape, spaces')
    ensures stop <==> Spaces.Short(k, op)
    ensures stop ==> spaces' == spaces && SameWalks(old(mmu.pages.mem), mmu.pages.mem, old(mmu.shape))
    ensures !stop ==> Spaces.Describes(Spaces.Next(k, op), mmu, spaces') && spaces' == Spaces.RootsAfter(k, op, spaces)
    ensures Spaces.StepKeeps(old(mmu.pages.mem), mmu.pages.mem, spaces, op)
    ensures AllStandard(old(mmu.pages.mem), old(mmu.shape)) && Spaces.StandardOp(op) ==> AllStandard(mmu.pages.mem, mmu.shape)
  {
    hide Sound, Tree, TablesHeld, Separate, Grows, AllStandard, Payloads.Untouched, Spaces.StepKeeps, Requests.Holds,
      Requests.Faithful, Spaces.AreSpaces, Spaces.Proper, Spaces.StandardOp, Spaces.Describes, Spaces.Next,
      Spaces.Short, Spaces.RootsAfter, Spaces.Returned, SameWalks;
    ghost var g, m, sh := a.Here(), a.pages.mem, mmu.shape;
    a.AllPresent();
    Requests.HeldBlocks(a, books);
    var page;
    spaces', page, stop := Spaces.Step(mmu, spaces, op, k);
    TablesSpare(a.hdr, a.owner, a.heads, a.lists, g, m, sh, mmu.pages.counts[..], mmu.pages.mem, mmu.shape);
    StillSeparate(a.hdr, a.owner, a.heads, a.lists, g, m, sh, mmu.pages.counts[..], mmu.pages.mem, mmu.shape);
    Requests.StillFaithful(books, a.hdr.Keys, m, a.hdr, a.pages.mem, a.hdr, a.Base());
  }

  /** The operation aims at an address below root entry i of space k. */
  predicate Aims(op: Op, k: nat, i: nat) {
    op.TableOp? && Spaces.Aims(op.op, k, i)
  }

  predicate StandardOp(op: Op) {
    op.TableOp? ==> Spaces.StandardOp(op.op)
  }

  /** What an operation of a run finds: the heap and its pages, the clients' books, and the address spaces. */
  datatype Moment = Moment(view: Requests.View, books: seq<Requests.Held>, roots: seq<nat>, spaces: seq<Spaces.AddressSpace>)

  /** What of it the page-table operations depend on. */
  function TablesOf(t: Moment): Spaces.Known {
    Spaces.Known(t.view.state.ground.bottom, t.view.state.ground.rc, t.spaces)
  }

  ghost predicate Describes(t: Moment, a: BucketAllocator, mmu: MmuTables)
    reads a, a.pages, a.pages.counts, mmu, mmu.pages, mmu.pages.counts
  {
    t.view == Requests.ViewOf(a) && Spaces.Describes(TablesOf(t), mmu, t.roots)
  }

  /** The run ends there: the code leaves its data structures, or a page-table operation runs out of pages. */
  ghost predicate Halts(t: Moment, op: Op) {
    match op
    case HeapOp(r) => Requests.Stops(t.view, t.books, r)
    case TableOp(o) => Spaces.Short(TablesOf(t), o)
  }

  /** ... or copies past a tail: the one end that does not leave the clients' books true. */
  ghost predicate Spills(t: Moment, op: Op) {
    op.HeapOp? && Requests.Spills(t.view, t.books, op.request)
  }

  /** What the next operation finds, but for the books. Each side does what it does alone; they share the page counts. */
  ghost function Next(t: Moment, op: Op, books': seq<Requests.Held>): Moment {
    match op
    case HeapOp(r) => Moment(Requests.Next(t.view, t.books, r), books', t.roots, t.spaces)
    case TableOp(o) =>
      var k := Spaces.Next(TablesOf(t), o);
      var ground := t.view.state.ground.(rc := k.rc);
      Moment(t.view.(state := t.view.state.(ground := ground)), books', Spaces.RootsAfter(TablesOf(t), o, t.roots), k.spaces)
  }

  /** The books after an operation; what a new block holds is not determined. */
  ghost predicate Booked(t: Moment, op: Op, books': seq<Requests.Held>) {
    match op
    case HeapOp(r) => Requests.Booked(t.view, t.books, r, books')
    case TableOp(_) => books' == t.books
  }

  method Step(a: BucketAllocator, mmu: MmuTables, books: seq<Requests.Held>, spaces: seq<nat>, op: Op, ghost t: Moment)
    returns (books': seq<Requests.Held>, spaces': seq<nat>, stop: bool)
    requires InOrder(a, mmu) && Requests.Kept(a, books) && Spaces.AreSpaces(mmu.shape, spaces) && Fair(op)
    requires Describes(t, a, mmu) && t.books == books && t.roots == spaces
    modifies a`hdr, a`heads, a`lists, a`owner, a`mutating
    modifies mmu`shape, a.pages`mem, a.pages`mutatingHeap, a.pages`log, a.pages.counts
    ensures InOrder(a, mmu) && spaces <= spaces' && Spaces.AreSpaces(mmu.shape, spaces')
    ensures stop <==> Halts(t, op)
    ensures stop ==> spaces' == spaces && books' == books && SameWalks(old(mmu.pages.mem), mmu.pages.mem, old(mmu.shape))
    ensures !stop || !Spills(t, op) ==> Requests.Kept(a, books')
    ensures !stop ==> Booked(t, op, books') && Describes(Next(t, op, books'), a, mmu) && spaces' == Next(t, op, books').roots
    ensures forall k, i :: 0 <= k < |spaces| && !Aims(op, k, i) ==>
      Spaces.Kept(old(a.pages.mem), a.pages.mem, spaces[k], i)
    ensures AllStandard(old(a.pages.mem), old(mmu.shape)) && StandardOp(op) ==> AllStandard(a.pages.mem, mmu.shape)
  {
    hide AllStandard, Sound, Tree, TablesHeld, Separate, Requests.Kept, Requests.Booked, Requests.Stops, Requests.Next,
      Requests.Spills, Requests.Stopped, Spaces.StandardOp, Spaces.AllShow, Spaces.AllLack, Spaces.Next, Spaces.Short,
      Spaces.RootsAfter, SameMissing, BlocksOf;
    books', spaces' := books, spaces;
    ghost var m, sh := a.pages.mem, mmu.shape;
    match op
    case HeapOp(r) =>
      books', stop := StepHeap(a, mmu, books, spaces, r);
      Spaces.SameAll(m, a.pages.mem, sh, spaces, t.spaces);
      Spaces.SameLacks(m, a.pages.mem, sh, spaces, t.spaces);
    case TableOp(o) =>
      spaces', stop := StepTables(a, mmu, books, spaces, o, TablesOf(t));
  }

  /**
   * The first n operations in order, from this moment: none of them ends the run, and each moment is the next of the
   * one before with the books of the operation.
   */
  ghost predicate Course(start: Moment, ops: seq<Op>, n: nat, moments: seq<Moment>) {
    && n <= |ops| && |moments| == n + 1 && moments[0] == start
    && forall i {:trigger moments[i]} :: 0 <= i < n ==>
        && !Halts(moments[i], ops[i]) && Booked(moments[i], ops[i], moments[i + 1].books)
        && moments[i + 1] == Next(moments[i], ops[i], moments[i + 1].books)
  }

  /**
   * Any interleaving of heap and page-table operations on one page allocator goes on up to the first at which the code
   * leaves its data structures or runs out of pages; what each operation finds follows from what the one before found.
   * Heap and tables stay in order and apart. Every block holds
   * what its client last wrote, every space translates as its map after the page-table operations so far, every walk
   * below a root entry that no operation aimed at is as before, and tables that the hardware reads as mmu_translate
   * does stay so.
   */
  method Run(a: BucketAllocator, mmu: MmuTables, books: seq<Requests.Held>, spaces: seq<nat>, ops: seq<Op>, ghost start: Moment)
    returns (books': seq<Requests.Held>, spaces': seq<nat>, done: nat, ghost moments: seq<Moment>)
    requires InOrder(a, mmu) && Requests.Kept(a, books) && Spaces.AreSpaces(mmu.shape, spaces)
    requires Describes(start, a, mmu) && start.books == books && start.roots == spaces
    requires forall n :: 0 <= n < |ops| ==> Fair(ops[n])
    modifies a`hdr, a`heads, a`lists, a`owner, a`mutating
    modifies mmu`shape, a.pages`mem, a.pages`mutatingHeap, a.pages`log, a.pages.counts
    ensures InOrder(a, mmu) && done <= |ops| && spaces <= spaces' && Spaces.AreSpaces(mmu.shape, spaces')
    ensures Course(start, ops, done, moments) && moments[done].books == books' && moments[done].roots == spaces'
    ensures if done < |ops| then Halts(moments[done], ops[done]) else Describes(moments[done], a, mmu)
    ensures done == |ops| || !Spills(moments[done], ops[done]) ==> Requests.Kept(a, books')
    ensures Spaces.AllShow(a.pages.mem, spaces', moments[done].spaces)
    ensures Spaces.Translates(a.pages.mem, spaces', moments[done].spaces)
    ensures forall k, i :: 0 <= k < |spaces| && (forall n :: 0 <= n < done ==> !Aims(ops[n], k, i)) ==>
      Spaces.Kept(old(a.pages.mem), a.pages.mem, spaces[k], i)
    ensures AllStandard(old(a.pages.mem), old(mmu.shape)) && (forall n :: 0 <= n <= done && n < |ops| ==> StandardOp(ops[n])) ==>
      AllStandard(a.pages.mem, mmu.shape) && Spaces.HardwareReads(a.pages.mem, spaces')
  {
    hide InOrder, AllStandard, Requests.Kept, Booked, Next, Halts, Spills, Describes, Spaces.AreSpaces, Spaces.HardwareReads,
      Spaces.Kept, StandardOp, Aims, Spaces.AllShow, Spaces.Translates, SameWalks, Fair;
    books', spaces', done, moments := books, spaces, 0, [start];
    ghost var m, sh := a.pages.mem, mmu.shape;
    OrderedTables(a, mmu);
    forall k, i | 0 <= k < |spaces| ensures Spaces.Kept(m, m, spaces[k], i) {
      Spaces.SelfKept(m, spaces[k], i);
    }
    while done < |ops|
      invariant 0 <= done <= |ops| && Course(start, ops, done, moments)
      invariant InOrder(a, mmu) && Requests.Kept(a, books') && spaces <= spaces' && Spaces.AreSpaces(mmu.shape, spaces')
      invariant Describes(moments[done], a, mmu) && moments[done].books == books' && moments[done].roots == spaces'
      invariant forall k, i :: 0 <= k < |spaces| && (forall n :: 0 <= n < done ==> !Aims(ops[n], k, i)) ==>
        Spaces.Kept(m, a.pages.mem, spaces[k], i)
      invariant AllStandard(m, sh) && (forall n :: 0 <= n < done ==> StandardOp(ops[n])) ==> AllStandard(a.pages.mem, mmu.shape)
    {
      ghost var m1, sh1, sp1, now := a.pages.mem, mmu.shape, spaces', moments[done];
      DescribesSpaces(now, a, mmu);
      var stop;
      books', spaces', stop := Step(a, mmu, books', spaces', ops[done], now);
      if stop {
        OrderedTables(a, mmu);
        Spaces.OutKeeps(m, m1, a.pages.mem, sh1, spaces, spaces', now.spaces);
        Spaces.ShowTranslates(a.pages.mem, spaces', now.spaces);
        if AllStandard(a.pages.mem, mmu.shape) {
          Spaces.AllHardware(a.pages.mem, mmu.shape, spaces');
        }
        return;
      }
      forall k, i | 0 <= k < |spaces| && (forall n :: 0 <= n < done + 1 ==> !Aims(ops[n], k, i))
        ensures Spaces.Kept(m, a.pages.mem, spaces[k], i)
      {
        assert spaces[k] == sp1[k];
        assert Spaces.Kept(m1, a.pages.mem, sp1[k], i);
        assert Spaces.Kept(m, m1, spaces[k], i);
        KeptTwice(m, m1, a.pages.mem, spaces[k], i);
      }
      NextBooks(now, ops[done], books');
      moments := moments + [Next(now, ops[done], books')];
      done := done + 1;
    }
    OrderedTables(a, mmu);
    DescribesSpaces(moments[done], a, mmu);
    Spaces.ShowTranslates(a.pages.mem, spaces', moments[done].spaces);
    if AllStandard(a.pages.mem, mmu.shape) {
      Spaces.AllHardware(a.pages.mem, mmu.shape, spaces');
    }
  }

  lemma NextBooks(t: Moment, op: Op, books': seq<Requests.Held>)
    ensures Next(t, op, books').books == books'
  {
    hide Requests.Next, Spaces.Next;
  }

  lemma DescribesSpaces(t: Moment, a: BucketAllocator, mmu: MmuTables)
    requires Describes(t, a, mmu)
    ensures Spaces.AllShow(mmu.pages.mem, t.roots, t.spaces)
  {
    hide Spaces.AllShow, Spaces.AllLack, Requests.ViewOf;
  }

  /** The moments agree but for what the blocks hold. */
  ghost predicate Alike(t: Moment, u: Moment) {
    t == u.(books := t.books) && Requests.Alike(t.books, u.books)
  }

  lemma AlikeStep(t: Moment, u: Moment, op: Op, books: seq<Requests.Held>, others: seq<Requests.Held>)
    requires Alike(t, u)
    ensures Halts(t, op) == Halts(u, op)
    ensures Booked(t, op, books) && Booked(u, op, others) ==> Alike(Next(t, op, books), Next(u, op, others))
  {
    hide Requests.Alike, Requests.Next, Requests.Booked, Requests.Stops, Spaces.Next, Spaces.Short, Spaces.RootsAfter;
    if op.HeapOp? {
      Requests.AlikeStep(t.view, t.books, u.books, op.request, books, others);
    }
  }

  /** A run is determined: two courses of the same operations that both end as Run ends are equally long and alike. */
  lemma CourseUnique(start: Moment, ops: seq<Op>, n: nat, moments: seq<Moment>, n': nat, moments': seq<Moment>)
    requires Course(start, ops, n, moments) && Course(start, ops, n', moments')
    requires n < |ops| ==> Halts(moments[n], ops[n])
    requires n' < |ops| ==> Halts(moments'[n'], ops[n'])
    ensures n == n' && forall t :: 0 <= t <= n ==> Alike(moments[t], moments'[t])
  {
    hide Halts, Booked, Next, Requests.Alike;
    var m := if n < n' then n else n';
    Requests.AlikeSelf(start.books);
    for t := 0 to m
      invariant forall u :: 0 <= u <= t ==> Alike(moments[u], moments'[u])
    {
      AlikeStep(moments[t], moments'[t], ops[t], moments[t + 1].books, moments'[t + 1].books);
    }
    if m < |ops| {
      AlikeStep(moments[m], moments'[m], ops[m], [], []);
    }
  }

  lemma OrderedTables(a: BucketAllocator, mmu: MmuTables)
    requires InOrder(a, mmu)
    ensures a.pages == mmu.pages && Tree(a.pages.mem, mmu.shape)
  {
  }

  lemma KeptTwice(m: Mem, m1: Mem, m2: Mem, r: nat, i: nat)
    requires Spaces.Kept(m, m1, r, i) && Spaces.Kept(m1, m2, r, i)
    ensures Spaces.Kept(m, m2, r, i)
  {
  }
}
