/** The argument vector that spawn_task_from_elf lays out in a new address space (kernel/src/process.c:116-163). */
module Argv {
  import opened Words
  import opened Ram
  import opened DirectMap
  import opened Entries
  import opened Pages
  import opened Options
  import opened PageTable
  import opened Sv39
  import opened Mapping
  import opened Standard
  import opened Mmu
  import opened Demand
  import opened UserMemory

  const PTR_SIZE := 8

  /** The strings with their terminators, one after the other. */
  function Strings(args: seq<seq<u8>>): seq<u8> {
    if args == [] then [] else Strings(args[..|args| - 1]) + args[|args| - 1] + [0]
  }

  function Pointers(ptrs: seq<u64>): (b: seq<u8>)
    ensures |b| == PTR_SIZE * |ptrs|
  {
    if ptrs == [] then [] else Pointers(ptrs[..|ptrs| - 1]) + LeBytes(ptrs[|ptrs| - 1], PTR_SIZE)
  }

  lemma PointersSnoc(ptrs: seq<u64>, k: nat)
    requires k <= |ptrs|
    ensures Pointers(ptrs[..0]) == []
    ensures k < |ptrs| ==> Pointers(ptrs[..k + 1]) == Pointers(ptrs[..k]) + LeBytes(ptrs[k], PTR_SIZE)
  {
    if k < |ptrs| {
      assert ptrs[..k + 1][..k] == ptrs[..k];
    }
  }

  lemma {:induction false} StringsGrow(args: seq<seq<u8>>, k: nat)
    requires k <= |args|
    ensures Strings(args[..k]) <= Strings(args)
  {
    if k < |args| {
      StringsGrow(args[..|args| - 1], k);
      assert args[..|args| - 1][..k] == args[..k];
    } else {
      assert args[..k] == args;
    }
  }

  lemma StringAt(args: seq<seq<u8>>, k: nat)
    requires k < |args|
    ensures var p := |Strings(args[..k])|;
      && p + |args[k]| + 1 <= |Strings(args)|
      && Strings(args)[p..p + |args[k]| + 1] == args[k] + [0]
  {
    StringsGrow(args, k + 1);
    assert args[..k + 1][..k] == args[..k];
  }

  lemma {:induction false} PointersGrow(ptrs: seq<u64>, k: nat)
    requires k <= |ptrs|
    ensures Pointers(ptrs[..k]) <= Pointers(ptrs)
  {
    if k < |ptrs| {
      PointersGrow(ptrs[..|ptrs| - 1], k);
      assert ptrs[..|ptrs| - 1][..k] == ptrs[..k];
    } else {
      assert ptrs[..k] == ptrs;
    }
  }

  lemma PointerAt(ptrs: seq<u64>, k: nat)
    requires k < |ptrs|
    ensures PTR_SIZE * k + PTR_SIZE <= |Pointers(ptrs)|
    ensures Pointers(ptrs)[PTR_SIZE * k..PTR_SIZE * k + PTR_SIZE] == LeBytes(ptrs[k], PTR_SIZE)
  {
    PointersGrow(ptrs, k + 1);
    assert ptrs[..k + 1][..k] == ptrs[..k];
  }

  /** The pages that mapping n fresh pages from v0 on takes: the pages themselves and the tables that are missing. */
  function Demanded(m: Mem, root: nat, v0: nat, n: nat): nat {
    n + Tables(Lacks(m, root), Places(v0, n))
  }

  lemma DemandGrows(m: Mem, root: nat, v0: nat, j: nat, n: nat)
    requires j <= n
    ensures Demanded(m, root, v0, j) <= Demanded(m, root, v0, n)
  {
    hide Tables, Places, Lacks;
    PlacesPrefix(v0, j, n);
    TablesGrow(Lacks(m, root), Places(v0, n), j);
  }

  /** What every walk lacks after n pages from v0 on are mapped, in terms of the memory m0 before. */
  ghost predicate MissingAhead(m0: Mem, m: Mem, root: nat, v0: nat, n: nat) {
    Lacking(m, root, Lacks(m0, root), Places(v0, n))
  }

  /** The next page costs itself and the tables that its walk lacks now. */
  lemma DemandNext(m0: Mem, m: Mem, root: nat, v0: nat, n: nat, va: u64)
    requires MissingAhead(m0, m, root, v0, n) && va == v0 + PAGE_SIZE * n
    ensures Demanded(m0, root, v0, n + 1) == Demanded(m0, root, v0, n) + 1 + Missing(m, root, GetVpns(va), 0)
  {
    hide Missing, Tables, Lacks, Lacking, GetVpns;
    LackingAt(m, root, Lacks(m0, root), Places(v0, n), GetVpns(va));
  }

  lemma AheadMore(m0: Mem, m: Mem, m': Mem, sh: Shape, root: nat, v0: nat, n: nat, va: u64)
    requires MissingAhead(m0, m, root, v0, n) && IsRoot(sh, root) && va == v0 + PAGE_SIZE * n
    requires MissingGrew(m, m', sh, root, GetVpns(va)) && Missing(m', root, GetVpns(va), 0) == 0
    ensures MissingAhead(m0, m', root, v0, n + 1)
  {
    hide Missing, MissingGrew, Tables, Lacks, Lacking, GetVpns;
    Attempted(m, m', sh, root, Lacks(m0, root), Places(v0, n), GetVpns(va));
  }

  lemma AheadSame(m0: Mem, m: Mem, m': Mem, sh: Shape, root: nat, v0: nat, n: nat)
    requires MissingAhead(m0, m, root, v0, n) && SameMissing(m, m', sh) && IsRoot(sh, root)
    ensures MissingAhead(m0, m', root, v0, n)
  {
    hide Lacking, SameMissing;
    LackingSame(m, m', sh, root, Lacks(m0, root), Places(v0, n));
  }

  /** The pages that so many bytes occupy; an empty layout has its first page all the same. */
  function PagesFor(length: nat): (n: nat)
    ensures n > 0 && length <= PAGE_SIZE * n
    ensures n > 1 ==> PAGE_SIZE * (n - 1) < length
  {
    if length == 0 then 1 else (length - 1) / PAGE_SIZE + 1
  }

  lemma PagesForIs(length: nat, n: nat)
    requires n > 0 && length <= PAGE_SIZE * n && (n > 1 ==> PAGE_SIZE * (n - 1) < length)
    ensures PagesFor(length) == n
  {
  }

  lemma PagesForGrows(a: nat, b: nat)
    requires a <= b
    ensures PagesFor(a) <= PagesFor(b)
  {
  }

  /** No address from start up to limit has a page. */
  ghost predicate Unmapped(m: Mem, root: nat, start: nat, limit: nat) {
    forall q: u64 :: start <= q < limit ==> Descend(m, root, GetVpns(q), 0).None?
  }

  /** The pages are data: held by somebody, no tables, all different. */
  ghost predicate DataPages(m: Mem, rc: seq<nat>, bottom: nat, sh: Shape, phys: seq<nat>) {
    && (forall j :: 0 <= j < |phys| ==> phys[j] in m && HeldIn(rc, bottom, phys[j]) && phys[j] !in sh)
    && (forall i, j :: 0 <= i < j < |phys| ==> phys[i] != phys[j])
  }

  /** One more page behind a run of mapped pages. */
  lemma BackedMore(m: Mem, m': Mem, sh: Shape, root: nat, v0: nat, phys: seq<nat>, page: nat, flags: nat, limit: nat)
    requires Backed(m, root, v0, phys) && IsRoot(sh, root) && page < WORD && page % 4096 == 0 && page in m'
    requires v0 + 4096 * |phys| < limit <= WINDOW && limit % 4096 == 0 && LeafFlags(flags) == USER_DATA
    requires Unmapped(m, root, v0 + 4096 * |phys|, limit)
    requires Mapped(m, m', sh, root, GetVpns(v0 + 4096 * |phys|), page, flags)
    requires forall j :: 0 <= j < |phys| ==> phys[j] in m'
    ensures Backed(m', root, v0, phys + [page])
    ensures Unmapped(m', root, v0 + 4096 * |phys + [page]|, limit)
  {
    hide GetVpns, Descend, Tree, LeafFlags;
    var n := |phys|;
    var va := v0 + 4096 * n;
    forall q: u64 | q < WINDOW && q / 4096 != va / 4096 ensures GetVpns(q) != GetVpns(va) {
      if GetVpns(q) == GetVpns(va) {
        DistinctPages(q, va);
      }
    }
    forall j | 0 <= j < n + 1 ensures BackedAt(m', root, v0, phys + [page], j) {
      var q := v0 + 4096 * j;
      if j < n {
        assert BackedAt(m, root, v0, phys, j);
        assert q / 4096 != va / 4096;
      } else {
        assert PageBase(page) == page;
      }
    }
  }

  /** The flags that spawn_task_from_elf asks for make pages of the program's own. */
  lemma UserFlags()
    ensures LeafFlags(READ + WRITE + USER) == USER_DATA
  {
    assert Or(0x16, 0xc1) == 0xd7;
  }

  lemma StillBacked(m: Mem, m': Mem, sh: Shape, root: nat, v0: nat, phys: seq<nat>, last: nat, limit: nat)
    requires Backed(m, root, v0, phys) && IsRoot(sh, root) && SameWalks(m, m', sh) && m'.Keys == m.Keys
    requires Unmapped(m, root, last, limit)
    ensures Backed(m', root, v0, phys) && Unmapped(m', root, last, limit)
  {
    forall j | 0 <= j < |phys| ensures BackedAt(m', root, v0, phys, j) {
      assert BackedAt(m, root, v0, phys, j);
    }
  }

  /** The pages phys are mapped from v0 on, are private data, and nothing is mapped behind them. */
  ghost predicate Layout(m: Mem, rc: seq<nat>, bottom: nat, sh: Shape, root: nat, v0: nat, phys: seq<nat>, limit: nat) {
    && phys != [] && limit <= WINDOW && limit % 4096 == 0 && root != 0 && IsRoot(sh, root)
    && DataPages(m, rc, bottom, sh, phys) && Backed(m, root, v0, phys)
    && v0 + 4096 * |phys| <= limit && Unmapped(m, root, v0 + 4096 * |phys|, limit)
    && 0 < phys[|phys| - 1] < WINDOW
  }

  /** The bytes of all but the last page, and the first `offset` bytes of the last. */
  ghost function StreamOf(m: Mem, phys: seq<nat>, offset: nat): (s: seq<u8>)
    requires phys != [] && offset <= 4096 && forall j :: 0 <= j < |phys| ==> phys[j] in m
    ensures |s| == 4096 * (|phys| - 1) + offset
  {
    Flat(m, phys[..|phys| - 1]) + m[phys[|phys| - 1]][..offset]
  }

  lemma StreamMore(m: Mem, phys: seq<nat>, offset: nat, n: nat)
    requires phys != [] && offset + n <= 4096 && forall j :: 0 <= j < |phys| ==> phys[j] in m
    ensures StreamOf(m, phys, offset + n) == StreamOf(m, phys, offset) + m[phys[|phys| - 1]][offset..offset + n]
  {
    hide Flat;
    var last := m[phys[|phys| - 1]];
    assert last[..offset + n] == last[..offset] + last[offset..offset + n];
  }

  lemma LayoutMore(m: Mem, rc: seq<nat>, bottom: nat, sh: Shape, root: nat, v0: nat, phys: seq<nat>, limit: nat,
                   m': Mem, rc': seq<nat>, sh': Shape, page: nat, flags: nat)
    requires Layout(m, rc, bottom, sh, root, v0, phys, limit) && v0 + 4096 * |phys| < limit
    requires Extends(bottom, rc, m, sh, rc', m', sh') && NewPage(bottom, rc, rc', m', sh', page)
    requires Mapped(m, m', sh, root, GetVpns(v0 + 4096 * |phys|), page, flags) && LeafFlags(flags) == USER_DATA
    ensures Layout(m', rc', bottom, sh', root, v0, phys + [page], limit)
    ensures StreamOf(m', phys + [page], 0) == StreamOf(m, phys, 4096)
  {
    hide Descend, GetVpns, Mapped, LeafFlags;
    forall j | 0 <= j < |phys| ensures phys[j] in m' && HeldIn(rc', bottom, phys[j]) && phys[j] !in sh' && phys[j] != page {
      assert phys[j] in m && HeldIn(rc, bottom, phys[j]) && phys[j] !in sh;
    }
    BackedMore(m, m', sh, root, v0, phys, page, flags, limit);
    FlatSame(m, m', phys);
    assert (phys + [page])[..|phys|] == phys;
  }

  lemma LayoutWrite(m: Mem, rc: seq<nat>, bottom: nat, sh: Shape, root: nat, v0: nat, phys: seq<nat>, limit: nat,
                    page: Page, offset: nat, n: nat)
    requires Layout(m, rc, bottom, sh, root, v0, phys, limit) && Tree(m, sh)
    requires offset + n <= 4096 && page[..offset] == m[phys[|phys| - 1]][..offset]
    ensures var m' := m[phys[|phys| - 1] := page];
      && Layout(m', rc, bottom, sh, root, v0, phys, limit) && Tree(m', sh) && SameWalks(m, m', sh)
      && StreamOf(m', phys, offset + n) == StreamOf(m, phys, offset) + page[offset..offset + n]
      && SameMissing(m, m', sh)
  {
    hide SameMissing;
    var m' := m[phys[|phys| - 1] := page];
    OutsideTables(m, m', sh);
    OutsideMissing(m, m', sh);
    StillBacked(m, m', sh, root, v0, phys, v0 + 4096 * |phys|, limit);
    FlatSame(m, m', phys[..|phys| - 1]);
    assert page[..offset + n] == page[..offset] + page[offset..offset + n];
  }

  /** Walks of other roots, and walks of this one that found something, are as they were; standard tables still are. */
  ghost predicate Spared(m0: Mem, m: Mem, sh0: Shape, sh: Shape, root: nat) {
    KeepsFound(m0, m, sh0, root) && SameRoots(sh0, sh) && (AllStandard(m0, sh0) ==> AllStandard(m, sh))
  }

  /** Below 2^38 the hardware reads what mmu_translate names. */
  ghost predicate HardwareSees(m: Mem, root: nat) {
    forall va: u64 :: va < WINDOW ==> StandardTranslation(m, root, va) == Translation(m, root, va)
  }

  lemma SeesOwned(m: Mem, root: nat, from: nat, to: nat)
    requires HardwareSees(m, root) && UserPages(m, root, from, to) && to <= WINDOW
    ensures UserOwns(m, root, from, to)
  {
    hide UserPages, UserOwns, StandardTranslation, Translation;
    PagesOwned(m, root, from, to);
  }

  lemma SparedHardware(m0: Mem, m: Mem, sh0: Shape, sh: Shape, root: nat)
    requires Spared(m0, m, sh0, sh, root) && Tree(m, sh) && IsRoot(sh, root)
    ensures AllStandard(m0, sh0) ==> HardwareSees(m, root)
  {
    hide Tree, AllStandard, StandardTranslation, Translation, Descend;
    if AllStandard(m0, sh0) {
      forall va: u64 | va < WINDOW ensures StandardTranslation(m, root, va) == Translation(m, root, va) {
        HardwareAgrees(m, sh, root, va);
      }
    }
  }

  lemma SparedStart(m: Mem, sh: Shape, root: nat)
    ensures Spared(m, m, sh, sh, root)
  {
  }

  lemma SparedMapped(m0: Mem, m: Mem, m': Mem, sh0: Shape, sh: Shape, sh': Shape, root: nat, v: Vpns, page: u64, flags: nat)
    requires Spared(m0, m, sh0, sh, root) && Mapped(m, m', sh, root, v, page, flags) && Descend(m, root, v, 0).None?
    requires SameRoots(sh, sh') && (AllStandard(m, sh) ==> AllStandard(m', sh'))
    ensures Spared(m0, m', sh0, sh', root)
  {
    hide Descend, LeafFlags, AllStandard;
    assert KeepsFound(m, m', sh, root);
    KeepsFoundTransitive(m0, m, m', sh0, sh, root);
  }

  lemma SparedWrite(m0: Mem, m: Mem, m': Mem, sh0: Shape, sh: Shape, root: nat)
    requires Spared(m0, m, sh0, sh, root) && SameWalks(m, m', sh) && (AllStandard(m, sh) ==> AllStandard(m', sh))
    ensures Spared(m0, m', sh0, sh, root)
  {
    hide Descend, AllStandard;
    assert KeepsFound(m, m', sh, root);
    KeepsFoundTransitive(m0, m, m', sh0, sh, root);
  }

  class ArgWriter {
    const mmu: MmuTables
    const root: u64
    const v0: nat              // the first virtual address of the layout
    ghost const budget: nat    // free pages at the start
    ghost const start: Mem     // memory and tables at the start
    ghost const startShape: Shape
    ghost const limit: nat     // nothing is mapped between the layout and this address
    var offset: nat
    var physical: u64          // the kernel's pointer to the current page
    var virtAddr: nat
    var lastVirtual: nat
    ghost var phys: seq<nat>   // the physical pages so far

    ghost predicate Valid()
      reads this, mmu, mmu.pages, mmu.pages.counts
    {
      && mmu.Valid() && offset <= PAGE_SIZE
      && Layout(mmu.pages.mem, mmu.pages.counts[..], mmu.pages.heapBottom, mmu.shape, root, v0, phys, limit)
      && lastVirtual == v0 + PAGE_SIZE * |phys| && virtAddr == lastVirtual - PAGE_SIZE
      && physical == Phys2Safe(phys[|phys| - 1], mmu.pages.on)
      && budget == Available(mmu.pages.counts[..]) + Demanded(start, root, v0, |phys|)
      && MissingAhead(start, mmu.pages.mem, root, v0, |phys|)
      && Spared(start, mmu.pages.mem, startShape, mmu.shape, root)
    }

    /** Everything written so far, from v0 on. */
    ghost function Stream(): (s: seq<u8>)
      requires Valid()
      reads this, mmu, mmu.pages, mmu.pages.counts
      ensures |s| == PAGE_SIZE * (|phys| - 1) + offset
    {
      StreamOf(mmu.pages.mem, phys, offset)
    }

    /** Every page but the first has been written to. */
    ghost predicate Tight()
      requires Valid()
      reads this, mmu, mmu.pages, mmu.pages.counts
    {
      |phys| == PagesFor(|Stream()|)
    }

    lemma Current()
      requires Valid()
      ensures Safe2Phys(physical, mmu.pages.on) == phys[|phys| - 1] && phys[|phys| - 1] in mmu.pages.mem
    {
      hide Demanded, MissingAhead, Tree, Backed, Unmapped, Spared, Available, TablesHeld;
      WindowRoundTrip(phys[|phys| - 1], mmu.pages.on);
    }

    lemma Bounds()
      requires Valid()
      ensures virtAddr + offset == v0 + |Stream()| <= WINDOW
    {
    }

    constructor (mmu: MmuTables, root: u64, v0: nat, page: nat, ghost limit: nat, ghost budget: nat,
                 ghost start: Mem, ghost startShape: Shape)
      requires mmu.Valid() && Spared(start, mmu.pages.mem, startShape, mmu.shape, root)
      requires Layout(mmu.pages.mem, mmu.pages.counts[..], mmu.pages.heapBottom, mmu.shape, root, v0, [page], limit)
      requires budget == Available(mmu.pages.counts[..]) + Demanded(start, root, v0, 1)
      requires MissingAhead(start, mmu.pages.mem, root, v0, 1)
      ensures Valid() && Stream() == [] && Tight()
      ensures this.mmu == mmu && this.root == root && this.v0 == v0 && this.limit == limit && this.budget == budget
      ensures this.start == start && this.startShape == startShape
    {
      this.mmu, this.root, this.v0, this.limit, this.budget := mmu, root, v0, limit, budget;
      this.start, this.startShape := start, startShape;
      offset := 0;
      physical := Phys2Safe(page, mmu.pages.on);
      virtAddr := v0;
      lastVirtual := v0 + PAGE_SIZE;
      phys := [page];
    }

    /** The next virtual page, mapped to a fresh page (process.c:126-133). */
    method NextPage() returns (oom: bool)
      requires Valid() && offset == PAGE_SIZE && lastVirtual < limit
      modifies this, mmu`shape, mmu.pages`mem, mmu.pages`mutatingHeap, mmu.pages`log, mmu.pages.counts
      ensures !oom ==> Valid() && Stream() == old(Stream()) && offset == 0 && |phys| == old(|phys|) + 1
      ensures oom ==> budget < Demanded(start, root, v0, old(|phys|) + 1)
    {
      hide Demanded, MissingAhead, Missing, MissingGrew, DataPages, Backed, Grows, TablesHeld, AllStandard, Descend,
        Tree, GetVpns, Flat, StreamOf, Mapped, Extends, SameRoots, SameWalks, Untouched, PageZeroHeld, Spared,
        LeafFlags, EndsAtLeaf;
      ghost var m, rc, sh := mmu.pages.mem, mmu.pages.counts[..], mmu.shape;
      var page;
      DemandNext(start, m, root, v0, |phys|, lastVirtual);
      UserFlags();
      page, oom := mmu.Alloc(root, lastVirtual, READ + WRITE + USER);
      if oom || page == 0 {
        return true;
      }
      AheadMore(start, m, mmu.pages.mem, sh, root, v0, |phys|, lastVirtual);
      LayoutMore(m, rc, mmu.pages.heapBottom, sh, root, v0, phys, limit,
                 mmu.pages.mem, mmu.pages.counts[..], mmu.shape, page, READ + WRITE + USER);
      SparedMapped(start, m, mmu.pages.mem, startShape, sh, mmu.shape, root, GetVpns(lastVirtual), page, READ + WRITE + USER);
      physical := Phys2Safe(page, mmu.pages.on);
      offset := 0;
      virtAddr := lastVirtual;
      lastVirtual := lastVirtual + PAGE_SIZE;
      phys := phys + [page];
    }

    /** n bytes were stored at the offset of the current page. */
    method Advance(page: Page, n: nat)
      requires Valid() && offset + n <= PAGE_SIZE
      requires page[..offset] == mmu.pages.mem[phys[|phys| - 1]][..offset]
      modifies this`offset, mmu.pages`mem
      ensures Valid() && offset == old(offset) + n && phys == old(phys)
      ensures Stream() == old(Stream()) + page[old(offset)..old(offset) + n]
    {
      hide Demanded, MissingAhead, AllStandard, Descend, Tree, GetVpns, Flat, Spared;
      Current();
      LayoutWrite(mmu.pages.mem, mmu.pages.counts[..], mmu.pages.heapBottom, mmu.shape, root, v0, phys, limit,
                  page, offset, n);
      DataFits(mmu.pages.mem, mmu.shape, phys[|phys| - 1], page);
      AheadSame(start, mmu.pages.mem, mmu.pages.mem[phys[|phys| - 1] := page], mmu.shape, root, v0, |phys|);
      SparedWrite(start, mmu.pages.mem, mmu.pages.mem[phys[|phys| - 1] := page], startShape, mmu.shape, root);
      mmu.pages.mem := mmu.pages.mem[Safe2Phys(physical, mmu.pages.on) := page];
      offset := offset + n;
    }

    /** n more bytes, up to a page: behind a full page they need another. */
    lemma FullPages(n: nat)
      requires Valid() && 0 < n <= PAGE_SIZE
      ensures offset == PAGE_SIZE ==> PagesFor(|Stream()| + n) == |phys| + 1
    {
      hide Descend, Tree, Backed, DataPages, Unmapped, StreamOf, Spared, Available, Demanded, MissingAhead;
      if offset == PAGE_SIZE {
        PagesForIs(|Stream()| + n, |phys| + 1);
      }
    }

    lemma Filled()
      requires Valid() && 0 < offset
      ensures Tight()
    {
      hide Descend, Tree, Backed, DataPages, Unmapped, StreamOf, Spared, Available, Demanded, MissingAhead;
      PagesForIs(|Stream()|, |phys|);
    }

    method PutByte(b: u8) returns (oom: bool)
      requires Valid() && Tight() && v0 + |Stream()| < limit
      modifies this, mmu`shape, mmu.pages`mem, mmu.pages`mutatingHeap, mmu.pages`log, mmu.pages.counts
      ensures !oom ==> Valid() && Tight() && Stream() == old(Stream()) + [b]
      ensures oom ==> budget < Demanded(start, root, v0, PagesFor(old(|Stream()|) + 1))
    {
      hide PagesFor, Demanded, MissingAhead, Available, AllStandard, TablesHeld, Backed, Unmapped, Descend, Tree,
        GetVpns, Flat, StreamOf, Spared;
      oom := false;
      FullPages(1);
      if offset >= PAGE_SIZE {
        oom := NextPage();
        if oom {
          return;
        }
      }
      Current();
      var page := mmu.pages.mem[Safe2Phys(physical, mmu.pages.on)];
      assert page[offset := b][offset..offset + 1] == [b];
      Advance(page[offset := b], 1);
      Filled();
    }

    method PutPointer(w: u64) returns (oom: bool)
      requires Valid() && Tight() && v0 + |Stream()| < limit && offset % PTR_SIZE == 0
      modifies this, mmu`shape, mmu.pages`mem, mmu.pages`mutatingHeap, mmu.pages`log, mmu.pages.counts
      ensures !oom ==> Valid() && Tight() && Stream() == old(Stream()) + LeBytes(w, PTR_SIZE) && offset % PTR_SIZE == 0
      ensures oom ==> budget < Demanded(start, root, v0, PagesFor(old(|Stream()|) + PTR_SIZE))
    {
      hide PagesFor, Demanded, MissingAhead, Available, AllStandard, TablesHeld, Backed, Unmapped, Descend, Tree,
        GetVpns, Flat, StreamOf, LeBytes, Spared;
      oom := false;
      FullPages(PTR_SIZE);
      if offset >= PAGE_SIZE {
        oom := NextPage();
        if oom {
          return;
        }
      }
      Current();
      var page := mmu.pages.mem[Safe2Phys(physical, mmu.pages.on)];
      SetWordBytes(page, offset, w);
      Advance(SetWord(page, offset / 8, w), 8);
      Filled();
    }

    /** Pages that a part does not get, the whole does not get either. */
    lemma Enough(part: nat, whole: nat)
      requires part <= whole
      ensures Demanded(start, root, v0, PagesFor(part)) <= Demanded(start, root, v0, PagesFor(whole))
    {
      hide Demanded, PagesFor;
      PagesForGrows(part, whole);
      DemandGrows(start, root, v0, PagesFor(part), PagesFor(whole));
    }

    /** One string and its terminator (process.c:125-144). */
    method PutString(s: seq<u8>) returns (oom: bool)
      requires Valid() && Tight() && v0 + |Stream()| + |s| < limit
      modifies this, mmu`shape, mmu.pages`mem, mmu.pages`mutatingHeap, mmu.pages`log, mmu.pages.counts
      ensures !oom ==> Valid() && Tight() && Stream() == old(Stream()) + s + [0]
      ensures oom ==> budget < Demanded(start, root, v0, PagesFor(old(|Stream()|) + |s| + 1))
    {
      hide Demanded, MissingAhead, PagesFor, Layout, StreamOf, Spared, Available;
      var i := 0;
      while i < |s|
        invariant 0 <= i <= |s| && Valid() && Tight() && Stream() == old(Stream()) + s[..i]
      {
        Enough(|Stream()| + 1, old(|Stream()|) + |s| + 1);
        oom := PutByte(s[i]);
        if oom {
          return;
        }
        assert s[..i + 1] == s[..i] + [s[i]];
        i := i + 1;
      }
      assert s[..i] == s;
      oom := PutByte(0);
    }

    method PutStrings(args: seq<seq<u8>>) returns (argsNew: seq<u64>, oom: bool)
      requires Valid() && Tight() && Stream() == [] && v0 + |Strings(args)| <= limit
      modifies this, mmu`shape, mmu.pages`mem, mmu.pages`mutatingHeap, mmu.pages`log, mmu.pages.counts
      ensures !oom ==> Valid() && Tight() && Stream() == Strings(args) && |argsNew| == |args|
      ensures !oom ==> forall k :: 0 <= k < |args| ==> argsNew[k] == v0 + |Strings(args[..k])|
      ensures oom ==> budget < Demanded(start, root, v0, PagesFor(|Strings(args)|))
    {
      hide Demanded, MissingAhead, PagesFor, Layout, StreamOf, Spared, Available;
      argsNew, oom := [], false;
      var k := 0;
      while k < |args|
        invariant 0 <= k <= |args| == k + (|args| - k) && |argsNew| == k
        invariant Valid() && Tight() && Stream() == Strings(args[..k])
        invariant forall j :: 0 <= j < k ==> argsNew[j] == v0 + |Strings(args[..j])|
      {
        StringAt(args, k);
        Enough(|Stream()| + |args[k]| + 1, |Strings(args)|);
        Bounds();
        argsNew := argsNew + [virtAddr + offset];
        oom := PutString(args[k]);
        if oom {
          return;
        }
        assert args[..k + 1][..k] == args[..k];
        k := k + 1;
      }
      assert args[..k] == args;
    }

    /** `offset += (-offset) & 7` (process.c:147). */
    method Align() returns (ghost pad: seq<u8>)
      requires Valid() && Tight()
      modifies this`offset
      ensures Valid() && Tight() && Stream() == old(Stream()) + pad && offset % PTR_SIZE == 0
      ensures |pad| == Padding(old(|Stream()|)) < PTR_SIZE
      ensures (virtAddr + offset) % PTR_SIZE == 0
    {
      hide Spared, AllStandard, TablesHeld, Demanded, MissingAhead, PagesFor, Descend, GetVpns, Tree, StreamOf, Available,
        HeldIn, Padding;
      var n := Padding(offset);
      PaddingPages(|phys| - 1, offset);
      AlignedAddress(v0, |phys| - 1, offset + n);
      ghost var last := phys[|phys| - 1];
      pad := mmu.pages.mem[last][offset..offset + n];
      StreamMore(mmu.pages.mem, phys, offset, n);
      offset := offset + n;
      if offset > 0 {
        Filled();
      }
    }

    method PutPointers(ptrs: seq<u64>) returns (oom: bool)
      requires Valid() && Tight() && offset % PTR_SIZE == 0 && v0 + |Stream()| + PTR_SIZE * |ptrs| <= limit
      modifies this, mmu`shape, mmu.pages`mem, mmu.pages`mutatingHeap, mmu.pages`log, mmu.pages.counts
      ensures !oom ==> Valid() && Tight() && Stream() == old(Stream()) + Pointers(ptrs)
      ensures oom ==> budget < Demanded(start, root, v0, PagesFor(old(|Stream()|) + PTR_SIZE * |ptrs|))
    {
      hide Demanded, MissingAhead, PagesFor, Layout, StreamOf, Spared, Available, LeBytes, Pointers;
      oom := false;
      var k := 0;
      PointersSnoc(ptrs, 0);
      while k < |ptrs|
        invariant 0 <= k <= |ptrs| && Valid() && Tight() && Stream() == old(Stream()) + Pointers(ptrs[..k])
        invariant offset % PTR_SIZE == 0
      {
        Enough(|Stream()| + PTR_SIZE, old(|Stream()|) + PTR_SIZE * |ptrs|);
        oom := PutPointer(ptrs[k]);
        if oom {
          return;
        }
        PointersSnoc(ptrs, k);
        k := k + 1;
      }
      assert ptrs[..k] == ptrs;
    }

    /** The strings, then the array of pointers to them, from an empty first page on. */
    method Fill(args: seq<seq<u8>>) returns (argsNew: seq<u64>, first: nat, oom: bool)
      requires Valid() && Tight() && Stream() == [] && v0 + LayoutLength(args) <= limit
      modifies this, mmu`shape, mmu.pages`mem, mmu.pages`mutatingHeap, mmu.pages`log, mmu.pages.counts
      ensures !oom ==> Valid() && ReadsBack(mmu.pages.mem, root, args, argsNew, first)
      ensures !oom ==> Laid(args, argsNew, v0, first) && UserPages(mmu.pages.mem, root, v0, v0 + LayoutLength(args))
      ensures !oom ==> budget == Available(mmu.pages.counts[..]) + Demanded(start, root, v0, PagesFor(LayoutLength(args)))
      ensures !oom ==> Spared(start, mmu.pages.mem, startShape, mmu.shape, root)
      ensures oom ==> budget < Demanded(start, root, v0, PagesFor(LayoutLength(args)))
    {
      hide Demanded, MissingAhead, PagesFor, Padding, Layout, StreamOf, Spared, Available, Strings, Pointers, ReadsBack, UserPages;
      first := 0;
      Enough(|Strings(args)|, LayoutLength(args));
      argsNew, oom := PutStrings(args);
      if oom {
        return;
      }
      ghost var pad := Align();
      Bounds();
      first := virtAddr + offset;
      oom := PutPointers(argsNew);
      if oom {
        return;
      }
      StreamReadsBack(mmu.pages.mem, mmu.pages.counts[..], mmu.pages.heapBottom, mmu.shape, root, v0, phys, limit,
                      offset, args, pad, argsNew);
      LayoutPages(mmu.pages.mem, mmu.pages.counts[..], mmu.pages.heapBottom, mmu.shape, root, v0, phys, limit, LayoutLength(args));
    }
  }

  lemma AlignedAddress(base: nat, k: nat, offset: nat)
    requires base % 4096 == 0 && offset % 8 == 0
    ensures (base + 4096 * k + offset) % 8 == 0
  {
    DivModUnique(base + 4096 * k + offset, 8, 512 * (base / 4096 + k) + offset / 8, 0);
  }

  /** `(-offset) & 7` on an int. */
  function Padding(offset: nat): (n: nat)
    ensures n < 8 && (offset + n) % 8 == 0
    ensures offset <= 4096 ==> offset + n <= 4096
  {
    (0 - offset) % 8
  }

  /** Whole pages before an offset do not change its padding. */
  lemma PaddingPages(k: nat, offset: nat)
    ensures Padding(PAGE_SIZE * k + offset) == Padding(offset)
  {
    hide Padding;
    PaddingIs(offset);
    PaddingIs(PAGE_SIZE * k + offset);
    var n := Padding(offset);
    DivModUnique(0 - (PAGE_SIZE * k + offset), 8, 0 - 512 * k - (offset + n) / 8, n);
  }

  lemma PaddingIs(offset: nat)
    ensures Padding(offset) == (0 - offset) % 8
  {
  }

  lemma SetWordBytes(page: Page, offset: nat, w: u64)
    requires offset < 4096 && offset % 8 == 0
    ensures SetWord(page, offset / 8, w)[..offset] == page[..offset]
    ensures offset + 8 <= 4096 && SetWord(page, offset / 8, w)[offset..offset + 8] == LeBytes(w, 8)
  {
    hide LeBytes;
  }

  /** The bytes of the strings, the alignment and the pointers. */
  function LayoutLength(args: seq<seq<u8>>): nat {
    |Strings(args)| + Padding(|Strings(args)|) + PTR_SIZE * |args|
  }

  lemma {:induction false} StreamPrefix(m: Mem, phys: seq<nat>, offset: nat)
    requires phys != [] && offset <= 4096 && forall j :: 0 <= j < |phys| ==> phys[j] in m
    ensures StreamOf(m, phys, offset) == Flat(m, phys)[..4096 * (|phys| - 1) + offset]
  {
  }

  /** What a program reads through its page table at offset i of the stream. */
  lemma StreamRead(m: Mem, rc: seq<nat>, bottom: nat, sh: Shape, root: nat, v0: nat, phys: seq<nat>, limit: nat,
                   offset: nat, i: nat, n: nat)
    requires Layout(m, rc, bottom, sh, root, v0, phys, limit) && offset <= 4096
    requires i + n <= |StreamOf(m, phys, offset)|
    ensures v0 + i + n <= WORD
    ensures ReadBytes(m, root, v0 + i, n) == Some(StreamOf(m, phys, offset)[i..i + n])
  {
    hide Flat, Descend, GetVpns, ReadBytes;
    FlatReads(m, root, v0, phys, i, n);
    StreamPrefix(m, phys, offset);
    var f := Flat(m, phys);
    assert f[..4096 * (|phys| - 1) + offset][i..i + n] == f[i..i + n];
  }

  /** A program reads back every string with its terminator, and every pointer. */
  ghost predicate ReadsBack(m: Mem, root: nat, args: seq<seq<u8>>, argsNew: seq<u64>, first: nat) {
    && |argsNew| == |args| && first % PTR_SIZE == 0 && first + PTR_SIZE * |args| <= WORD
    && (forall k :: 0 <= k < |args| ==> ReadsString(m, root, args[k], argsNew[k]))
    && (forall k {:trigger argsNew[k]} :: 0 <= k < |args| ==>
          ReadBytes(m, root, first + PTR_SIZE * k, PTR_SIZE) == Some(LeBytes(argsNew[k], PTR_SIZE)))
  }

  ghost predicate ReadsString(m: Mem, root: nat, s: seq<u8>, va: u64) {
    va + |s| + 1 <= WORD && ReadBytes(m, root, va, |s| + 1) == Some(s + [0])
  }

  /** Where the strings and the pointer array are. */
  ghost predicate Laid(args: seq<seq<u8>>, argsNew: seq<u64>, start: nat, first: nat) {
    && |argsNew| == |args| && (forall k :: 0 <= k < |args| ==> argsNew[k] == start + |Strings(args[..k])|)
    && first == start + |Strings(args)| + Padding(|Strings(args)|)
  }

  lemma LayoutPages(m: Mem, rc: seq<nat>, bottom: nat, sh: Shape, root: nat, v0: nat, phys: seq<nat>, limit: nat, n: nat)
    requires Layout(m, rc, bottom, sh, root, v0, phys, limit) && n <= 4096 * |phys|
    ensures UserPages(m, root, v0, v0 + n)
  {
    hide DataPages, Backed, Unmapped, UserPage;
    BackedPages(m, root, v0, phys);
  }

  lemma StreamReadsBack(m: Mem, rc: seq<nat>, bottom: nat, sh: Shape, root: nat, v0: nat, phys: seq<nat>, limit: nat,
                        offset: nat, args: seq<seq<u8>>, pad: seq<u8>, argsNew: seq<u64>)
    requires Layout(m, rc, bottom, sh, root, v0, phys, limit) && offset <= 4096
    requires StreamOf(m, phys, offset) == Strings(args) + pad + Pointers(argsNew) && |argsNew| == |args|
    requires forall k :: 0 <= k < |args| ==> argsNew[k] == v0 + |Strings(args[..k])|
    requires (v0 + |Strings(args)| + |pad|) % PTR_SIZE == 0
    ensures ReadsBack(m, root, args, argsNew, v0 + |Strings(args)| + |pad|)
  {
    hide Flat, Descend, GetVpns, ReadBytes, LeBytes, Strings, Pointers;
    var stream := Strings(args) + pad + Pointers(argsNew);
    var first := v0 + |Strings(args)| + |pad|;
    StreamRead(m, rc, bottom, sh, root, v0, phys, limit, offset, |stream|, 0);
    forall k | 0 <= k < |args| ensures ReadsString(m, root, args[k], argsNew[k]) {
      StringAt(args, k);
      var p := |Strings(args[..k])|;
      SliceBefore(Strings(args), pad, p, |args[k]| + 1);
      SliceBefore(Strings(args) + pad, Pointers(argsNew), p, |args[k]| + 1);
      StreamRead(m, rc, bottom, sh, root, v0, phys, limit, offset, p, |args[k]| + 1);
    }
    forall k | 0 <= k < |args|
      ensures ReadBytes(m, root, first + PTR_SIZE * k, PTR_SIZE) == Some(LeBytes(argsNew[k], PTR_SIZE))
    {
      PointerAt(argsNew, k);
      var p := |Strings(args)| + |pad| + PTR_SIZE * k;
      SliceBehind(Strings(args) + pad, Pointers(argsNew), PTR_SIZE * k, PTR_SIZE);
      StreamRead(m, rc, bottom, sh, root, v0, phys, limit, offset, p, PTR_SIZE);
    }
  }

  /**
   * The argument part of spawn_task_from_elf. The strings end at their first NUL, so they contain
   * none; the addresses from start up to limit are unmapped.
   */
  method LayoutArgs(mmu: MmuTables, root: u64, start: nat, args: seq<seq<u8>>, ghost limit: nat)
    returns (argsNew: seq<u64>, first: nat, oom: bool)
    requires mmu.Valid() && IsRoot(mmu.shape, root) && start % 4096 == 0
    requires start < limit && start + LayoutLength(args) <= limit <= WINDOW && limit % 4096 == 0
    requires Unmapped(mmu.pages.mem, root, start, limit)
    modifies mmu`shape, mmu.pages`mem, mmu.pages`mutatingHeap, mmu.pages`log, mmu.pages.counts
    ensures var need := Demanded(old(mmu.pages.mem), root, start, PagesFor(LayoutLength(args)));
      && (oom <==> Available(old(mmu.pages.counts[..])) < need)
      && (!oom ==> Available(mmu.pages.counts[..]) == Available(old(mmu.pages.counts[..])) - need)
    ensures !oom ==> mmu.Valid() && ReadsBack(mmu.pages.mem, root, args, argsNew, first) && Laid(args, argsNew, start, first)
    ensures !oom ==> UserPages(mmu.pages.mem, root, start, start + LayoutLength(args))
    ensures !oom ==> Spared(old(mmu.pages.mem), mmu.pages.mem, old(mmu.shape), mmu.shape, root)
    ensures !oom && AllStandard(old(mmu.pages.mem), old(mmu.shape)) ==>
      HardwareSees(mmu.pages.mem, root) && UserOwns(mmu.pages.mem, root, start, start + LayoutLength(args))
  {
    hide AllStandard, HardwareSees, Descend, GetVpns, Flat, StreamOf, LeBytes, ReadsBack, Mapped, LayoutLength,
      PagesFor, Spared, Missing, MissingGrew, MissingAhead, Demanded, Available, LeafFlags, EndsAtLeaf, UserPages, UserOwns,
      Strings;
    ghost var m, rc, sh := mmu.pages.mem, mmu.pages.counts[..], mmu.shape;
    argsNew, first := [], 0;
    assert root != 0;
    var page;
    DemandGrows(m, root, start, 1, PagesFor(LayoutLength(args)));
    FirstDemand(m, root, start);
    UserFlags();
    page, oom := mmu.Alloc(root, start, READ + WRITE + USER);
    if oom || page == 0 {
      oom := true;
      return;
    }
    FirstPage(m, rc, mmu.pages.heapBottom, sh, root, start, limit,
              mmu.pages.mem, mmu.pages.counts[..], mmu.shape, page, READ + WRITE + USER);
    AheadMore(m, m, mmu.pages.mem, sh, root, start, 0, start);
    SparedStart(m, sh, root);
    SparedMapped(m, m, mmu.pages.mem, sh, sh, mmu.shape, root, GetVpns(start), page, READ + WRITE + USER);
    var w := new ArgWriter(mmu, root, start, page, limit, Available(rc), m, sh);
    argsNew, first, oom := w.Fill(args);
    if !oom {
      SparedHardware(m, mmu.pages.mem, sh, mmu.shape, root);
      if AllStandard(m, sh) {
        SeesOwned(mmu.pages.mem, root, start, start + LayoutLength(args));
      }
    }
  }

  lemma FirstDemand(m: Mem, root: nat, start: u64)
    ensures Demanded(m, root, start, 1) == 1 + Missing(m, root, GetVpns(start), 0)
    ensures MissingAhead(m, m, root, start, 0)
  {
    hide Missing, GetVpns, Lacking, Tables;
    LackingStart(m, root);
    DemandNext(m, m, root, start, 0, start);
    NoDemand(m, root, start);
  }

  lemma NoDemand(m: Mem, root: nat, start: nat)
    ensures Demanded(m, root, start, 0) == 0
  {
  }

  lemma FirstPage(m: Mem, rc: seq<nat>, bottom: nat, sh: Shape, root: nat, v0: nat, limit: nat,
                  m': Mem, rc': seq<nat>, sh': Shape, page: nat, flags: nat)
    requires root != 0 && IsRoot(sh, root) && v0 < limit <= WINDOW && limit % 4096 == 0 && v0 % 4096 == 0
    requires Unmapped(m, root, v0, limit)
    requires Extends(bottom, rc, m, sh, rc', m', sh') && NewPage(bottom, rc, rc', m', sh', page)
    requires Mapped(m, m', sh, root, GetVpns(v0), page, flags) && LeafFlags(flags) == USER_DATA
    ensures Layout(m', rc', bottom, sh', root, v0, [page], limit)
  {
    hide Descend, GetVpns, Mapped, LeafFlags;
    BackedMore(m, m', sh, root, v0, [], page, flags, limit);
    assert [] + [page] == [page];
  }
}
