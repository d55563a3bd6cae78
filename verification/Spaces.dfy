/** Whole runs of page-table operations over any number of address spaces. */
module Spaces {
  import opened Words
  import opened Ram
  import opened DirectMap
  import opened Pages
  import opened Entries
  import opened Options
  import opened PageTable
  import opened Mapping
  import opened Sv39
  import opened Standard
  import opened Demand
  import opened Views
  import opened Mmu

  /** One kernel operation; address spaces are numbered in the order of their creation. */
  datatype Op =
    | MapOp(space: nat, va: u64, physical: u64, flags: nat)
    | AllocOp(space: nat, va: u64, flags: nat)
    | RemoveOp(space: nat, va: u64)
    | FlagsOp(space: nat, va: u64, flags: nat)
    | CreateOp(ranges: seq<Range>)

  /** What mmu_change_flags and create_mmu_table need for the tables to stay trees. */
  predicate Proper(op: Op) {
    match op
    case FlagsOp(_, _, flags) => flags / 2 % 8 != 0
    case CreateOp(ranges) => forall i :: 0 <= i < |ranges| ==> ranges[i].end + PAGE_SIZE <= WORD
    case _ => true
  }

  /** Leaves have flags and addresses that the hardware reads as the kernel does. */
  predicate StandardOp(op: Op) {
    match op
    case MapOp(_, _, physical, flags) => GoodLeaf(flags, physical)
    case AllocOp(_, _, flags) => GoodFlags(flags)
    case FlagsOp(_, _, flags) => GoodFlags(flags)
    case CreateOp(ranges) => GoodRanges(ranges)
    case RemoveOp(_, _) => true
  }

  /** On each space's tables the hardware's translation is mmu_translate's, for every canonical address. */
  ghost predicate HardwareReads(m: Mem, spaces: seq<nat>) {
    forall k, va: u64 :: 0 <= k < |spaces| ==>
      StandardTranslation(m, spaces[k], va) == if Canonical(va) then Translation(m, spaces[k], va) else None
  }

  lemma AllHardware(m: Mem, shape: Shape, spaces: seq<nat>)
    requires Tree(m, shape) && AllStandard(m, shape) && AreSpaces(shape, spaces)
    ensures HardwareReads(m, spaces)
  {
    hide Tree, AllStandard, StandardTranslation, Translation, Canonical;
    forall k, va: u64 | 0 <= k < |spaces|
      ensures StandardTranslation(m, spaces[k], va) == if Canonical(va) then Translation(m, spaces[k], va) else None
    {
      HardwareAgrees(m, shape, spaces[k], va);
    }
  }

  /** The operation is on an address below root entry i of space k. */
  predicate Aims(op: Op, k: nat, i: nat) {
    !op.CreateOp? && op.space == k && GetVpns(op.va)[0] == i
  }

  // ----- what the operations do, without memory -----

  /** What an address space is for the operations: the leaf of each walk, and the tables that it lacks. */
  datatype AddressSpace = AddressSpace(leaves: Space, lacks: Vpns -> nat)

  /** What the outcome of an operation depends on: the page counts and the address spaces. */
  datatype Known = Known(bottom: nat, rc: seq<nat>, spaces: seq<AddressSpace>)

  /** v gets the leaf, and the tables above it, unless it has one. */
  function Attempt(s: AddressSpace, v: Vpns, leaf: Leaf): AddressSpace {
    if s.leaves(v).Some? then s
    else AddressSpace(MapIn(s.leaves, v, leaf), (w: Vpns) => MissingWith(s.lacks(w), Common(v, w), 2))
  }

  /** The leaf of v gets other flags; without the valid bit it is gone, and all that it covered lacks the tables below. */
  function Change(s: AddressSpace, v: Vpns, flags: nat): AddressSpace {
    match s.leaves(v)
    case None => s
    case Some(f) =>
      AddressSpace(Reflag(s.leaves, v, flags),
        (w: Vpns) => if f.level <= 2 && w[..f.level + 1] == v[..f.level + 1] then (if flags % 2 == 1 then 0 else 2 - f.level)
                     else s.lacks(w))
  }

  function Created(ranges: seq<Range>): AddressSpace {
    AddressSpace(MapRanges(NewSpace(), ranges, |ranges|), (w: Vpns) => After(NewLacks(), Walks(ranges, |ranges|), w))
  }

  /** Space n exists and has no leaf for va. */
  predicate Absent(ss: seq<AddressSpace>, n: nat, va: u64) {
    n < |ss| && ss[n].leaves(GetVpns(va)).None?
  }

  /** The pages that an operation takes, or would take. */
  function Cost(k: Known, op: Op): nat {
    match op
    case MapOp(n, va, _, _) => if Absent(k.spaces, n, va) then k.spaces[n].lacks(GetVpns(va)) else 0
    case AllocOp(n, va, _) =>
      if n >= |k.spaces| then 0
      else if !Absent(k.spaces, n, va) then Leaked(k.rc)
      else
        var tables := k.spaces[n].lacks(GetVpns(va));
        tables + (if Available(k.rc) == 0 && tables == 0 then 0 else 1)
    case CreateOp(ranges) => 1 + Tables(NewLacks(), Walks(ranges, |ranges|))
    case _ => 0
  }

  /** It runs out of pages. */
  predicate Short(k: Known, op: Op) {
    Available(k.rc) < Cost(k, op)
  }

  ghost function Changed(k: Known, op: Op): seq<AddressSpace> {
    match op
    case MapOp(n, va, physical, flags) =>
      if n < |k.spaces| then k.spaces[n := Attempt(k.spaces[n], GetVpns(va), PageLeaf(physical, flags))] else k.spaces
    case AllocOp(n, va, flags) =>
      if n < |k.spaces| then k.spaces[n := Attempt(k.spaces[n], GetVpns(va), PageLeaf(PageFor(k.bottom, k.rc), flags))] else k.spaces
    case RemoveOp(n, va) =>
      if n < |k.spaces| then k.spaces[n := Change(k.spaces[n], GetVpns(va), 0)] else k.spaces
    case FlagsOp(n, va, flags) =>
      if n < |k.spaces| then k.spaces[n := Change(k.spaces[n], GetVpns(va), LeafFlags(flags))] else k.spaces
    case CreateOp(ranges) => k.spaces + [Created(ranges)]
  }

  /** What the next operation finds, if this one does not run out of pages. */
  ghost function Next(k: Known, op: Op): Known {
    Known(k.bottom, TakeN(k.rc, Cost(k, op)), Changed(k, op))
  }

  /** What is found after the first n operations. */
  ghost function Folded(k: Known, ops: seq<Op>, n: nat): Known
    requires n <= |ops|
  {
    if n == 0 then k else Next(Folded(k, ops, n - 1), ops[n - 1])
  }

  /** The roots after an operation: create_mmu_table takes its root before all else. */
  ghost function RootsAfter(k: Known, op: Op, roots: seq<nat>): seq<nat> {
    if op.CreateOp? then roots + [PageFor(k.bottom, k.rc)] else roots
  }

  ghost function RootsFolded(k: Known, ops: seq<Op>, roots: seq<nat>, n: nat): seq<nat>
    requires n <= |ops|
  {
    if n == 0 then roots else RootsAfter(Folded(k, ops, n - 1), ops[n - 1], RootsFolded(k, ops, roots, n - 1))
  }

  // ----- what memory has to do with it -----

  /** The tables of each root say what its leaves say. */
  ghost predicate AllShow(m: Mem, spaces: seq<nat>, ss: seq<AddressSpace>) {
    |ss| == |spaces| && forall k {:trigger spaces[k]} {:trigger ss[k]} :: 0 <= k < |spaces| ==> Shows(m, spaces[k], ss[k].leaves)
  }

  ghost predicate LacksAre(m: Mem, root: nat, f: Vpns -> nat) {
    forall w: Vpns {:trigger Missing(m, root, w, 0)} {:trigger f(w)} :: Missing(m, root, w, 0) == f(w)
  }

  /** ... and lack what it says they lack. */
  ghost predicate AllLack(m: Mem, spaces: seq<nat>, ss: seq<AddressSpace>) {
    |ss| == |spaces| && forall k {:trigger spaces[k]} {:trigger ss[k]} :: 0 <= k < |spaces| ==> LacksAre(m, spaces[k], ss[k].lacks)
  }

  /** This is what the next operation on these roots finds. */
  ghost predicate Describes(k: Known, mmu: MmuTables, spaces: seq<nat>)
    reads mmu, mmu.pages, mmu.pages.counts
  {
    && k.bottom == mmu.pages.heapBottom && k.rc == mmu.pages.counts[..]
    && AllShow(mmu.pages.mem, spaces, k.spaces) && AllLack(mmu.pages.mem, spaces, k.spaces)
  }

  /** There is always such a description. */
  lemma Described(mmu: MmuTables, spaces: seq<nat>) returns (k: Known)
    ensures Describes(k, mmu, spaces)
  {
    hide Shows, Missing;
    var m := mmu.pages.mem;
    var ss := seq(|spaces|, i requires 0 <= i < |spaces| => AddressSpace(Seen(m, spaces[i]), Lacks(m, spaces[i])));
    forall i | 0 <= i < |spaces| ensures Shows(m, spaces[i], ss[i].leaves) {
      ShowsSeen(m, spaces[i]);
    }
    k := Known(mmu.pages.heapBottom, mmu.pages.counts[..], ss);
  }

  lemma AsMany(m: Mem, spaces: seq<nat>, ss: seq<AddressSpace>)
    requires AllShow(m, spaces, ss)
    ensures |ss| == |spaces|
  {
    hide Shows;
  }

  /** Then mmu_translate gives what the leaves give, for every address of every space. */
  ghost predicate Translates(m: Mem, spaces: seq<nat>, ss: seq<AddressSpace>) {
    |ss| == |spaces| && forall k, va: u64 {:trigger Translated(ss[k].leaves, va)} :: 0 <= k < |spaces| ==>
      Translation(m, spaces[k], va) == Translated(ss[k].leaves, va)
  }

  lemma ShowTranslates(m: Mem, spaces: seq<nat>, ss: seq<AddressSpace>)
    requires AllShow(m, spaces, ss)
    ensures Translates(m, spaces, ss)
  {
    hide Shows, Translation, Translated;
    forall k, va: u64 | 0 <= k < |spaces| ensures Translation(m, spaces[k], va) == Translated(ss[k].leaves, va) {
      TranslationSeen(m, spaces[k], ss[k].leaves, va);
    }
  }

  /** What a walk of space n finds and lacks. */
  lemma WalkKnown(m: Mem, spaces: seq<nat>, ss: seq<AddressSpace>, n: nat, va: u64)
    requires AllShow(m, spaces, ss) && AllLack(m, spaces, ss) && n < |spaces|
    ensures n < |ss| && Missing(m, spaces[n], GetVpns(va), 0) == ss[n].lacks(GetVpns(va))
    ensures Absent(ss, n, va) <==> Descend(m, spaces[n], GetVpns(va), 0).None?
  {
    hide Descend, Missing, Shows, LeafOf, GetVpns;
    ShowsAt(m, spaces[n], ss[n].leaves, GetVpns(va));
    assert LacksAre(m, spaces[n], ss[n].lacks);
  }

  lemma SameAll(m: Mem, m': Mem, sh: Shape, spaces: seq<nat>, ss: seq<AddressSpace>)
    requires AreSpaces(sh, spaces) && SameWalks(m, m', sh) && AllShow(m, spaces, ss)
    ensures AllShow(m', spaces, ss)
  {
    hide Shows, SameWalks;
    forall k | 0 <= k < |spaces| ensures Shows(m', spaces[k], ss[k].leaves) {
      Views.SameShows(m, m', sh, spaces[k], ss[k].leaves);
    }
  }

  lemma SameLacks(m: Mem, m': Mem, sh: Shape, spaces: seq<nat>, ss: seq<AddressSpace>)
    requires AreSpaces(sh, spaces) && SameMissing(m, m', sh) && AllLack(m, spaces, ss)
    ensures AllLack(m', spaces, ss)
  {
    hide Missing;
    forall k | 0 <= k < |spaces| ensures LacksAre(m', spaces[k], ss[k].lacks) {
      assert LacksAre(m, spaces[k], ss[k].lacks);
    }
  }

  lemma MappedAll(m: Mem, m': Mem, sh: Shape, spaces: seq<nat>, ss: seq<AddressSpace>, k: nat, va: u64, physical: u64, flags: nat)
    requires AreSpaces(sh, spaces) && AllShow(m, spaces, ss) && AllLack(m, spaces, ss) && Absent(ss, k, va)
    requires Mapped(m, m', sh, spaces[k], GetVpns(va), physical, flags)
    requires MissingGrew(m, m', sh, spaces[k], GetVpns(va)) && Missing(m', spaces[k], GetVpns(va), 0) == 0
    ensures AllShow(m', spaces, ss[k := Attempt(ss[k], GetVpns(va), PageLeaf(physical, flags))])
    ensures AllLack(m', spaces, ss[k := Attempt(ss[k], GetVpns(va), PageLeaf(physical, flags))])
  {
    hide Shows, Mapped, MapIn, PageLeaf, Descend, Missing, MissingGrew, LacksAre;
    WalkKnown(m, spaces, ss, k, va);
    forall i | 0 <= i < |spaces|
      ensures Shows(m', spaces[i], ss[k := Attempt(ss[k], GetVpns(va), PageLeaf(physical, flags))][i].leaves)
      ensures LacksAre(m', spaces[i], ss[k := Attempt(ss[k], GetVpns(va), PageLeaf(physical, flags))][i].lacks)
    {
      assert spaces[i] == spaces[k] <==> i == k;
      MappedShows(m, m', sh, spaces[k], GetVpns(va), physical, flags, spaces[i], ss[i].leaves);
      MappedLacks(m, m', sh, spaces[k], GetVpns(va), PageLeaf(physical, flags), spaces[i], ss[i]);
    }
  }

  lemma MappedLacks(m: Mem, m': Mem, sh: Shape, root: nat, v: Vpns, leaf: Leaf, r: nat, s: AddressSpace)
    requires MissingGrew(m, m', sh, root, v) && Missing(m', root, v, 0) == 0 && IsRoot(sh, r) && LacksAre(m, r, s.lacks)
    requires r == root ==> s.leaves(v).None?
    ensures LacksAre(m', r, if r == root then Attempt(s, v, leaf).lacks else s.lacks)
  {
    hide Missing, MissingWith, Common;
  }

  lemma RefusedAll(ss: seq<AddressSpace>, k: nat, va: u64, leaf: Leaf)
    requires k < |ss| && !Absent(ss, k, va)
    ensures ss[k := Attempt(ss[k], GetVpns(va), leaf)] == ss
  {
    hide MapIn, GetVpns;
  }

  lemma RewrittenAll(m: Mem, m': Mem, sh: Shape, spaces: seq<nat>, ss: seq<AddressSpace>, k: nat, va: u64, flags: nat)
    requires AreSpaces(sh, spaces) && AllShow(m, spaces, ss) && AllLack(m, spaces, ss) && k < |spaces|
    requires Descend(m, spaces[k], GetVpns(va), 0).Some?
    requires Rewritten(m, m', sh, spaces[k], GetVpns(va), WithFlags(Descend(m, spaces[k], GetVpns(va), 0).value.word, flags))
    requires RewrittenLacks(m, m', sh, spaces[k], GetVpns(va), WithFlags(Descend(m, spaces[k], GetVpns(va), 0).value.word, flags))
    ensures k < |ss| && AllShow(m', spaces, ss[k := Change(ss[k], GetVpns(va), flags % 1024)])
    ensures AllLack(m', spaces, ss[k := Change(ss[k], GetVpns(va), flags % 1024)])
  {
    hide Shows, Rewritten, RewrittenLacks, Reflag, Descend, WithFlags, LacksAre;
    AsMany(m, spaces, ss);
    WalkKnown(m, spaces, ss, k, va);
    forall i | 0 <= i < |spaces|
      ensures Shows(m', spaces[i], ss[k := Change(ss[k], GetVpns(va), flags % 1024)][i].leaves)
      ensures LacksAre(m', spaces[i], ss[k := Change(ss[k], GetVpns(va), flags % 1024)][i].lacks)
    {
      assert spaces[i] == spaces[k] <==> i == k;
      RewrittenShows(m, m', sh, spaces[k], GetVpns(va), flags, spaces[i], ss[i].leaves);
      ChangedLacks(m, m', sh, spaces[k], GetVpns(va), flags, spaces[i], ss[i]);
    }
  }

  lemma ChangedLacks(m: Mem, m': Mem, sh: Shape, root: nat, v: Vpns, flags: nat, r: nat, s: AddressSpace)
    requires Descend(m, root, v, 0).Some? && IsRoot(sh, r) && LacksAre(m, r, s.lacks) && Shows(m, r, s.leaves)
    requires RewrittenLacks(m, m', sh, root, v, WithFlags(Descend(m, root, v, 0).value.word, flags))
    ensures LacksAre(m', r, if r == root then Change(s, v, flags % 1024).lacks else s.lacks)
  {
    hide Descend, Missing, WithFlags, EntryValid, EntryRaw, LeafOf, Shows;
    var f := Descend(m, root, v, 0).value;
    ShowsAt(m, r, s.leaves, v);
    LeafReflagged(f, flags);
    SameLevel(f);
  }

  lemma NoneAll(m: Mem, spaces: seq<nat>, ss: seq<AddressSpace>, k: nat, va: u64, flags: nat)
    requires AllShow(m, spaces, ss) && AllLack(m, spaces, ss) && k < |spaces| && Descend(m, spaces[k], GetVpns(va), 0).None?
    ensures k < |ss| && ss[k := Change(ss[k], GetVpns(va), flags)] == ss
  {
    hide Shows, Reflag, Descend, LacksAre;
    WalkKnown(m, spaces, ss, k, va);
  }

  /** Every walk below root entry i is as before. */
  ghost predicate Kept(m: Mem, m': Mem, r: nat, i: nat) {
    forall w: Vpns :: w[0] == i ==> Descend(m', r, w, 0) == Descend(m, r, w, 0)
  }

  ghost predicate AreSpaces(shape: Shape, spaces: seq<nat>) {
    && (forall k :: 0 <= k < |spaces| ==> IsRoot(shape, spaces[k]))
    && (forall j, k :: 0 <= j < k < |spaces| ==> spaces[j] != spaces[k])
  }

  /** Only the space and root entry that the operation aims at may have changed. */
  ghost predicate StepKeeps(m: Mem, m': Mem, spaces: seq<nat>, op: Op) {
    forall k, i :: 0 <= k < |spaces| && !Aims(op, k, i) ==> Kept(m, m', spaces[k], i)
  }

  lemma SameKeeps(m: Mem, m': Mem, shape: Shape, spaces: seq<nat>, op: Op)
    requires AreSpaces(shape, spaces) && SameWalks(m, m', shape)
    ensures StepKeeps(m, m', spaces, op)
  {
  }

  lemma MappedKeeps(m: Mem, m': Mem, shape: Shape, spaces: seq<nat>, op: Op, physical: u64, flags: nat)
    requires AreSpaces(shape, spaces) && !op.CreateOp? && op.space < |spaces|
    requires Mapped(m, m', shape, spaces[op.space], GetVpns(op.va), physical, flags)
    ensures StepKeeps(m, m', spaces, op)
  {
  }

  lemma RewrittenKeeps(m: Mem, m': Mem, shape: Shape, spaces: seq<nat>, op: Op, e: u64)
    requires AreSpaces(shape, spaces) && !op.CreateOp? && op.space < |spaces|
    requires Descend(m, spaces[op.space], GetVpns(op.va), 0).Some?
    requires Rewritten(m, m', shape, spaces[op.space], GetVpns(op.va), e)
    ensures StepKeeps(m, m', spaces, op)
  {
    var v := GetVpns(op.va);
    var f := Descend(m, spaces[op.space], v, 0).value;
    forall k, i | 0 <= k < |spaces| && !Aims(op, k, i) ensures Kept(m, m', spaces[k], i) {
      forall w: Vpns | w[0] == i ensures Descend(m', spaces[k], w, 0) == Descend(m, spaces[k], w, 0) {
        if f.level <= 2 && w[..f.level + 1] == v[..f.level + 1] {
          assert w[0] == w[..f.level + 1][0] == v[0];
        }
      }
    }
  }

  /** Every space has the kernel window in its upper half. */
  ghost predicate AllDirect(m: Mem, spaces: seq<nat>) {
    forall k :: 0 <= k < |spaces| ==> DirectMapped(m, spaces[k])
  }

  /** No entry of the window is removed or given other flags; mapping over it may be tried. */
  predicate SparesWindow(op: Op) {
    op.RemoveOp? || op.FlagsOp? ==> GetVpns(op.va)[0] < 256
  }

  /** What leaves the window's own walks alone, or aims elsewhere, keeps the window. */
  lemma WindowStays(m: Mem, m': Mem, shape: Shape, spaces: seq<nat>, op: Op)
    requires AreSpaces(shape, spaces) && StepKeeps(m, m', spaces, op) && AllDirect(m, spaces)
    requires !op.CreateOp? && op.space < |spaces| && GetVpns(op.va)[0] >= 256 ==>
      Descend(m, spaces[op.space], GetVpns(op.va), 0).Some? ==> SameWalks(m, m', shape)
    ensures AllDirect(m', spaces)
  {
    forall k | 0 <= k < |spaces| ensures DirectMapped(m', spaces[k]) {
      forall w: Vpns | w[0] >= 256
        ensures Descend(m', spaces[k], w, 0) == Some(Found(Loc(spaces[k], w[0]), 0, DirectWord(w[0])))
      {
        assert DirectMapped(m, spaces[k]);
        if Aims(op, k, w[0]) {
          assert Descend(m, spaces[k], GetVpns(op.va), 0).Some?;
        } else {
          assert Kept(m, m', spaces[k], w[0]);
        }
      }
    }
  }

  /** In the kernel window every walk finds an entry. */
  lemma WindowFound(m: Mem, spaces: seq<nat>, k: nat, root: u64, va: u64)
    requires AllDirect(m, spaces) && k < |spaces| && root == spaces[k] && GetVpns(va)[0] >= 256
    ensures Refused(m, root, va)
  {
    hide Descend, DirectWord;
    assert DirectMapped(m, root);
  }

  /** mmu_map; in the kernel window it is always refused and changes nothing. */
  method StepMap(mmu: MmuTables, spaces: seq<nat>, op: Op, ghost k: Known) returns (status: int, oom: bool)
    requires mmu.Valid() && AreSpaces(mmu.shape, spaces) && op.MapOp? && op.space < |spaces| && Describes(k, mmu, spaces)
    modifies mmu`shape, mmu.pages`mem, mmu.pages`mutatingHeap, mmu.pages`log, mmu.pages.counts
    ensures mmu.Valid() && AreSpaces(mmu.shape, spaces)
    ensures oom <==> Short(k, op)
    ensures oom ==> SameWalks(old(mmu.pages.mem), mmu.pages.mem, old(mmu.shape))
    ensures !oom ==> Describes(Next(k, op), mmu, spaces)
    ensures !oom ==> status == if Absent(k.spaces, op.space, op.va) then 0 else -1
    ensures StepKeeps(old(mmu.pages.mem), mmu.pages.mem, spaces, op)
    ensures AllDirect(old(mmu.pages.mem), spaces) ==> AllDirect(mmu.pages.mem, spaces)
    ensures AllDirect(old(mmu.pages.mem), spaces) && GetVpns(op.va)[0] >= 256 ==>
      !oom && status == -1 && mmu.pages.mem == old(mmu.pages.mem) && mmu.pages.counts[..] == old(mmu.pages.counts[..])
    ensures AllStandard(old(mmu.pages.mem), old(mmu.shape)) && StandardOp(op) ==> AllStandard(mmu.pages.mem, mmu.shape)
    ensures Grows(mmu.pages.heapBottom, old(mmu.pages.counts[..]), old(mmu.pages.mem), old(mmu.shape),
                  mmu.pages.counts[..], mmu.pages.mem, mmu.shape)
  {
    hide AllStandard, GoodFlags, AllDirect, AllShow, AllLack, Descend, Missing, MissingGrew, Tree, TablesHeld, Mapped, GetVpns,
      MapIn, PageLeaf, Available, StepKeeps, SameWalks, Extends, Grows, TakeN;
    ghost var rc, m, sh := mmu.pages.counts[..], mmu.pages.mem, mmu.shape;
    RootBelow(mmu, spaces[op.space]);
    WalkKnown(m, spaces, k.spaces, op.space, op.va);
    if AllDirect(m, spaces) && GetVpns(op.va)[0] >= 256 {
      WindowFound(m, spaces, op.space, spaces[op.space], op.va);
    }
    status, oom := mmu.Map(spaces[op.space], op.va, op.physical, op.flags);
    ExtendsRoots(mmu.pages.heapBottom, rc, m, sh, mmu.pages.counts[..], mmu.pages.mem, mmu.shape);
    ExtendsGrows(mmu.pages.heapBottom, rc, m, sh, mmu.pages.counts[..], mmu.pages.mem, mmu.shape);
    TakeNone(rc);
    if oom {
      SameKeeps(m, mmu.pages.mem, sh, spaces, op);
    } else if status != 0 {
      SelfWalks(m, sh);
      SameKeeps(m, mmu.pages.mem, sh, spaces, op);
      RefusedAll(k.spaces, op.space, op.va, PageLeaf(op.physical, op.flags));
    } else {
      MappedKeeps(m, mmu.pages.mem, sh, spaces, op, op.physical, op.flags);
      MappedAll(m, mmu.pages.mem, sh, spaces, k.spaces, op.space, op.va, op.physical, op.flags);
    }
    if AllDirect(m, spaces) {
      WindowStays(m, mmu.pages.mem, sh, spaces, op);
    }
  }

  lemma TakeNone(rc: seq<nat>)
    ensures TakeN(rc, 0) == rc
  {
  }

  lemma SelfWalks(m: Mem, sh: Shape)
    ensures SameWalks(m, m, sh)
  {
  }

  /** What an operation returns when it does not run out of pages: the page of an mmu_alloc that is not refused. */
  ghost function Returned(k: Known, op: Op): nat {
    if op.AllocOp? && Absent(k.spaces, op.space, op.va) then PageFor(k.bottom, k.rc) else 0
  }

  method StepAlloc(mmu: MmuTables, spaces: seq<nat>, op: Op, ghost k: Known) returns (page: nat, oom: bool)
    requires mmu.Valid() && AreSpaces(mmu.shape, spaces) && op.AllocOp? && op.space < |spaces| && Describes(k, mmu, spaces)
    modifies mmu`shape, mmu.pages`mem, mmu.pages`mutatingHeap, mmu.pages`log, mmu.pages.counts
    ensures mmu.Valid() && AreSpaces(mmu.shape, spaces)
    ensures oom <==> Short(k, op)
    ensures oom ==> SameWalks(old(mmu.pages.mem), mmu.pages.mem, old(mmu.shape))
    ensures !oom ==> Describes(Next(k, op), mmu, spaces) && page == Returned(k, op)
    ensures StepKeeps(old(mmu.pages.mem), mmu.pages.mem, spaces, op)
    ensures AllDirect(old(mmu.pages.mem), spaces) ==> AllDirect(mmu.pages.mem, spaces)
    ensures AllStandard(old(mmu.pages.mem), old(mmu.shape)) && StandardOp(op) ==> AllStandard(mmu.pages.mem, mmu.shape)
    ensures Grows(mmu.pages.heapBottom, old(mmu.pages.counts[..]), old(mmu.pages.mem), old(mmu.shape),
                  mmu.pages.counts[..], mmu.pages.mem, mmu.shape)
  {
    hide AllStandard, GoodFlags, AllDirect, AllShow, AllLack, Descend, Missing, MissingGrew, SameMissing, Tree, TablesHeld,
      Mapped, GetVpns, MapIn, PageLeaf, StepKeeps, SameWalks, Extends, Grows, HeldIn, Available, TakeN;
    ghost var rc, m, sh := mmu.pages.counts[..], mmu.pages.mem, mmu.shape;
    RootBelow(mmu, spaces[op.space]);
    WalkKnown(m, spaces, k.spaces, op.space, op.va);
    page, oom := mmu.Alloc(spaces[op.space], op.va, op.flags);
    NonePage(k.bottom, rc);
    if oom {
      SameKeeps(m, mmu.pages.mem, sh, spaces, op);
    } else if Refused(m, spaces[op.space], op.va) {
      SameKeeps(m, mmu.pages.mem, sh, spaces, op);
      SameAll(m, mmu.pages.mem, sh, spaces, k.spaces);
      SameLacks(m, mmu.pages.mem, sh, spaces, k.spaces);
      RefusedAll(k.spaces, op.space, op.va, PageLeaf(PageFor(k.bottom, rc), op.flags));
    } else {
      MappedKeeps(m, mmu.pages.mem, sh, spaces, op, page, op.flags);
      MappedAll(m, mmu.pages.mem, sh, spaces, k.spaces, op.space, op.va, page, op.flags);
    }
    if AllDirect(m, spaces) {
      WindowStays(m, mmu.pages.mem, sh, spaces, op);
    }
  }

  lemma NonePage(bottom: nat, rc: seq<nat>)
    ensures Available(rc) == 0 ==> PageFor(bottom, rc) == 0
    ensures Leaked(rc) <= Available(rc)
  {
  }

  method StepLeaf(mmu: MmuTables, spaces: seq<nat>, op: Op, ghost k: Known)
    requires mmu.Valid() && AreSpaces(mmu.shape, spaces) && Proper(op)
    requires (op.RemoveOp? || op.FlagsOp?) && op.space < |spaces| && Describes(k, mmu, spaces)
    modifies mmu.pages`mem
    ensures mmu.Valid()
    ensures Describes(Next(k, op), mmu, spaces)
    ensures StepKeeps(old(mmu.pages.mem), mmu.pages.mem, spaces, op)
    ensures AllStandard(old(mmu.pages.mem), old(mmu.shape)) && StandardOp(op) ==> AllStandard(mmu.pages.mem, mmu.shape)
    ensures Grows(mmu.pages.heapBottom, old(mmu.pages.counts[..]), old(mmu.pages.mem), old(mmu.shape),
                  mmu.pages.counts[..], mmu.pages.mem, mmu.shape)
  {
    hide AllStandard, GoodFlags, AllShow, AllLack, Descend, Missing, Tree, GetVpns, StepKeeps, Or, WithFlags, Rewritten,
      RewrittenLacks, Change, TakeN;
    ghost var m := mmu.pages.mem;
    var root := spaces[op.space];
    RootBelow(mmu, root);
    AsMany(m, spaces, k.spaces);
    TakeNone(k.rc);
    ghost var d := Descend(m, root, GetVpns(op.va), 0);
    ghost var flags := if op.RemoveOp? then 0 else Or(op.flags, VALID + ACCESSED + DIRTY);
    if op.RemoveOp? {
      var physical := mmu.Remove(root, op.va);
    } else {
      mmu.ChangeFlags(root, op.va, op.flags);
    }
    if d.Some? {
      RewrittenKeeps(m, mmu.pages.mem, mmu.shape, spaces, op, WithFlags(d.value.word, flags));
      RewrittenAll(m, mmu.pages.mem, mmu.shape, spaces, k.spaces, op.space, op.va, flags);
    } else {
      NoneAll(m, spaces, k.spaces, op.space, op.va, flags % 1024);
      SelfWalks(m, mmu.shape);
      SameKeeps(m, m, mmu.shape, spaces, op);
    }
  }

  method StepCreate(mmu: MmuTables, spaces: seq<nat>, op: Op, ghost k: Known) returns (spaces': seq<nat>, oom: bool)
    requires mmu.Valid() && AreSpaces(mmu.shape, spaces) && op.CreateOp? && Proper(op) && Describes(k, mmu, spaces)
    modifies mmu`shape, mmu.pages`mem, mmu.pages`mutatingHeap, mmu.pages`log, mmu.pages.counts
    ensures mmu.Valid() && AreSpaces(mmu.shape, spaces') && (oom ==> spaces' == spaces) && spaces <= spaces'
    ensures oom <==> Short(k, op)
    ensures oom ==> SameWalks(old(mmu.pages.mem), mmu.pages.mem, old(mmu.shape))
    ensures !oom ==> Describes(Next(k, op), mmu, spaces')
    ensures !oom ==> spaces' == spaces + [PageFor(k.bottom, k.rc)]
    ensures StepKeeps(old(mmu.pages.mem), mmu.pages.mem, spaces, op)
    ensures AllDirect(old(mmu.pages.mem), spaces) ==> AllDirect(mmu.pages.mem, spaces')
    ensures AllStandard(old(mmu.pages.mem), old(mmu.shape)) && StandardOp(op) ==> AllStandard(mmu.pages.mem, mmu.shape)
    ensures Grows(mmu.pages.heapBottom, old(mmu.pages.counts[..]), old(mmu.pages.mem), old(mmu.shape),
                  mmu.pages.counts[..], mmu.pages.mem, mmu.shape)
  {
    hide AllStandard, GoodRanges, AllDirect, AllShow, AllLack, Descend, Missing, SameMissing, Tree, TablesHeld, StepKeeps,
      SameWalks, Grows, Available, Tables, Walks, MapRanges, Shows, DirectMapped, IdentityAll, LowerEmpty, Lacking, TakeN,
      PageFor;
    ghost var m, sh := mmu.pages.mem, mmu.shape;
    var root;
    root, oom := mmu.CreateTable(op.ranges);
    SameKeeps(m, mmu.pages.mem, sh, spaces, op);
    SameAll(m, mmu.pages.mem, sh, spaces, k.spaces);
    SameLacks(m, mmu.pages.mem, sh, spaces, k.spaces);
    if AllDirect(m, spaces) {
      WindowStays(m, mmu.pages.mem, sh, spaces, op);
    }
    spaces' := spaces;
    if !oom {
      spaces' := spaces + [root];
      CreatedLacks(mmu.pages.mem, root, op.ranges);
      OneSpaceMore(mmu.pages.mem, spaces, root, k.spaces, Created(op.ranges));
    }
  }

  lemma CreatedLacks(m: Mem, root: nat, ranges: seq<Range>)
    requires Lacking(m, root, NewLacks(), Walks(ranges, |ranges|))
    ensures LacksAre(m, root, Created(ranges).lacks)
  {
    hide Missing, After, Walks;
  }

  lemma OneSpaceMore(m: Mem, spaces: seq<nat>, root: nat, ss: seq<AddressSpace>, s: AddressSpace)
    requires AllShow(m, spaces, ss) && Shows(m, root, s.leaves) && AllLack(m, spaces, ss) && LacksAre(m, root, s.lacks)
    ensures AllShow(m, spaces + [root], ss + [s]) && AllLack(m, spaces + [root], ss + [s])
    ensures AllDirect(m, spaces) && DirectMapped(m, root) ==> AllDirect(m, spaces + [root])
  {
    hide Shows, DirectMapped, LacksAre;
  }

  /** One operation. It does what Next says, unless it runs out of pages. */
  method Step(mmu: MmuTables, spaces: seq<nat>, op: Op, ghost k: Known)
    returns (spaces': seq<nat>, page: nat, oom: bool)
    requires mmu.Valid() && AreSpaces(mmu.shape, spaces) && Proper(op) && Describes(k, mmu, spaces)
    modifies mmu`shape, mmu.pages`mem, mmu.pages`mutatingHeap, mmu.pages`log, mmu.pages.counts
    ensures mmu.Valid() && spaces <= spaces' && AreSpaces(mmu.shape, spaces') && (oom ==> spaces' == spaces)
    ensures oom <==> Short(k, op)
    ensures oom ==> SameWalks(old(mmu.pages.mem), mmu.pages.mem, old(mmu.shape))
    ensures !oom ==> Describes(Next(k, op), mmu, spaces') && page == Returned(k, op)
    ensures !oom ==> spaces' == RootsAfter(k, op, spaces)
    ensures StepKeeps(old(mmu.pages.mem), mmu.pages.mem, spaces, op)
    ensures AllDirect(old(mmu.pages.mem), spaces) && SparesWindow(op) ==> AllDirect(mmu.pages.mem, spaces')
    ensures AllStandard(old(mmu.pages.mem), old(mmu.shape)) && StandardOp(op) ==> AllStandard(mmu.pages.mem, mmu.shape)
    ensures Grows(mmu.pages.heapBottom, old(mmu.pages.counts[..]), old(mmu.pages.mem), old(mmu.shape),
                  mmu.pages.counts[..], mmu.pages.mem, mmu.shape)
  {
    hide AllStandard, StandardOp, AllDirect, AllShow, AllLack, Descend, Missing, Tree, TablesHeld, StepKeeps, SameWalks, Grows,
      Available, HeldIn, AreSpaces, Attempt, Change, MapRanges, PageLeaf, GetVpns, Tables, Walks, TakeN, PageFor;
    ghost var m, sh := mmu.pages.mem, mmu.shape;
    spaces', page, oom := spaces, 0, false;
    AsMany(m, spaces, k.spaces);
    if op.CreateOp? {
      spaces', oom := StepCreate(mmu, spaces, op, k);
    } else if op.space < |spaces| {
      if op.MapOp? {
        var status;
        status, oom := StepMap(mmu, spaces, op, k);
      } else if op.AllocOp? {
        page, oom := StepAlloc(mmu, spaces, op, k);
      } else {
        StepLeaf(mmu, spaces, op, k);
        if AllDirect(m, spaces) && SparesWindow(op) {
          WindowStays(m, mmu.pages.mem, sh, spaces, op);
        }
      }
    } else {
      SelfWalks(m, sh);
      SameKeeps(m, m, sh, spaces, op);
      SelfGrows(mmu.pages.heapBottom, mmu.pages.counts[..], m, sh);
      TakeNone(k.rc);
    }
  }

  lemma RootBelow(mmu: MmuTables, root: nat)
    requires mmu.Valid() && IsRoot(mmu.shape, root)
    ensures 0 < root < WINDOW
  {
  }

  /**
   * A run goes on up to the first operation that runs out of pages. What each operation finds, its pages, the leaves of
   * every address space and the tables that its walks lack, is that of folding the operations before it over the start;
   * so mmu_translate translates every address as the folded space does. The tables stay unshared trees on held pages;
   * every walk below a root entry that no operation aimed at is as before, and the kernel windows stay as long as no
   * operation removes or re-flags an upper-half entry. While leaves have sane flags and addresses, the hardware reads
   * the tables as mmu_translate does.
   */
  method Run(mmu: MmuTables, spaces: seq<nat>, ops: seq<Op>, ghost k: Known) returns (spaces': seq<nat>, done: nat)
    requires mmu.Valid() && AreSpaces(mmu.shape, spaces) && (forall n :: 0 <= n < |ops| ==> Proper(ops[n]))
    requires Describes(k, mmu, spaces)
    modifies mmu`shape, mmu.pages`mem, mmu.pages`mutatingHeap, mmu.pages`log, mmu.pages.counts
    ensures mmu.Valid() && spaces <= spaces' && AreSpaces(mmu.shape, spaces') && done <= |ops|
    ensures spaces' == RootsFolded(k, ops, spaces, done)
    ensures forall n :: 0 <= n < done ==> !Short(Folded(k, ops, n), ops[n])
    ensures done < |ops| ==> Short(Folded(k, ops, done), ops[done])
    ensures done == |ops| ==> Describes(Folded(k, ops, done), mmu, spaces')
    ensures AllShow(mmu.pages.mem, spaces', Folded(k, ops, done).spaces)
    ensures Translates(mmu.pages.mem, spaces', Folded(k, ops, done).spaces)
    ensures forall j, i :: 0 <= j < |spaces| && (forall n :: 0 <= n < done ==> !Aims(ops[n], j, i)) ==>
      Kept(old(mmu.pages.mem), mmu.pages.mem, spaces[j], i)
    ensures AllDirect(old(mmu.pages.mem), spaces) && (forall n :: 0 <= n < done ==> SparesWindow(ops[n])) ==>
      AllDirect(mmu.pages.mem, spaces')
    ensures AllStandard(old(mmu.pages.mem), old(mmu.shape)) && (forall n :: 0 <= n <= done && n < |ops| ==> StandardOp(ops[n])) ==>
      AllStandard(mmu.pages.mem, mmu.shape) && HardwareReads(mmu.pages.mem, spaces')
  {
    hide AllStandard, StandardOp, HardwareReads, AllShow, AllLack, Translates, Next, AllDirect, SameWalks, StepKeeps, Kept,
      Aims, Grows, Short, Tree, TablesHeld, Proper, SparesWindow, AreSpaces, Pages.Available, Returned, RootsAfter;
    spaces', done := spaces, 0;
    ghost var m, sh := mmu.pages.mem, mmu.shape;
    forall j, i | 0 <= j < |spaces| ensures Kept(m, m, spaces[j], i) {
      SelfKept(m, spaces[j], i);
    }
    while done < |ops|
      invariant 0 <= done <= |ops| && mmu.Valid() && spaces <= spaces' && AreSpaces(mmu.shape, spaces')
      invariant spaces' == RootsFolded(k, ops, spaces, done)
      invariant forall n :: 0 <= n < done ==> !Short(Folded(k, ops, n), ops[n])
      invariant Describes(Folded(k, ops, done), mmu, spaces')
      invariant forall j, i :: 0 <= j < |spaces| && (forall n :: 0 <= n < done ==> !Aims(ops[n], j, i)) ==>
        Kept(m, mmu.pages.mem, spaces[j], i)
      invariant AllDirect(m, spaces) && (forall n :: 0 <= n < done ==> SparesWindow(ops[n])) ==>
        AllDirect(mmu.pages.mem, spaces')
      invariant AllStandard(m, sh) && (forall n :: 0 <= n < done ==> StandardOp(ops[n])) ==>
        AllStandard(mmu.pages.mem, mmu.shape)
    {
      ghost var m1, sh1, sp1, now := mmu.pages.mem, mmu.shape, spaces', Folded(k, ops, done);
      var page, oom;
      spaces', page, oom := Step(mmu, spaces', ops[done], now);
      if oom {
        OutKeeps(m, m1, mmu.pages.mem, sh1, spaces, spaces', now.spaces);
        ShowTranslates(mmu.pages.mem, spaces', now.spaces);
        if AllStandard(mmu.pages.mem, mmu.shape) {
          AllHardware(mmu.pages.mem, mmu.shape, spaces');
        }
        return;
      }
      forall j, i | 0 <= j < |spaces| && (forall n :: 0 <= n < done + 1 ==> !Aims(ops[n], j, i))
        ensures Kept(m, mmu.pages.mem, spaces[j], i)
      {
        assert spaces[j] == sp1[j];
        KeptThen(m, m1, mmu.pages.mem, sp1, ops[done], j, i);
      }
      done := done + 1;
    }
    ShowTranslates(mmu.pages.mem, spaces', Folded(k, ops, done).spaces);
    if AllStandard(mmu.pages.mem, mmu.shape) {
      AllHardware(mmu.pages.mem, mmu.shape, spaces');
    }
  }

  lemma SelfKept(m: Mem, r: nat, i: nat)
    ensures Kept(m, m, r, i)
  {
  }

  lemma KeptThen(m: Mem, m1: Mem, m2: Mem, spaces: seq<nat>, op: Op, k: nat, i: nat)
    requires k < |spaces| && Kept(m, m1, spaces[k], i) && StepKeeps(m1, m2, spaces, op) && !Aims(op, k, i)
    ensures Kept(m, m2, spaces[k], i)
  {
    hide Aims;
    assert Kept(m1, m2, spaces[k], i);
  }

  /** An operation that runs out of pages changes no walk of any space. */
  lemma OutKeeps(m: Mem, m1: Mem, m2: Mem, sh: Shape, spaces: seq<nat>, spaces': seq<nat>, ss: seq<AddressSpace>)
    requires AreSpaces(sh, spaces') && spaces <= spaces' && SameWalks(m1, m2, sh) && AllShow(m1, spaces', ss)
    ensures AllShow(m2, spaces', ss)
    ensures forall k, i {:trigger Kept(m, m2, spaces[k], i)} :: 0 <= k < |spaces| && Kept(m, m1, spaces[k], i) ==> Kept(m, m2, spaces[k], i)
    ensures AllDirect(m1, spaces') ==> AllDirect(m2, spaces')
  {
    SameAll(m1, m2, sh, spaces', ss);
  }
}
