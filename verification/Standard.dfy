/**
 * What keeps the kernel's own tables within the RISC-V Privileged Architecture v1.12, section 4.4: every valid word
 * of a table is one that the hardware reads as mmu_translate does.
 */
module Standard {
  import opened Words
  import opened Ram
  import opened DirectMap
  import opened Entries
  import opened Options
  import opened PageTable
  import opened Sv39
  import opened Mapping

  /** Every valid word of every table is standard at the table's level. */
  ghost predicate AllStandard(m: Mem, sh: Shape) {
    forall a, i {:trigger WordOk(m, sh, a, i)} :: a in sh && 0 <= i < 512 ==> WordOk(m, sh, a, i)
  }

  predicate WordOk(m: Mem, sh: Shape, a: nat, i: nat)
    requires i < 512
  {
    a in sh && a in m && |sh[a].path| <= 2 ==> Fits(Word(m[a], i), |sh[a].path|)
  }

  /** The standard accepts the word; links have no flag but V. */
  predicate Fits(e: u64, level: nat)
    requires level <= 2
  {
    EntryValid(e) ==> StandardWord(e, level) && (EntryFrame(e) || e % 1024 == VALID)
  }

  /** Leaves readable, writable or executable, never writable alone, on pages of the 56-bit address space. */
  predicate GoodFlags(flags: nat) {
    flags / 2 % 8 != 0 && (flags / 4 % 2 == 1 ==> flags / 2 % 2 == 1)
  }

  predicate GoodLeaf(flags: nat, physical: u64) {
    GoodFlags(flags) && physical < 0x100_0000_0000_0000
  }

  predicate GoodRanges(ranges: seq<Range>) {
    forall i :: 0 <= i < |ranges| ==> GoodLeaf(ranges[i].flags, ranges[i].end)
  }

  /** On the kernel's own tables the hardware translates as mmu_translate does. */
  lemma HardwareAgrees(m: Mem, sh: Shape, root: nat, va: u64)
    requires Tree(m, sh) && AllStandard(m, sh) && IsRoot(sh, root)
    ensures StandardTranslation(m, root, va) == if Canonical(va) then Translation(m, root, va) else None
  {
    hide StandardTranslation, StandardWord;
    assert Hangs(m, sh, root) && GetVpns(va)[..0] == [];
    Clean(m, sh, root, GetVpns(va));
    Sv39Exact(m, root, va);
  }

  lemma {:induction false} Clean(m: Mem, sh: Shape, a: nat, v: Vpns)
    requires Tree(m, sh) && AllStandard(m, sh) && a in sh && v[..|sh[a].path|] == sh[a].path
    ensures CleanWalk(m, a, v, |sh[a].path|)
    decreases 2 - |sh[a].path|
  {
    hide StandardWord;
    var level := |sh[a].path|;
    var e := Word(m[a], v[level]);
    assert WordOk(m, sh, a, v[level]);
    if IsLink(e) && level < 2 {
      assert LinkOk(m, sh, a, v[level]);
      assert v[..level + 1] == v[..level] + [v[level]];
      Clean(m, sh, EntryRaw(e), v);
    }
  }

  // ----- the words that the kernel writes -----

  lemma SmallWord(e: u64, phys: u64)
    requires phys < 0x100_0000_0000_0000
    ensures WithPhys(e, phys) < 0x40_0000_0000_0000
  {
    PhysBounds(e, phys);
    assert e % 1024 < 1024 && (phys - phys % 4096) == 4096 * (phys / 4096);
  }

  lemma PlainLink(b: u64, level: nat)
    requires b < 0x40_0000_0000_0000 && b % 1024 == 1 && level < 2
    ensures Fits(b, level)
  {
    hide EntryValid, EntryFrame, EntryRaw;
    FlagTests(b);
    TenBits(b);
  }

  lemma LinkFits(e: u64, t: nat, level: nat)
    requires 0 < t < WINDOW && t % 4096 == 0 && level < 2
    ensures Fits(WithPhys(WithFlags(e, VALID), t), level)
  {
    hide WithPhys, WithFlags, EntryValid, EntryFrame, EntryRaw;
    var b := WithPhys(WithFlags(e, VALID), t);
    SmallWord(WithFlags(e, VALID), t);
    EntryBuilt(e, VALID, t);
    PlainLink(b, level);
  }

  lemma FlagBit(b: nat, d: nat, n: nat)
    requires d > 0 && 2 * d * n == 1024
    ensures b / d % 2 == b % 1024 / d % 2
  {
    var q, r := b / 1024, b % 1024;
    var s := r / d;
    calc {
      1024 * q;
      (2 * d * n) * q;
      d * (2 * (n * q));
    }
    assert d * (2 * (n * q) + s) == d * (2 * (n * q)) + d * s;
    DivModUnique(b, d, 2 * (n * q) + s, r % d);
  }

  lemma FlagsSmall(e: u64, flags: nat)
    requires e < 0x40_0000_0000_0000
    ensures WithFlags(e, flags) < 0x40_0000_0000_0000
  {
    SplitBounds(e, flags);
    assert e - e % 1024 == 1024 * (e / 1024) && e / 1024 < 0x1000_0000_0000;
  }

  lemma TenBits(b: nat)
    ensures b / 4 % 2 == b % 1024 / 4 % 2 && b / 2 % 2 == b % 1024 / 2 % 2
    ensures b / 16 % 2 == b % 1024 / 16 % 2 && b / 64 % 2 == b % 1024 / 64 % 2 && b / 128 % 2 == b % 1024 / 128 % 2
  {
    FlagBit(b, 2, 256);
    FlagBit(b, 4, 128);
    FlagBit(b, 16, 32);
    FlagBit(b, 64, 8);
    FlagBit(b, 128, 4);
  }

  lemma LeafBits(flags: nat)
    ensures LeafFlags(flags) / 4 % 2 == flags / 4 % 2 && LeafFlags(flags) / 2 % 2 == flags / 2 % 2
  {
    hide And, Or;
    var b := VALID + ACCESSED + DIRTY;
    assert Pow2(1) == 2 && Pow2(2) == 4;
    OrBits(flags, b, 1);
    OrBits(flags, b, 2);
    TenBits(Or(flags, b));
  }

  lemma LeafFits(e: u64, flags: nat, physical: u64)
    requires GoodLeaf(flags, physical)
    ensures Fits(WithPhys(WithFlags(e, Or(flags, VALID + ACCESSED + DIRTY)), physical), 2)
  {
    hide And, Or, Pow2, WithPhys, WithFlags;
    var f := Or(flags, VALID + ACCESSED + DIRTY);
    var b := WithPhys(WithFlags(e, f), physical);
    SmallWord(WithFlags(e, f), physical);
    EntryBuilt(e, f, physical);
    LeafFlagsValid(flags, b);
    LeafBits(flags);
    TenBits(b);
  }

  lemma FlagsFit(e: u64, flags: nat, level: nat)
    requires level <= 2 && EntryValid(e) && EntryFrame(e) && StandardWord(e, level) && GoodFlags(flags)
    ensures Fits(WithFlags(e, Or(flags, VALID + ACCESSED + DIRTY)), level)
  {
    hide And, Or, Pow2, WithFlags, EntryRaw, EntryFrame, EntryValid;
    var f := Or(flags, VALID + ACCESSED + DIRTY);
    var b := WithFlags(e, f);
    FlagsSmall(e, f);
    FlagsReplaced(e, f);
    LeafFlagsValid(flags, b);
    LeafBits(flags);
    TenBits(b);
  }

  lemma DirectFits(i: nat)
    requires 256 <= i < 512
    ensures Fits(DirectWord(i), 0)
  {
    hide DirectWord;
    DirectWordFields(i);
    var e := DirectWord(i);
    TenBits(e);
    DivModUnique(e, 1024, (i - 256) * 0x4_0000, 0x27);
    DivModUnique(EntryRaw(e), Span(0), i - 256, 0);
  }

  // ----- what a change to a table keeps -----

  lemma StoreFits(m: Mem, sh: Shape, l: Loc, e: u64)
    requires AllStandard(m, sh) && Inside(m, l) && l.page in sh && |sh[l.page].path| <= 2 && Fits(e, |sh[l.page].path|)
    ensures AllStandard(Store(m, l, e), sh)
  {
    hide Fits;
    LoadOfStore(m, l, e);
    forall a, i | a in sh && 0 <= i < 512 ensures WordOk(Store(m, l, e), sh, a, i) {
      assert WordOk(m, sh, a, i);
      if a in m {
        assert Load(Store(m, l, e), Loc(a, i)) == if Loc(a, i) == l then e else Load(m, Loc(a, i));
      }
    }
  }

  lemma SameFits(m: Mem, m': Mem, sh: Shape)
    requires AllStandard(m, sh) && forall a :: a in sh ==> a in m && a in m' && m'[a] == m[a]
    ensures AllStandard(m', sh)
  {
    hide Fits;
    forall a, i | a in sh && 0 <= i < 512 ensures WordOk(m', sh, a, i) {
      assert WordOk(m, sh, a, i);
    }
  }

  lemma TableFits(m: Mem, sh: Shape, l: Loc, t: nat)
    requires AllStandard(m, sh) && l.page in sh && t !in sh && forall a :: a in sh ==> a in m
    ensures AllStandard(m[t := ZeroPage()], Linked(sh, l, t))
  {
    hide Fits;
    forall a, i {:trigger WordOk(m[t := ZeroPage()], Linked(sh, l, t), a, i)} | a in Linked(sh, l, t) && 0 <= i < 512
      ensures WordOk(m[t := ZeroPage()], Linked(sh, l, t), a, i)
    {
      if a == t {
        ZeroFits(i);
      } else {
        assert WordOk(m, sh, a, i);
      }
    }
  }

  lemma ZeroFits(i: nat)
    requires i < 512
    ensures forall level :: 0 <= level <= 2 ==> Fits(Word(ZeroPage(), i), level)
  {
    ZeroWord(i);
    InvalidZero();
  }

  /** A new inner table below entry l. */
  lemma NewTableFits(m: Mem, sh: Shape, l: Loc, t: nat)
    requires Tree(m, sh) && l.page in sh && l.idx < 512 && |sh[l.page].path| < 2 && t in m && t !in sh
    requires 0 < t < WINDOW && t % 4096 == 0
    ensures AllStandard(m, sh) ==>
      AllStandard(Store(m[t := ZeroPage()], l, WithPhys(WithFlags(Load(m, l), VALID), t)), Linked(sh, l, t))
  {
    hide Fits;
    if AllStandard(m, sh) {
      TableFits(m, sh, l, t);
      LinkFits(Load(m, l), t, |sh[l.page].path|);
      StoreFits(m[t := ZeroPage()], Linked(sh, l, t), l, WithPhys(WithFlags(Load(m, l), VALID), t));
    }
  }

  /** A leaf that mmu_map writes. */
  lemma NewLeafFits(m: Mem, sh: Shape, l: Loc, flags: nat, physical: u64)
    requires Tree(m, sh) && l.page in sh && l.idx < 512 && |sh[l.page].path| == 2 && GoodLeaf(flags, physical)
    ensures AllStandard(m, sh) ==>
      AllStandard(Store(m, l, WithPhys(WithFlags(Load(m, l), Or(flags, VALID + ACCESSED + DIRTY)), physical)), sh)
  {
    hide Fits;
    if AllStandard(m, sh) {
      LeafFits(Load(m, l), flags, physical);
      StoreFits(m, sh, l, WithPhys(WithFlags(Load(m, l), Or(flags, VALID + ACCESSED + DIRTY)), physical));
    }
  }

  /** A found entry is a standard leaf, and its table stays standard if the word that replaces it is. */
  lemma FoundFits(m: Mem, sh: Shape, root: nat, v: Vpns, e: u64)
    requires Tree(m, sh) && IsRoot(sh, root) && Descend(m, root, v, 0).Some? && AllStandard(m, sh)
    ensures var f := Descend(m, root, v, 0).value;
      && f.level <= 2 && Inside(m, f.loc) && EntryValid(f.word) && EntryFrame(f.word) && StandardWord(f.word, f.level)
      && (Fits(e, f.level) ==> AllStandard(Store(m, f.loc, e), sh))
  {
    assert Hangs(m, sh, root) && v[..0] == sh[root].path;
    FoundPlace(m, sh, root, v);
    var f := Descend(m, root, v, 0).value;
    assert WordOk(m, sh, f.loc.page, f.loc.idx);
    if Fits(e, f.level) {
      StoreFits(m, sh, f.loc, e);
    }
  }

  lemma RemovedFits(m: Mem, sh: Shape, root: nat, v: Vpns)
    requires Tree(m, sh) && IsRoot(sh, root) && Descend(m, root, v, 0).Some?
    ensures var f := Descend(m, root, v, 0).value;
      Inside(m, f.loc) && (AllStandard(m, sh) ==> AllStandard(Store(m, f.loc, WithFlags(f.word, 0)), sh))
  {
    hide AllStandard;
    assert Hangs(m, sh, root) && v[..0] == sh[root].path;
    FoundPlace(m, sh, root, v);
    var f := Descend(m, root, v, 0).value;
    FlagsReplaced(f.word, 0);
    FlagTests(WithFlags(f.word, 0));
    if AllStandard(m, sh) {
      FoundFits(m, sh, root, v, WithFlags(f.word, 0));
    }
  }

  lemma ChangedFits(m: Mem, sh: Shape, root: nat, v: Vpns, flags: nat)
    requires Tree(m, sh) && IsRoot(sh, root) && Descend(m, root, v, 0).Some? && GoodFlags(flags)
    ensures var f := Descend(m, root, v, 0).value;
      Inside(m, f.loc) &&
      (AllStandard(m, sh) ==> AllStandard(Store(m, f.loc, WithFlags(f.word, Or(flags, VALID + ACCESSED + DIRTY))), sh))
  {
    hide AllStandard, Fits, GoodFlags, StandardWord;
    assert Hangs(m, sh, root) && v[..0] == sh[root].path;
    FoundPlace(m, sh, root, v);
    var f := Descend(m, root, v, 0).value;
    if AllStandard(m, sh) {
      FoundFits(m, sh, root, v, WithFlags(f.word, Or(flags, VALID + ACCESSED + DIRTY)));
      FlagsFit(f.word, flags, f.level);
    }
  }

  /** Data pages are no tables. */
  lemma DataFits(m: Mem, sh: Shape, page: nat, p: Page)
    requires Tree(m, sh) && page !in sh
    ensures AllStandard(m, sh) ==> AllStandard(m[page := p], sh)
  {
    hide AllStandard;
    if AllStandard(m, sh) {
      SameFits(m, m[page := p], sh);
    }
  }

  lemma TopFits(m: Mem, sh: Shape, t: nat, p: Page)
    requires AllStandard(m, sh) && t !in sh && TopPage(p, 512) && Tree(m, sh)
    ensures AllStandard(m[t := p], sh[t := Node(t, [], 0)])
  {
    hide Fits, DirectWord;
    InvalidZero();
    forall a, i {:trigger WordOk(m[t := p], sh[t := Node(t, [], 0)], a, i)} | a in sh[t := Node(t, [], 0)] && 0 <= i < 512
      ensures WordOk(m[t := p], sh[t := Node(t, [], 0)], a, i)
    {
      if a == t {
        ZeroFits(i);
        ZeroWord(i);
        if i >= 256 {
          DirectFits(i);
        }
      } else {
        assert WordOk(m, sh, a, i);
      }
    }
  }
}
