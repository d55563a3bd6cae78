/**
 * The translation that a root defines, and its relation to the RISC-V Privileged
 * Architecture v1.12: the algorithm of section 4.3.2 with the Sv39 formats of section 4.4.
 */
module Sv39 {
  import opened Words
  import opened Ram
  import opened DirectMap
  import opened Entries
  import opened Options
  import opened PageTable

  /** The bytes that a leaf of this level maps, and the number of address bits below them. */
  function Span(level: nat): (s: nat)
    requires level <= 2
    ensures s > 0 && Pow2(SpanBits(level)) == s
  {
    Literals();
    if level == 0 then 0x4000_0000 else if level == 1 then 0x20_0000 else 0x1000
  }

  function SpanBits(level: nat): nat
    requires level <= 2
  {
    if level == 0 then 30 else if level == 1 then 21 else 12
  }

  function Low(va: u64, level: nat): (o: u64)
    requires level <= 2
    ensures o < Span(level)
  {
    va % Span(level)
  }

  /** The physical address a found entry gives: its page with the low address bits or-ed in. */
  function Target(f: Found, va: u64): (pa: u64)
    requires f.level <= 2
  {
    Or64(EntryRaw(f.word), Low(va, f.level))
  }

  function Translation(m: Mem, root: nat, va: u64): Option<u64> {
    match Descend(m, root, GetVpns(va), 0)
    case None => None
    case Some(f) =>
      FoundLevel(m, root, GetVpns(va), 0);
      if EntryFrame(f.word) then Some(Target(f, va)) else None
  }

  lemma FoundLevel(m: Mem, page: nat, v: Vpns, level: nat)
    requires level <= 2
    ensures Descend(m, page, v, level).Some? ==> level <= Descend(m, page, v, level).value.level <= 2
    decreases 2 - level
  {
  }

  // ----- the result that mmu_translate returns -----

  /** mmu_translate ors the offset into mmu_entry_phys, which is an alias when the MMU is on. */
  function AliasTarget(f: Found, va: u64, on: bool): u64
    requires f.level <= 2
  {
    Or64(EntryPhys(f.word, on), Low(va, f.level))
  }

  /** That result names the right physical address exactly for pages inside the kernel window. */
  lemma AliasExact(f: Found, va: u64, on: bool)
    requires f.level <= 2
    ensures Safe2Phys(AliasTarget(f, va, on), on) == Target(f, va) <==> !on || EntryRaw(f.word) < WINDOW
  {
    Literals();
    var raw, low := EntryRaw(f.word), Low(va, f.level);
    OrBound(raw, low, 64);
    if on && raw < WINDOW {
      AliasInWindow(raw, low);
      OrBound(raw, low, 38);
    } else if on && raw > KERNEL_SPACE_OFFSET {
      assert AliasTarget(f, va, on) == Or64(raw, low);
    } else if on {
      assert EntryPhys(f.word, on) == 0;
      assert AliasTarget(f, va, on) == low;
    }
  }

  lemma AliasInWindow(raw: u64, low: u64)
    requires raw < WINDOW && low < WINDOW
    ensures Or64(Phys2Safe(raw, true), low) == KERNEL_SPACE_OFFSET + Or64(raw, low)
  {
    Literals();
    DivModUnique(KERNEL_SPACE_OFFSET, WINDOW, 0x3ff_ffff, 0);
    OrHigh(KERNEL_SPACE_OFFSET, raw, low, 38);
  }

  // ----- the standard -----

  predicate Canonical(va: u64) {
    va < 0x40_0000_0000 || va >= 0xffff_ffc0_0000_0000
  }

  /** Bits 63 to 39 are copies of bit 38 (section 4.4.1). */
  lemma CanonicalBits(va: u64)
    ensures Canonical(va) <==> va / 0x40_0000_0000 == (if va / 0x40_0000_0000 % 2 == 0 then 0 else 0x3ff_ffff)
  {
  }

  datatype Verdict = Fault | Leaf(pa: nat) | Next(ppn: nat)

  /** Steps 3, 4, 6 and 8 of section 4.3.2 for one entry read at level i. */
  function Judge(pte: u64, va: u64, i: nat): Verdict
    requires i <= 2
  {
    var v, r, w, x := pte % 2, pte / 2 % 2, pte / 4 % 2, pte / 8 % 2;
    var ppn := pte / 0x400 % 0x1000_0000_0000;
    if v == 0 || (r == 0 && w == 1) || pte / 0x40_0000_0000_0000 != 0 then Fault
    else if r == 1 || x == 1 then
      if ppn % PpnSpan(i) != 0 then Fault
      else Leaf(ppn / PpnSpan(i) * Span(2 - i) + va % Span(2 - i))
    else if i == 0 || pte / 16 % 2 == 1 || pte / 64 % 2 == 1 || pte / 128 % 2 == 1 then Fault
    else Next(ppn)
  }

  /** The walk from the table at physical address a and level i down; None is a fault. */
  function StandardWalk(m: Mem, a: nat, va: u64, i: nat): Option<nat>
    requires i <= 2
    decreases i
  {
    if a !in m then None
    else
      match Judge(Word(m[a], va / Span(2 - i) % 512), va, i)
      case Fault => None
      case Leaf(pa) => Some(pa)
      case Next(ppn) => if i == 0 then None else StandardWalk(m, ppn * 4096, va, i - 1)
  }

  function PpnSpan(i: nat): (s: nat)
    requires i <= 2
    ensures s > 0 && s * 4096 == Span(2 - i)
  {
    if i == 0 then 1 else if i == 1 then 512 else 0x4_0000
  }

  function StandardTranslation(m: Mem, root: nat, va: u64): Option<nat> {
    if Canonical(va) then StandardWalk(m, root, va, 2) else None
  }

  /** What an instruction wants of memory. */
  datatype Access = ToRead | ToWrite | ToRun

  /** Step 5 of section 4.3.2 for an instruction in user mode, MXR clear: the U bit, and R, W or X. */
  predicate UserMay(pte: nat, k: Access) {
    pte / 16 % 2 == 1 && match k { case ToRead => pte / 2 % 2 == 1 case ToWrite => pte / 4 % 2 == 1 case ToRun => pte / 8 % 2 == 1 }
  }

  /** Step 7, on hardware that sets no bits itself: A, and D for a store. */
  predicate Marked(pte: nat, k: Access) {
    pte / 64 % 2 == 1 && (k.ToWrite? ==> pte / 128 % 2 == 1)
  }

  /** The walk for an access in user mode; None is a page fault. */
  function UserWalk(m: Mem, a: nat, va: u64, i: nat, k: Access): Option<nat>
    requires i <= 2
    decreases i
  {
    if a !in m then None
    else
      var pte := Word(m[a], va / Span(2 - i) % 512);
      match Judge(pte, va, i)
      case Fault => None
      case Leaf(pa) => if UserMay(pte, k) && Marked(pte, k) then Some(pa) else None
      case Next(ppn) => if i == 0 then None else UserWalk(m, ppn * 4096, va, i - 1, k)
  }

  function UserTranslation(m: Mem, root: nat, va: u64, k: Access): Option<nat> {
    if Canonical(va) then UserWalk(m, root, va, 2, k) else None
  }

  /** What the code does not look at: reserved bits and encodings, and superpage alignment. */
  predicate StandardWord(e: u64, level: nat)
    requires level <= 2
  {
    && e < 0x40_0000_0000_0000
    && (e / 4 % 2 == 1 ==> e / 2 % 2 == 1)
    && if EntryFrame(e) then EntryRaw(e) % Span(level) == 0
       else level < 2 && e / 16 % 2 == 0 && e / 64 % 2 == 0 && e / 128 % 2 == 0
  }

  predicate CleanWalk(m: Mem, page: nat, v: Vpns, level: nat)
    requires level <= 2
    decreases 2 - level
  {
    page in m && EntryValid(Word(m[page], v[level])) ==>
      var e := Word(m[page], v[level]);
      StandardWord(e, level) && (level < 2 && !EntryFrame(e) ==> CleanWalk(m, EntryRaw(e), v, level + 1))
  }

  /** A superpage or page leaf: `|` is addition exactly when the page is aligned to its span. */
  lemma AlignedTarget(f: Found, va: u64)
    requires f.level <= 2
    requires EntryRaw(f.word) % Span(f.level) == 0
    ensures Target(f, va) == EntryRaw(f.word) + va % Span(f.level)
  {
    OrDisjoint(EntryRaw(f.word), Low(va, f.level), SpanBits(f.level));
  }

  lemma StandardAddress(e: u64, level: nat)
    requires level <= 2 && e < 0x40_0000_0000_0000
    ensures var ppn := e / 0x400 % 0x1000_0000_0000;
      && EntryRaw(e) == ppn * 4096
      && (EntryRaw(e) % Span(level) == 0 <==> ppn % PpnSpan(2 - level) == 0)
      && (ppn % PpnSpan(2 - level) == 0 ==> ppn / PpnSpan(2 - level) * Span(level) == ppn * 4096)
  {
    EntryFields(e);
    var ppn, s := e / 0x400, PpnSpan(2 - level);
    assert ppn % 0x1000_0000_0000 == ppn == ppn % 0x10_0000_0000_0000;
    PageScale(ppn, s);
  }

  lemma PageScale(ppn: nat, s: nat)
    requires s > 0
    ensures ppn * 4096 % (s * 4096) == ppn % s * 4096
    ensures ppn % s == 0 ==> ppn / s * (s * 4096) == ppn * 4096
  {
    var q, r := ppn / s, ppn % s;
    assert ppn == s * q + r;
    assert ppn * 4096 == (s * 4096) * q + r * 4096;
    DivModUnique(ppn * 4096, s * 4096, q, r * 4096);
  }

  /** What the standard makes of one entry, in terms of what the code makes of it. */
  lemma JudgeMeans(l: Loc, e: u64, va: u64, level: nat)
    requires level <= 2
    ensures Judge(e, va, 2 - level) ==
      if !EntryValid(e) || !StandardWord(e, level) then Fault
      else if EntryFrame(e) then Leaf(Target(Found(l, level, e), va))
      else Next(EntryRaw(e) / 4096)
  {
    EntryFields(e);
    if e < 0x40_0000_0000_0000 {
      StandardAddress(e, level);
      if StandardWord(e, level) && EntryFrame(e) {
        AlignedTarget(Found(l, level, e), va);
      }
    }
  }

  /** mmu_translate is the standard's translation restricted to the walks the standard accepts. */
  lemma {:induction false} StandardStep(m: Mem, a: nat, va: u64, level: nat)
    requires level <= 2
    ensures StandardWalk(m, a, va, 2 - level) ==
      if !CleanWalk(m, a, GetVpns(va), level) then None
      else match Descend(m, a, GetVpns(va), level)
        case None => None
        case Some(f) => if f.level <= 2 && EntryFrame(f.word) then Some(Target(f, va)) else None
    decreases 2 - level
  {
    if a in m {
      VpnFields(va);
      var i := GetVpns(va)[level];
      var e := Word(m[a], i);
      assert i == va / Span(level) % 512;
      JudgeMeans(Loc(a, i), e, va, level);
      if EntryValid(e) && StandardWord(e, level) && !EntryFrame(e) {
        StandardAddress(e, level);
        StandardStep(m, a := EntryRaw(e), va := va, level := level + 1);
      }
    }
  }

  lemma Sv39Exact(m: Mem, root: nat, va: u64)
    ensures StandardTranslation(m, root, va) ==
      if Canonical(va) && CleanWalk(m, root, GetVpns(va), 0) then Translation(m, root, va) else None
  {
    StandardStep(m, root, va, 0);
    FoundLevel(m, root, GetVpns(va), 0);
  }

  lemma IndexIs(va: u64, level: nat)
    requires level <= 2
    ensures GetVpns(va)[level] == va / Span(level) % 512
  {
    VpnFields(va);
  }

  /** The first entry of a walk for an access in user mode. */
  lemma UserAt(m: Mem, a: nat, va: u64, level: nat, k: Access)
    requires level <= 2 && a in m
    ensures var e := Word(m[a], GetVpns(va)[level]); var f := Found(Loc(a, GetVpns(va)[level]), level, e);
      && UserWalk(m, a, va, 2 - level, k) ==
        (if !EntryValid(e) || !StandardWord(e, level) then None
         else if EntryFrame(e) then (if UserMay(e, k) && Marked(e, k) then Some(Target(f, va)) else None)
         else if level == 2 then None else UserWalk(m, EntryRaw(e), va, 1 - level, k))
      && StandardWalk(m, a, va, 2 - level) ==
        (if !EntryValid(e) || !StandardWord(e, level) then None
         else if EntryFrame(e) then Some(Target(f, va))
         else if level == 2 then None else StandardWalk(m, EntryRaw(e), va, 1 - level))
      && Descend(m, a, GetVpns(va), level) ==
        (if !EntryValid(e) then None else if EntryFrame(e) || level == 2 then Some(f)
         else Descend(m, EntryRaw(e), GetVpns(va), level + 1))
  {
    hide UserMay, Marked, Target, Judge, EntryFrame, EntryValid, EntryRaw, GetVpns, Span, StandardWord;
    IndexIs(va, level);
    var i := GetVpns(va)[level];
    var e := Word(m[a], i);
    JudgeMeans(Loc(a, i), e, va, level);
    if EntryValid(e) && StandardWord(e, level) {
      StandardPage(e, level);
    }
  }

  lemma StandardPage(e: u64, level: nat)
    requires level <= 2 && StandardWord(e, level)
    ensures EntryRaw(e) / 4096 * 4096 == EntryRaw(e)
  {
    StandardAddress(e, level);
  }

  /** An access in user mode gets through where the walk does and ends at a word that lets it. */
  lemma {:induction false} UserStep(m: Mem, a: nat, va: u64, level: nat, k: Access)
    requires level <= 2
    ensures UserWalk(m, a, va, 2 - level, k) ==
      match Descend(m, a, GetVpns(va), level)
      case None => None
      case Some(f) => if UserMay(f.word, k) && Marked(f.word, k) then StandardWalk(m, a, va, 2 - level) else None
    decreases 2 - level
  {
    if a in m {
      hide UserWalk, StandardWalk, Descend, UserMay, Marked, Target, EntryFrame, EntryValid, EntryRaw, GetVpns, StandardWord;
      UserAt(m, a, va, level, k);
      if level < 2 {
        UserStep(m, EntryRaw(Word(m[a], GetVpns(va)[level])), va, level + 1, k);
      }
    }
  }

  lemma UserExact(m: Mem, root: nat, va: u64, k: Access)
    ensures UserTranslation(m, root, va, k) ==
      match Descend(m, root, GetVpns(va), 0)
      case None => None
      case Some(f) => if UserMay(f.word, k) && Marked(f.word, k) then StandardTranslation(m, root, va) else None
  {
    UserStep(m, root, va, 0, k);
  }
}
