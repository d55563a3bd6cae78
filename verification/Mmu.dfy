/** kernel/src/mmu.c: the operations on page tables in memory. */
module Mmu {
  import opened Words
  import opened Ram
  import opened DirectMap
  import opened Entries
  import opened Pages
  import opened Options
  import opened PageTable
  import opened Sv39
  import opened Mapping
  import opened Standard
  import opened Demand
  import opened Views

  class MmuTables {
    const pages: PageAllocator
    ghost var shape: Shape

    ghost predicate Valid()
      reads this, pages, pages.counts
    {
      && pages.Valid() && Tree(pages.mem, shape)
      && TablesHeld(pages.counts[..], pages.heapBottom, shape)
    }

    constructor (pages: PageAllocator)
      requires pages.Valid()
      ensures Valid() && this.pages == pages && shape == map[] && AllStandard(pages.mem, shape)
    {
      this.pages := pages;
      shape := map[];
    }

    // ----- entry pointers -----

    /** mmu_root_get_any */
    function RootGetAny(root: u64, i: nat): Option<Loc>
      reads pages
    {
      if root == 0 || i >= ENTRY_COUNT then None
      else Some(Loc(Safe2Phys(Phys2Safe(root, pages.on), pages.on), i))
    }

    /** mmu_entry_get_any */
    function EntryGetAny(entry: u64, i: nat): Option<Loc>
      reads pages
    {
      if !EntryValid(entry) || EntryFrame(entry) || i >= ENTRY_COUNT then None
      else
        var page := EntryPhys(entry, pages.on);
        if page == 0 then None
        else Some(Loc(Safe2Phys(Phys2Safe(page, pages.on), pages.on), i))
    }

    lemma RootPointer(root: u64, i: nat)
      requires Valid() && root in shape && i < 512
      ensures RootGetAny(root, i) == Some(Loc(root, i))
    {
      WindowRoundTrip(root, pages.on);
    }

    /** The address in a link goes through phys2safe twice; for a table page that is harmless. */
    lemma LinkPointer(entry: u64, i: nat)
      requires IsLink(entry) && 0 < EntryRaw(entry) < WINDOW && i < 512
      ensures EntryGetAny(entry, i) == Some(Loc(EntryRaw(entry), i))
    {
      TwiceIsOnce(EntryRaw(entry), pages.on);
      WindowRoundTrip(EntryRaw(entry), pages.on);
    }

    /** One step down the tree along the indices v. */
    lemma ChildEntry(l: Loc, v: Vpns, i: nat)
      requires Valid() && l.page in shape && 1 <= i < 3
      requires shape[l.page].path == v[..i - 1] && l.idx == v[i - 1]
      requires IsLink(Load(pages.mem, l))
      ensures EntryGetAny(Load(pages.mem, l), v[i]).Some?
      ensures var c := EntryGetAny(Load(pages.mem, l), v[i]).value;
        && c.page in shape && c.idx == v[i] && c.page == EntryRaw(Load(pages.mem, l))
        && shape[c.page].root == shape[l.page].root && shape[c.page].path == v[..i]
        && Descend(pages.mem, l.page, v, i - 1) == Descend(pages.mem, c.page, v, i)
        && Missing(pages.mem, l.page, v, i - 1) == Missing(pages.mem, c.page, v, i)
    {
      assert LinkOk(pages.mem, shape, l.page, l.idx);
      assert v[..i] == v[..i - 1] + [v[i - 1]];
      LinkPointer(Load(pages.mem, l), v[i]);
    }

    // ----- the walkers -----

    method WalkToEntry(root: u64, va: u64) returns (entry: Option<Loc>)
      requires Valid() && (root == 0 || IsRoot(shape, root))
      ensures entry == match Descend(pages.mem, root, GetVpns(va), 0) case None => None case Some(f) => Some(f.loc)
    {
      var vpns := GetVpns(va);
      entry := RootGetAny(root, vpns[0]);
      if entry.None? {
        return;
      }
      RootPointer(root, vpns[0]);
      if !EntryValid(Load(pages.mem, entry.value)) {
        return None;
      }
      if EntryFrame(Load(pages.mem, entry.value)) {
        return;
      }
      assert vpns[..0] == [];
      var i := 1;
      while i < 3
        invariant 1 <= i <= 3
        invariant entry.Some? && entry.value.page in shape && entry.value.idx == vpns[i - 1]
        invariant shape[entry.value.page].path == vpns[..i - 1]
        invariant IsLink(Load(pages.mem, entry.value))
        invariant Descend(pages.mem, root, vpns, 0) == Descend(pages.mem, entry.value.page, vpns, i - 1)
      {
        var word := Load(pages.mem, entry.value);
        ChildEntry(entry.value, vpns, i);
        entry := EntryGetAny(word, vpns[i]);
        if !EntryValid(Load(pages.mem, entry.value)) {
          return None;
        }
        if EntryFrame(Load(pages.mem, entry.value)) {
          return;
        }
        i := i + 1;
      }
    }

    method Translate(root: u64, va: u64) returns (ok: bool, pa: u64)
      requires Valid() && (root == 0 || IsRoot(shape, root))
      ensures match Descend(pages.mem, root, GetVpns(va), 0)
        case None => !ok && pa == 0
        case Some(f) => f.level <= 2 && ok == EntryFrame(f.word) && pa == if ok then AliasTarget(f, va, pages.on) else 0
    {
      var vpns := GetVpns(va);
      var offset := GetOffset(va);
      VpnFields(va);
      pa := 0;
      var entry := RootGetAny(root, vpns[0]);
      if entry.None? {
        return false, 0;
      }
      RootPointer(root, vpns[0]);
      if !EntryValid(Load(pages.mem, entry.value)) {
        return false, 0;
      }
      assert vpns[..0] == [];
      var i := 1;
      while i < 3
        invariant 1 <= i <= 3
        invariant entry.Some? && entry.value.page in shape && entry.value.idx == vpns[i - 1]
        invariant shape[entry.value.page].path == vpns[..i - 1]
        invariant EntryValid(Load(pages.mem, entry.value))
        invariant Descend(pages.mem, root, vpns, 0) == Descend(pages.mem, entry.value.page, vpns, i - 1)
      {
        var word := Load(pages.mem, entry.value);
        if EntryFrame(word) {
          var low := CollectOffset(va, vpns, offset, i);
          return true, Or64(EntryPhys(word, pages.on), low);
        }
        ChildEntry(entry.value, vpns, i);
        entry := EntryGetAny(word, vpns[i]);
        if !EntryValid(Load(pages.mem, entry.value)) {
          return false, 0;
        }
        i := i + 1;
      }
      var word := Load(pages.mem, entry.value);
      if !EntryFrame(word) {
        return false, 0;
      }
      return true, Or64(EntryPhys(word, pages.on), offset);
    }

    /** The inner loop of mmu_translate gathers the address bits below a superpage (mmu.c:182-184). */
    method CollectOffset(va: u64, vpns: Vpns, start: nat, i: nat) returns (offset: u64)
      requires 1 <= i <= 2 && vpns == GetVpns(va) && start == va % 0x1000
      ensures offset == Low(va, i - 1)
    {
      VpnFields(va);
      Literals();
      offset := start;
      var j := 2;
      while j >= i
        invariant i - 1 <= j <= 2
        invariant offset == Low(va, j)
        decreases j
      {
        OrCommutes(offset, Shl(vpns[j], 12 + (2 - j) * 9));
        NextField(va, j);
        offset := Or(offset, Shl(vpns[j], 12 + (2 - j) * 9));
        j := j - 1;
      }
    }

    lemma NextField(va: u64, j: nat)
      requires 1 <= j <= 2
      ensures Or(Shl(GetVpns(va)[j], 12 + (2 - j) * 9), Low(va, j)) == Low(va, j - 1)
    {
      VpnFields(va);
      Literals();
      VpnParts(va);
      OrDisjoint(Shl(GetVpns(va)[j], 12 + (2 - j) * 9), Low(va, j), 12 + (2 - j) * 9);
    }

    // ----- mapping -----

    /** mmu_entry_set_flags, then mmu_entry_set_phys. */
    method SetEntry(l: Loc, flags: nat, phys: u64)
      requires pages.Valid() && Inside(pages.mem, l)
      modifies pages`mem
      ensures pages.Valid()
      ensures pages.mem == Store(old(pages.mem), l, WithPhys(WithFlags(Load(old(pages.mem), l), flags), phys))
    {
      ghost var m := pages.mem;
      ghost var e := WithFlags(Load(m, l), flags);
      pages.mem := Store(pages.mem, l, WithFlags(Load(pages.mem, l), flags));
      LoadOfStore(m, l, e);
      pages.mem := Store(pages.mem, l, WithPhys(Load(pages.mem, l), phys));
      StoreTwice(m, l, e, WithPhys(e, phys));
    }

    /** mmu_map's missing inner table at entry l of the walk of v (mmu.c:212-217). */
    method AddTable(l: Loc, ghost root: nat, ghost v: Vpns) returns (oom: bool)
      requires Valid() && l.page in shape && l.idx < 512
      requires |shape[l.page].path| < 2 && !EntryValid(Load(pages.mem, l))
      requires IsRoot(shape, root) && Through(shape, l, root, v)
      modifies this`shape, pages`mem, pages`mutatingHeap, pages`log, pages.counts
      ensures Valid()
      ensures Extends(pages.heapBottom, old(pages.counts[..]), old(pages.mem), old(shape), pages.counts[..], pages.mem, shape)
      ensures SameWalks(old(pages.mem), pages.mem, old(shape))
      ensures oom <==> Available(old(pages.counts[..])) == 0
      ensures oom ==> pages.mem == old(pages.mem) && shape == old(shape) && pages.counts[..] == old(pages.counts[..])
      ensures !oom ==>
        && Available(pages.counts[..]) == Available(old(pages.counts[..])) - 1
        && pages.counts[..] == TakeN(old(pages.counts[..]), 1)
        && Missing(pages.mem, root, v, 0) == Missing(old(pages.mem), root, v, 0) - 1
        && MissingGrew(old(pages.mem), pages.mem, old(shape), root, v)
        && l.page in shape && shape[l.page] == old(shape)[l.page] && l.page in pages.mem && IsLink(Load(pages.mem, l))
      ensures AllStandard(old(pages.mem), old(shape)) ==> AllStandard(pages.mem, shape)
    {
      ghost var rc := pages.counts[..];
      ghost var m := pages.mem;
      var page := pages.AllocPage();
      if page == 0 {
        return true;
      }
      ghost var b := WithPhys(WithFlags(Load(m, l), VALID), page);
      GrownHeap(pages.heapBottom, rc, pages.Index(page), m, shape, l, b);
      LinkWord(Load(m, l), page);
      SetEntry(l, VALID, page);
      NewTableFits(m, shape, l, page);
      NewTable(m, shape, l, page, b, root, v);
      shape := Linked(shape, l, page);
      oom := false;
    }

    /** What the walk of v makes of entry l on its way. */
    lemma StopsHere(l: Loc, root: nat, v: Vpns, i: nat)
      requires Valid() && l.page in shape && 1 <= i < 3
      requires l.idx == v[i - 1] && shape[l.page].root == root && shape[l.page].path == v[..i - 1]
      ensures l.page in pages.mem && Through(shape, l, root, v)
      ensures EntryValid(Load(pages.mem, l)) && EntryFrame(Load(pages.mem, l)) ==> Descend(pages.mem, root, v, 0).Some?
      ensures !EntryValid(Load(pages.mem, l)) ==>
        Descend(pages.mem, root, v, 0).None? && Missing(pages.mem, root, v, 0) > 0
    {
      WalkReaches(pages.mem, shape, l.page, v);
    }

    /** One turn of mmu_map's loop (mmu.c:209-220): from entry l at level i - 1 to the entry below it. */
    method StepDown(l: Loc, ghost root: nat, v: Vpns, i: nat) returns (next: Option<Loc>, oom: bool, ghost added: nat)
      requires Valid() && IsRoot(shape, root) && l.page in shape && 1 <= i < 3
      requires l.idx == v[i - 1] && shape[l.page].root == root && shape[l.page].path == v[..i - 1]
      modifies this`shape, pages`mem, pages`mutatingHeap, pages`log, pages.counts
      ensures Valid()
      ensures Grew(pages.heapBottom, old(pages.counts[..]), old(pages.mem), old(shape),
                   pages.counts[..], pages.mem, shape, root, v, added)
      ensures oom ==> next.None? && added == 0 && Descend(old(pages.mem), root, v, 0).None?
                      && Available(old(pages.counts[..])) == 0 < Missing(old(pages.mem), root, v, 0)
      ensures next.None? && !oom ==> added == 0 && Descend(old(pages.mem), root, v, 0).Some?
      ensures next.Some? ==>
        && next.value.page in shape && next.value.idx == v[i]
        && shape[next.value.page].root == root && shape[next.value.page].path == v[..i]
      ensures AllStandard(old(pages.mem), old(shape)) ==> AllStandard(pages.mem, shape)
    {
      hide Tree, Descend, Missing, MissingGrew, AllStandard, TablesHeld, SameWalks, Extends, Available;
      added := 0;
      GrewReflexive(pages.heapBottom, pages.counts[..], pages.mem, shape, root, v);
      StopsHere(l, root, v, i);
      if EntryValid(Load(pages.mem, l)) && EntryFrame(Load(pages.mem, l)) {
        return None, false, 0;
      }
      if !EntryValid(Load(pages.mem, l)) {
        oom := AddTable(l, root, v);
        if oom {
          return None, true, 0;
        }
        added := 1;
      }
      ChildEntry(l, v, i);
      return EntryGetAny(Load(pages.mem, l), v[i]), false, added;
    }

    lemma RootTop(root: nat)
      requires Valid() && IsRoot(shape, root)
      ensures shape[root].root == root && root in pages.mem && root != 0
    {
      assert Hangs(pages.mem, shape, root);
    }

    /** A walk along v that has come to a table of the last level ends there. */
    lemma LastEntry(l: Loc, root: nat, v: Vpns)
      requires Valid() && l.page in shape && l.idx == v[2] && shape[l.page].root == root && shape[l.page].path == v[..2]
      ensures l.page in pages.mem && Through(shape, l, root, v)
      ensures Missing(pages.mem, root, v, 0) == 0
      ensures Descend(pages.mem, root, v, 0).Some? <==> EntryValid(Load(pages.mem, l))
    {
      WalkReaches(pages.mem, shape, l.page, v);
    }

    /** mmu_map's descent to the last-level entry of v, creating the missing tables (mmu.c:208-223). */
    method MakeSlot(root: u64, v: Vpns) returns (slot: Option<Loc>, oom: bool, ghost n: nat)
      requires Valid() && (root == 0 || IsRoot(shape, root))
      modifies this`shape, pages`mem, pages`mutatingHeap, pages`log, pages.counts
      ensures Valid()
      ensures Grew(pages.heapBottom, old(pages.counts[..]), old(pages.mem), old(shape),
                   pages.counts[..], pages.mem, shape, root, v, n)
      ensures oom ==> slot.None? && root != 0 && Descend(old(pages.mem), root, v, 0).None?
                      && n == Available(old(pages.counts[..])) < Missing(old(pages.mem), root, v, 0)
      ensures slot.None? && !oom ==> n == 0 && (root == 0 || Descend(old(pages.mem), root, v, 0).Some?)
      ensures slot.Some? ==>
        && root != 0 && slot.value.page in shape && slot.value.idx < 512
        && |shape[slot.value.page].path| == 2 && Through(shape, slot.value, root, v)
        && n == Missing(old(pages.mem), root, v, 0) && Descend(old(pages.mem), root, v, 0).None?
      ensures AllStandard(old(pages.mem), old(shape)) ==> AllStandard(pages.mem, shape)
    {
      hide Tree, Descend, Missing, MissingGrew, AllStandard, TablesHeld, SameWalks, Extends, Available, TakeN;
      ghost var bottom, rc, m, sh := pages.heapBottom, pages.counts[..], pages.mem, shape;
      GrewReflexive(bottom, rc, m, sh, root, v);
      var entry := RootGetAny(root, v[0]);
      if entry.None? {
        return None, false, 0;
      }
      RootPointer(root, v[0]);
      RootTop(root);
      assert v[..0] == [];
      n := 0;
      var i := 1;
      while i < 3
        invariant 1 <= i <= 3 && Valid() && IsRoot(shape, root)
        invariant entry.Some? && entry.value.page in shape && entry.value.idx == v[i - 1]
        invariant shape[entry.value.page].root == root && shape[entry.value.page].path == v[..i - 1]
        invariant Grew(bottom, rc, m, sh, pages.counts[..], pages.mem, shape, root, v, n)
        invariant AllStandard(m, sh) ==> AllStandard(pages.mem, shape)
      {
        ghost var rc1, m1, sh1 := pages.counts[..], pages.mem, shape;
        ghost var added;
        entry, oom, added := StepDown(entry.value, root, v, i);
        GrewTransitive(bottom, rc, m, sh, rc1, m1, sh1, pages.counts[..], pages.mem, shape, root, v, n, added);
        ExtendsRoots(bottom, rc, m, sh, pages.counts[..], pages.mem, shape);
        if entry.None? {
          return None, oom, n;
        }
        n := n + added;
        i := i + 1;
      }
      LastEntry(entry.value, root, v);
      GrewWalk(bottom, rc, m, sh, pages.counts[..], pages.mem, shape, root, v, n);
      if EntryValid(Load(pages.mem, entry.value)) {
        return None, false, n;
      }
      return entry, false, n;
    }

    method Map(root: u64, va: u64, physical: u64, flags: nat) returns (status: int, oom: bool)
      requires Valid() && (root == 0 || IsRoot(shape, root))
      modifies this`shape, pages`mem, pages`mutatingHeap, pages`log, pages.counts
      ensures Valid()
      ensures Extends(pages.heapBottom, old(pages.counts[..]), old(pages.mem), old(shape), pages.counts[..], pages.mem, shape)
      ensures oom <==>
        && root != 0 && Descend(old(pages.mem), root, GetVpns(va), 0).None?
        && Available(old(pages.counts[..])) < Missing(old(pages.mem), root, GetVpns(va), 0)
      ensures oom ==> SameWalks(old(pages.mem), pages.mem, old(shape))
      ensures !oom ==> status == if root != 0 && Descend(old(pages.mem), root, GetVpns(va), 0).None? then 0 else -1
      ensures !oom && status == -1 ==>
        && pages.mem == old(pages.mem) && pages.counts[..] == old(pages.counts[..])
        && shape == old(shape)
      ensures !oom && status == 0 ==>
        && Mapped(old(pages.mem), pages.mem, old(shape), root, GetVpns(va), physical, flags)
        && Available(old(pages.counts[..])) ==
             Available(pages.counts[..]) + Missing(old(pages.mem), root, GetVpns(va), 0)
        && pages.counts[..] == TakeN(old(pages.counts[..]), Missing(old(pages.mem), root, GetVpns(va), 0))
        && Missing(pages.mem, root, GetVpns(va), 0) == 0
      ensures !oom && status == 0 ==> EndsAtLeaf(pages.mem, root, va, flags)
      ensures MissingGrew(old(pages.mem), pages.mem, old(shape), root, GetVpns(va))
      ensures AllStandard(old(pages.mem), old(shape)) && GoodLeaf(flags, physical) ==> AllStandard(pages.mem, shape)
    {
      hide MissingGrew, SameMissing, Tree, Descend, Missing, AllStandard, TablesHeld, LeafFlags, GoodFlags, Available,
        Extends, EndsAtLeaf;
      var slot;
      ghost var n, bottom, rc, m, sh := 0, pages.heapBottom, pages.counts[..], pages.mem, shape;
      slot, oom, n := MakeSlot(root, GetVpns(va));
      ExtendsRoots(bottom, rc, m, sh, pages.counts[..], pages.mem, shape);
      if slot.None? {
        return -1, oom;
      }
      if GoodLeaf(flags, physical) {
        NewLeafFits(pages.mem, shape, slot.value, flags, physical);
      }
      MapLeaf(pages.mem, shape, slot.value, root, GetVpns(va), physical, flags);
      LeafMissing(pages.mem, shape, slot.value,
                  WithPhys(WithFlags(Load(pages.mem, slot.value), Or(flags, VALID + ACCESSED + DIRTY)), physical));
      MissingThen(m, pages.mem, Store(pages.mem, slot.value,
                  WithPhys(WithFlags(Load(pages.mem, slot.value), Or(flags, VALID + ACCESSED + DIRTY)), physical)),
                  sh, shape, root, GetVpns(va));
      ExtendsStore(bottom, rc, m, sh, pages.counts[..], pages.mem, shape, slot.value,
                   WithPhys(WithFlags(Load(pages.mem, slot.value), Or(flags, VALID + ACCESSED + DIRTY)), physical));
      SetEntry(slot.value, Or(flags, VALID + ACCESSED + DIRTY), physical);
      MappedFlags(m, pages.mem, sh, root, va, physical, flags);
      status := 0;
    }

    // ----- removing and changing -----

    lemma NullRoot(v: Vpns)
      requires pages.Valid()
      ensures Descend(pages.mem, 0, v, 0).None?
    {
    }

    method Remove(root: u64, va: u64) returns (physical: u64)
      requires Valid() && (root == 0 || IsRoot(shape, root))
      modifies pages`mem
      ensures Valid() && pages.mem.Keys == old(pages.mem).Keys
      ensures match Descend(old(pages.mem), root, GetVpns(va), 0)
        case None => physical == 0 && pages.mem == old(pages.mem)
        case Some(f) =>
          && physical == EntryPhys(f.word, pages.on)
          && !EntryValid(WithFlags(f.word, 0))
          && Rewritten(old(pages.mem), pages.mem, shape, root, GetVpns(va), WithFlags(f.word, 0))
          && RewrittenLacks(old(pages.mem), pages.mem, shape, root, GetVpns(va), WithFlags(f.word, 0))
          && (forall a :: a in pages.mem && a !in shape ==> pages.mem[a] == old(pages.mem)[a])
      ensures AllStandard(old(pages.mem), shape) ==> AllStandard(pages.mem, shape)
    {
      hide Tree, Descend, AllStandard, TablesHeld, And, Or, Missing;
      NullRoot(GetVpns(va));
      var entry := WalkToEntry(root, va);
      if entry.None? {
        return 0;
      }
      ghost var f := Descend(pages.mem, root, GetVpns(va), 0).value;
      FlagsReplaced(f.word, 0);
      FlagTests(WithFlags(f.word, 0));
      RewriteLeaf(pages.mem, shape, root, GetVpns(va), WithFlags(f.word, 0));
      RewriteLacks(pages.mem, shape, root, GetVpns(va), WithFlags(f.word, 0));
      RemovedFits(pages.mem, shape, root, GetVpns(va));
      physical := EntryPhys(Load(pages.mem, entry.value), pages.on);
      pages.mem := Store(pages.mem, entry.value, WithFlags(Load(pages.mem, entry.value), 0));
    }

    /** The trees survive exactly when the flags include R, W or X or the leaf is a 4 KiB page. */
    method ChangeFlags(root: u64, va: u64, flags: nat)
      requires Valid() && (root == 0 || IsRoot(shape, root))
      modifies pages`mem
      ensures pages.Valid() && TablesHeld(pages.counts[..], pages.heapBottom, shape)
      ensures pages.mem.Keys == old(pages.mem).Keys
      ensures match Descend(old(pages.mem), root, GetVpns(va), 0)
        case None => Valid() && pages.mem == old(pages.mem)
        case Some(f) =>
          var e := WithFlags(f.word, Or(flags, VALID + ACCESSED + DIRTY));
          && e % 1024 == LeafFlags(flags) && HasFlags(e, flags) && EntryRaw(e) == EntryRaw(f.word)
          && (Valid() <==> f.level == 2 || flags / 2 % 8 != 0)
          && (Valid() ==> Rewritten(old(pages.mem), pages.mem, shape, root, GetVpns(va), e)
                          && RewrittenLacks(old(pages.mem), pages.mem, shape, root, GetVpns(va), e))
          && (forall a :: a in pages.mem && a !in shape ==> pages.mem[a] == old(pages.mem)[a])
      ensures AllStandard(old(pages.mem), shape) && GoodFlags(flags) ==> AllStandard(pages.mem, shape)
    {
      hide Tree, Descend, AllStandard, TablesHeld, GoodFlags, And, Missing, HasFlags;
      NullRoot(GetVpns(va));
      var entry := WalkToEntry(root, va);
      if entry.Some? {
        ghost var f := Descend(pages.mem, root, GetVpns(va), 0).value;
        ghost var e := WithFlags(f.word, Or(flags, VALID + ACCESSED + DIRTY));
        FlagsReplaced(f.word, Or(flags, VALID + ACCESSED + DIRTY));
        LeafFlagsValid(flags, e);
        LeafFlagBits(e, flags);
        RewriteLeaf(pages.mem, shape, root, GetVpns(va), e);
        if f.level == 2 || !IsLink(e) {
          RewriteLacks(pages.mem, shape, root, GetVpns(va), e);
        }
        if GoodFlags(flags) {
          ChangedFits(pages.mem, shape, root, GetVpns(va), flags);
        }
        pages.mem := Store(pages.mem, entry.value, WithFlags(Load(pages.mem, entry.value), Or(flags, VALID + ACCESSED + DIRTY)));
      }
    }

    // ----- allocating -----

    /** alloc_pages(1) for data. */
    method TakePage(ghost root: u64, ghost v: Vpns) returns (page: nat)
      requires Valid() && (root == 0 || IsRoot(shape, root))
      modifies pages`mem, pages`mutatingHeap, pages`log, pages.counts
      ensures Valid()
      ensures page == 0 <==> Available(old(pages.counts[..])) == 0
      ensures page == 0 ==> pages.counts[..] == old(pages.counts[..]) && pages.mem == old(pages.mem)
      ensures Extends(pages.heapBottom, old(pages.counts[..]), old(pages.mem), shape, pages.counts[..], pages.mem, shape)
      ensures Untouched(pages.heapBottom, old(pages.counts[..]), old(pages.mem), shape, pages.mem, shape)
      ensures Missing(pages.mem, root, v, 0) == Missing(old(pages.mem), root, v, 0)
      ensures SameMissing(old(pages.mem), pages.mem, shape)
      ensures Descend(pages.mem, root, v, 0) == Descend(old(pages.mem), root, v, 0)
      ensures AllStandard(old(pages.mem), shape) ==> AllStandard(pages.mem, shape)
      ensures page != 0 ==>
        && NewPage(pages.heapBottom, old(pages.counts[..]), pages.counts[..], pages.mem, shape, page)
        && Available(pages.counts[..]) == Available(old(pages.counts[..])) - 1
        && page == pages.Addr(pages.Index(page)) && 0 <= pages.Index(page) < pages.counts.Length
        && old(pages.counts[..])[pages.Index(page)] == 0
        && pages.counts[..] == Taken(old(pages.counts[..]), pages.Index(page), 1)
        && pages.counts[..] == TakeN(old(pages.counts[..]), 1) && page == PageFor(pages.heapBottom, old(pages.counts[..]))
        && (pages.Index(page) != 0 <==> PageZeroHeld(old(pages.counts[..])))
    {
      hide Tree, Descend, Missing, AllStandard, Available;
      ghost var bottom, rc, m := pages.heapBottom, pages.counts[..], pages.mem;
      page := pages.AllocPage();
      if page != 0 {
        DataPage(bottom, rc, pages.Index(page), m, shape, root, v);
        DataFits(m, shape, page, ZeroPage());
      }
    }

    /**
     * mmu_alloc. A refused call gives its page back, which restores the counts exactly when page 0 was held or no
     * page was free. When no page was free and no table is missing, the code maps physical page 0.
     */
    method Alloc(root: u64, va: u64, flags: nat) returns (page: nat, oom: bool)
      requires Valid() && (root == 0 || IsRoot(shape, root))
      modifies this`shape, pages`mem, pages`mutatingHeap, pages`log, pages.counts
      ensures Valid() && page < WINDOW && (oom ==> page == 0)
      ensures SameRoots(old(shape), shape)
      ensures oom <==> OutOfPages(old(pages.counts[..]), old(pages.mem), root, va)
      ensures oom ==> SameWalks(old(pages.mem), pages.mem, old(shape))
      ensures !oom ==> (page == 0 <==> Refused(old(pages.mem), root, va) || Available(old(pages.counts[..])) == 0)
      ensures Refused(old(pages.mem), root, va) ==>
        RefusedClean(pages.heapBottom, old(pages.counts[..]), old(pages.mem), old(shape), pages.counts[..], pages.mem, shape)
      ensures !oom && !Refused(old(pages.mem), root, va) ==>
        Allocated(pages.heapBottom, old(pages.counts[..]), old(pages.mem), old(shape),
                  pages.counts[..], pages.mem, shape, root, va, page, flags)
      ensures page != 0 ==>
        NewPage(pages.heapBottom, old(pages.counts[..]), pages.counts[..], pages.mem, shape, page)
      ensures page != 0 ==> page == PageFor(pages.heapBottom, old(pages.counts[..]))
      ensures !oom && !Refused(old(pages.mem), root, va) ==> EndsAtLeaf(pages.mem, root, va, flags)
      ensures AllStandard(old(pages.mem), old(shape)) && GoodFlags(flags) ==> AllStandard(pages.mem, shape)
      ensures Grows(pages.heapBottom, old(pages.counts[..]), old(pages.mem), old(shape), pages.counts[..], pages.mem, shape)
    {
      hide MissingGrew, SameMissing, Grows, AllStandard, GoodFlags, Tree, Descend, Missing, TablesHeld, Mapped,
        Extends, SameWalks, HeldIn, Available, GetVpns, EndsAtLeaf;
      ghost var bottom, rc, m, sh := pages.heapBottom, pages.counts[..], pages.mem, shape;
      page := TakePage(root, GetVpns(va));
      ghost var k, rc1, m1 := pages.Index(page), pages.counts[..], pages.mem;
      var status;
      status, oom := Map(root, va, page, flags);
      ExtendsRoots(bottom, rc1, m1, sh, pages.counts[..], pages.mem, shape);
      ExtendsTransitive(bottom, rc, m, sh, rc1, m1, sh, pages.counts[..], pages.mem, shape);
      ExtendsGrows(bottom, rc, m, sh, pages.counts[..], pages.mem, shape);
      if oom {
        SameWalksTransitive(m, m1, pages.mem, sh, sh);
        return 0, true;
      }
      if status == 0 {
        MissingSame(m, m1, pages.mem, sh, root, GetVpns(va));
        TakeMore(rc, if page == 0 then 0 else 1, Missing(m1, root, GetVpns(va), 0));
      }
      if status != 0 {
        if page != 0 {
          TakeAndDrop(rc, k);
        }
        var over := pages.DeallocPages(page, 1);
        page := 0;
        RefusedGrows(bottom, rc, m, sh, pages.counts[..], pages.mem, shape);
      } else {
        MappedBehind(m, m1, pages.mem, sh, root, GetVpns(va), page, flags);
        if page != 0 {
          NewPageKept(bottom, rc, rc1, m1, sh, pages.counts[..], pages.mem, shape, page);
        }
      }
    }

    // ----- a new address space -----

    /** One page of mmu_map_range_identity. The ghost parameters say what was mapped in the root so far. */
    method MapIdentityPage(root: u64, ghost m: Mem, ghost start: nat, p: u64, flags: nat,
                           ghost f: Vpns -> nat, ghost vs: seq<Vpns>, ghost space: Space, ghost rc0: seq<nat>) returns (oom: bool)
      requires Valid() && IsRoot(shape, root) && start <= p && p % 4096 == start % 4096
      requires KeepsFound(m, pages.mem, shape, root) && Identity(m, pages.mem, root, start, p, flags)
      requires Spent(rc0, pages.counts[..], pages.mem, root, f, vs, space)
      modifies this`shape, pages`mem, pages`mutatingHeap, pages`log, pages.counts
      ensures Valid()
      ensures Extends(pages.heapBottom, old(pages.counts[..]), old(pages.mem), old(shape), pages.counts[..], pages.mem, shape)
      ensures KeepsFound(m, pages.mem, old(shape), root)
      ensures oom <==> Available(rc0) < Tables(f, vs + [PlaceAt(p)])
      ensures !oom ==> Identity(m, pages.mem, root, start, p + 4096, flags)
      ensures !oom ==>
        Spent(rc0, pages.counts[..], pages.mem, root, f, vs + [PlaceAt(p)], MapIn(space, PlaceAt(p), PageLeaf(p, flags)))
      ensures OthersLack(old(pages.mem), pages.mem, old(shape), root)
      ensures AllStandard(old(pages.mem), old(shape)) && GoodLeaf(flags, p) ==> AllStandard(pages.mem, shape)
    {
      hide Spent, Descend, Tree, Identity, KeepsFound, Extends, GetVpns, AllStandard, GoodFlags, Available, Missing,
        MissingGrew, Mapped, Tables;
      ghost var m1 := pages.mem;
      RootTop(root);
      SpentOut(rc0, pages.counts[..], m1, root, f, vs, space, GetVpns(p));
      var status;
      status, oom := Map(root, p, p, flags);
      GrewOthers(m1, pages.mem, old(shape), root, GetVpns(p));
      if oom {
        SameKeepsFound(m1, pages.mem, old(shape), root);
        KeepsFoundTransitive(m, m1, pages.mem, old(shape), old(shape), root);
      } else {
        IdentityStep(m, m1, pages.mem, old(shape), root, start, p, flags);
        SpentMore(rc0, old(pages.counts[..]), m1, old(shape), pages.counts[..], pages.mem, root, GetVpns(p), p, flags, f, vs, space);
      }
    }

    /** mmu_map_range_identity; refused pages are skipped. Behind a range that reaches the last page p wraps around. */
    method MapRangeIdentity(root: u64, start: u64, end: u64, flags: nat,
                            ghost f: Vpns -> nat, ghost vs: seq<Vpns>, ghost space: Space, ghost rc0: seq<nat>) returns (oom: bool)
      requires Valid() && IsRoot(shape, root) && end + PAGE_SIZE <= WORD
      requires Spent(rc0, pages.counts[..], pages.mem, root, f, vs, space)
      modifies this`shape, pages`mem, pages`mutatingHeap, pages`log, pages.counts
      ensures Valid()
      ensures Extends(pages.heapBottom, old(pages.counts[..]), old(pages.mem), old(shape), pages.counts[..], pages.mem, shape)
      ensures KeepsFound(old(pages.mem), pages.mem, old(shape), root)
      ensures oom <==> Available(rc0) < Tables(f, vs + Places(start, Count(start, end)))
      ensures !oom ==> Identity(old(pages.mem), pages.mem, root, start, end, flags)
      ensures !oom ==> Spent(rc0, pages.counts[..], pages.mem, root, f, vs + Places(start, Count(start, end)),
                             MapPages(space, start, Count(start, end), flags))
      ensures OthersLack(old(pages.mem), pages.mem, old(shape), root)
      ensures AllStandard(old(pages.mem), old(shape)) && GoodLeaf(flags, end) ==> AllStandard(pages.mem, shape)
    {
      hide Descend, Tree, Identity, KeepsFound, Extends, GetVpns, AllStandard, GoodFlags, Spent, Tables, MapPages,
        Places, PlaceAt, Count, MapIn;
      ghost var bottom, rc, m, sh := pages.heapBottom, pages.counts[..], pages.mem, shape;
      NoPageYet(bottom, rc, m, sh, root, start, flags);
      NoPages(vs, space, start, flags);
      oom := false;
      var p: u64 := start;
      ghost var i := 0;
      while p < end
        invariant p == start + PAGE_SIZE * i && (i > 0 ==> start + PAGE_SIZE * (i - 1) < end)
        invariant Valid() && !oom && SameRoots(sh, shape)
        invariant Extends(bottom, rc, m, sh, pages.counts[..], pages.mem, shape)
        invariant KeepsFound(m, pages.mem, sh, root) && Identity(m, pages.mem, root, start, p, flags)
        invariant Spent(rc0, pages.counts[..], pages.mem, root, f, vs + Places(start, i), MapPages(space, start, i, flags))
        invariant OthersLack(m, pages.mem, sh, root)
        invariant AllStandard(m, sh) && GoodLeaf(flags, end) ==> AllStandard(pages.mem, shape)
      {
        ghost var rc1, m1, sh1 := pages.counts[..], pages.mem, shape;
        KeepsRoots(m, m1, sh, sh1, root);
        OnePageMore(f, vs, space, start, end, i, flags);
        oom := MapIdentityPage(root, m, start, p, flags, f, vs + Places(start, i), MapPages(space, start, i, flags), rc0);
        OthersLackTwice(m, m1, pages.mem, sh, sh1, root);
        KeepsRoots(m, pages.mem, sh1, sh, root);
        ExtendsTransitive(bottom, rc, m, sh, rc1, m1, sh1, pages.counts[..], pages.mem, shape);
        ExtendsRoots(bottom, rc1, m1, sh1, pages.counts[..], pages.mem, shape);
        if oom {
          return;
        }
        p := p + 4096;
        i := i + 1;
      }
      CountIs(start, end, i);
      SpentEnough(rc0, pages.counts[..], pages.mem, root, f, vs + Places(start, i), MapPages(space, start, i, flags));
      IdentityEnd(m, pages.mem, root, start, p, end, flags);
    }

    /** identity_map_kernel; the ranges of the kernel image come from the linker. */
    method IdentityMapKernel(root: u64, ranges: seq<Range>, ghost f: Vpns -> nat, ghost space: Space, ghost rc0: seq<nat>)
      returns (oom: bool)
      requires Valid() && IsRoot(shape, root)
      requires forall i :: 0 <= i < |ranges| ==> ranges[i].end + PAGE_SIZE <= WORD
      requires Spent(rc0, pages.counts[..], pages.mem, root, f, [], space)
      modifies this`shape, pages`mem, pages`mutatingHeap, pages`log, pages.counts
      ensures Valid()
      ensures Extends(pages.heapBottom, old(pages.counts[..]), old(pages.mem), old(shape), pages.counts[..], pages.mem, shape)
      ensures KeepsFound(old(pages.mem), pages.mem, old(shape), root)
      ensures SameRoots(old(shape), shape)
      ensures oom <==> Available(rc0) < Tables(f, Walks(ranges, |ranges|))
      ensures !oom ==> IdentityAll(old(pages.mem), pages.mem, root, ranges, |ranges|)
      ensures !oom ==> Spent(rc0, pages.counts[..], pages.mem, root, f, Walks(ranges, |ranges|), MapRanges(space, ranges, |ranges|))
      ensures OthersLack(old(pages.mem), pages.mem, old(shape), root)
      ensures AllStandard(old(pages.mem), old(shape)) && GoodRanges(ranges) ==> AllStandard(pages.mem, shape)
    {
      hide AllStandard, GoodFlags, Descend, Tree, Identity, IdentityAll, Extends, KeepsFound, Spent, Tables, MapPages,
        Places, Count, Walks, MapRanges;
      ghost var bottom, rc, m, sh := pages.heapBottom, pages.counts[..], pages.mem, shape;
      NoRangesYet(m, root, ranges);
      NoPageYet(bottom, rc, m, sh, root, 0, 0);
      NoRanges(space, ranges);
      oom := false;
      var i := 0;
      while i < |ranges|
        invariant 0 <= i <= |ranges| && Valid() && IsRoot(shape, root)
        invariant SameRoots(sh, shape) && Extends(bottom, rc, m, sh, pages.counts[..], pages.mem, shape)
        invariant KeepsFound(m, pages.mem, sh, root) && IdentityAll(m, pages.mem, root, ranges, i)
        invariant Spent(rc0, pages.counts[..], pages.mem, root, f, Walks(ranges, i), MapRanges(space, ranges, i))
        invariant OthersLack(m, pages.mem, sh, root)
        invariant AllStandard(m, sh) && GoodRanges(ranges) ==> AllStandard(pages.mem, shape)
      {
        ghost var rc2, m2, sh2 := pages.counts[..], pages.mem, shape;
        OneRangeMore(f, space, ranges, i);
        oom := MapRangeIdentity(root, ranges[i].start, ranges[i].end, ranges[i].flags, f, Walks(ranges, i),
                                MapRanges(space, ranges, i), rc0);
        OthersLackTwice(m, m2, pages.mem, sh, sh2, root);
        ExtendsTransitive(bottom, rc, m, sh, rc2, m2, sh2, pages.counts[..], pages.mem, shape);
        ExtendsRoots(bottom, rc2, m2, sh2, pages.counts[..], pages.mem, shape);
        KeepsFoundTransitive(m, m2, pages.mem, sh, sh2, root);
        if oom {
          return;
        }
        IdentityAllStep(m, m2, pages.mem, sh2, root, ranges, i);
        i := i + 1;
      }
      SpentEnough(rc0, pages.counts[..], pages.mem, root, f, Walks(ranges, i), MapRanges(space, ranges, i));
    }

    /** create_mmu_table's new root with the kernel window in its upper half. */
    method NewTop() returns (root: nat)
      requires Valid()
      modifies this`shape, pages`mem, pages`mutatingHeap, pages`log, pages.counts
      ensures Valid()
      ensures SameWalks(old(pages.mem), pages.mem, old(shape))
      ensures root == 0 ==> shape == old(shape)
      ensures root != 0 ==>
        && root !in old(shape) && root < WINDOW && shape == old(shape)[root := Node(root, [], 0)]
        && DirectMapped(pages.mem, root) && LowerEmpty(pages.mem, root) && Lacking(pages.mem, root, NewLacks(), [])
      ensures root == 0 <==> Available(old(pages.counts[..])) == 0
      ensures root != 0 ==>
        && Available(pages.counts[..]) == Available(old(pages.counts[..])) - 1
        && pages.counts[..] == TakeN(old(pages.counts[..]), 1) && root == PageFor(pages.heapBottom, old(pages.counts[..]))
      ensures SameMissing(old(pages.mem), pages.mem, old(shape))
      ensures Grows(pages.heapBottom, old(pages.counts[..]), old(pages.mem), old(shape), pages.counts[..], pages.mem, shape)
      ensures AllStandard(old(pages.mem), old(shape)) ==> AllStandard(pages.mem, shape)
    {
      hide Tree, Missing, AllStandard, Available;
      ghost var m0 := pages.mem;
      root := TakePage(0, [0, 0, 0]);
      if root != 0 {
        ghost var m := pages.mem;
        FillTop(root);
        TopPageRoot(m, shape, root, pages.mem[root]);
        TopPageLacks(pages.mem, root);
        if AllStandard(m, shape) {
          TopFits(m, shape, root, pages.mem[root]);
        }
        SameWalksTransitive(m0, m, pages.mem, shape, shape);
        SameMissingTwice(m0, m, pages.mem, shape);
        shape := shape[root := Node(root, [], 0)];
      }
    }

    method CreateTable(ranges: seq<Range>) returns (root: nat, oom: bool)
      requires Valid() && forall i :: 0 <= i < |ranges| ==> ranges[i].end + PAGE_SIZE <= WORD
      modifies this`shape, pages`mem, pages`mutatingHeap, pages`log, pages.counts
      ensures Valid()
      ensures root == 0 <==> Available(old(pages.counts[..])) == 0
      ensures oom <==> Available(old(pages.counts[..])) < 1 + Tables(NewLacks(), Walks(ranges, |ranges|))
      ensures !oom ==>
        && Available(pages.counts[..]) == Available(old(pages.counts[..])) - 1 - Tables(NewLacks(), Walks(ranges, |ranges|))
        && pages.counts[..] == TakeN(old(pages.counts[..]), 1 + Tables(NewLacks(), Walks(ranges, |ranges|)))
        && Lacking(pages.mem, root, NewLacks(), Walks(ranges, |ranges|))
      ensures root != 0 ==> root == PageFor(pages.heapBottom, old(pages.counts[..]))
      ensures SameMissing(old(pages.mem), pages.mem, old(shape))
      ensures !oom ==> Shows(pages.mem, root, MapRanges(NewSpace(), ranges, |ranges|))
      ensures SameWalks(old(pages.mem), pages.mem, old(shape))
      ensures root != 0 ==> IsRoot(shape, root) && !IsRoot(old(shape), root) && root < WINDOW
      ensures root != 0 ==> DirectMapped(pages.mem, root)
      ensures !oom ==> exists m :: LowerEmpty(m, root) && IdentityAll(m, pages.mem, root, ranges, |ranges|)
      ensures forall r :: IsRoot(old(shape), r) ==> IsRoot(shape, r)
      ensures Grows(pages.heapBottom, old(pages.counts[..]), old(pages.mem), old(shape), pages.counts[..], pages.mem, shape)
      ensures AllStandard(old(pages.mem), old(shape)) && GoodRanges(ranges) ==> AllStandard(pages.mem, shape)
    {
      hide Grows, AllStandard, GoodRanges, Available, Tables, Walks, Lacking, Shows, MapRanges, Missing, Descend,
        Tree, IdentityAll;
      ghost var rc0, m0, sh0 := pages.counts[..], pages.mem, shape;
      root := NewTop();
      if root == 0 {
        return 0, true;
      }
      ghost var rc1, m1, sh1 := pages.counts[..], pages.mem, shape;
      assert IsRoot(sh1, root);
      NewShows(m1, root);
      SpentStart(rc1, m1, root, NewLacks(), NewSpace());
      oom := IdentityMapKernel(root, ranges, NewLacks(), NewSpace(), rc1);
      ExtendsRoots(pages.heapBottom, rc1, m1, sh1, pages.counts[..], pages.mem, shape);
      ExtendsGrows(pages.heapBottom, rc1, m1, sh1, pages.counts[..], pages.mem, shape);
      GrowsTransitive(pages.heapBottom, rc0, m0, sh0, rc1, m1, sh1, pages.counts[..], pages.mem, shape);
      TakeMore(rc0, 1, Tables(NewLacks(), Walks(ranges, |ranges|)));
      NewRootMissing(m0, m1, pages.mem, sh0, sh1, root);
      forall r, w: Vpns | IsRoot(sh0, r) ensures Descend(pages.mem, r, w, 0) == Descend(m0, r, w, 0) {
        assert IsRoot(sh1, r) && r != root;
        assert Descend(m1, r, w, 0) == Descend(m0, r, w, 0);
      }
    }

    /** The loop over the upper half of the root table (mmu.c:306-315). */
    method FillTop(top: nat)
      requires Valid() && top in pages.mem && top !in shape && top < WINDOW && pages.mem[top] == ZeroPage()
      modifies pages`mem
      ensures pages.Valid() && top in pages.mem && pages.mem == old(pages.mem)[top := pages.mem[top]]
      ensures TopPage(pages.mem[top], 512)
    {
      var safe := Phys2Safe(top, pages.on);
      WindowRoundTrip(top, pages.on);
      forall j | 0 <= j < 512 ensures Word(pages.mem[top], j) == 0 {
        ZeroWord(j);
      }
      var i := 256;
      while i < 512
        invariant 256 <= i <= 512 && pages.Valid() && top in pages.mem
        invariant pages.mem == old(pages.mem)[top := pages.mem[top]]
        invariant TopPage(pages.mem[top], i)
      {
        var l := Loc(Safe2Phys(safe, pages.on), i);
        LoadOfStore(pages.mem, l, DirectWord(i));
        ghost var m := pages.mem;
        pages.mem := Store(pages.mem, l, DirectWord(i));
        forall j | 0 <= j < 512 ensures Word(pages.mem[top], j) == if 256 <= j < i + 1 then DirectWord(j) else 0 {
          assert Load(pages.mem, Loc(top, j)) == if j == i then DirectWord(i) else Load(m, Loc(top, j));
        }
        i := i + 1;
      }
    }
  }
}
