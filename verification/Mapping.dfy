/** What the operations of kernel/src/mmu.c do to memory, page counts and walks, as predicates and lemmas. */
module Mapping {
  import opened Words
  import opened Ram
  import opened DirectMap
  import opened Entries
  import opened Pages
  import opened Options
  import opened PageTable
  import opened Sv39

  /** Tables were only added, on pages nobody held, and no held page outside the tables was written. */
  ghost predicate Grows(bottom: nat, rc: seq<nat>, m: Mem, sh: Shape, rc': seq<nat>, m': Mem, sh': Shape) {
    && |rc'| == |rc| && m'.Keys == m.Keys
    && (forall k :: 0 <= k < |rc| && rc[k] > 0 ==> rc'[k] == rc[k])
    && (forall a :: a in sh ==> a in sh' && sh'[a] == sh[a])
    && (forall a :: a in sh' && a !in sh ==> !HeldIn(rc, bottom, a))
    && (forall a :: a in m && HeldIn(rc, bottom, a) && a !in sh ==> m'[a] == m[a])
  }

  /** ... and no root was among them. */
  ghost predicate Extends(bottom: nat, rc: seq<nat>, m: Mem, sh: Shape, rc': seq<nat>, m': Mem, sh': Shape) {
    Grows(bottom, rc, m, sh, rc', m', sh') && forall a :: a in sh' && a !in sh ==> sh'[a].path != []
  }

  lemma GrowsTransitive(bottom: nat, rc: seq<nat>, m: Mem, sh: Shape, rc1: seq<nat>, m1: Mem, sh1: Shape,
                        rc2: seq<nat>, m2: Mem, sh2: Shape)
    requires Grows(bottom, rc, m, sh, rc1, m1, sh1) && Grows(bottom, rc1, m1, sh1, rc2, m2, sh2)
    ensures Grows(bottom, rc, m, sh, rc2, m2, sh2)
  {
  }

  /** A store into a table keeps this. */
  lemma ExtendsStore(bottom: nat, rc: seq<nat>, m: Mem, sh: Shape, rc': seq<nat>, m': Mem, sh': Shape, l: Loc, e: u64)
    requires Extends(bottom, rc, m, sh, rc', m', sh') && l.page in sh' && Inside(m', l)
    ensures Extends(bottom, rc, m, sh, rc', Store(m', l, e), sh')
  {
    hide HeldIn;
  }

  lemma SelfGrows(bottom: nat, rc: seq<nat>, m: Mem, sh: Shape)
    ensures Grows(bottom, rc, m, sh, rc, m, sh)
  {
  }

  lemma ExtendsGrows(bottom: nat, rc: seq<nat>, m: Mem, sh: Shape, rc': seq<nat>, m': Mem, sh': Shape)
    requires Extends(bottom, rc, m, sh, rc', m', sh')
    ensures Grows(bottom, rc, m, sh, rc', m', sh')
  {
  }

  /** Every table lies on a page somebody holds. */
  ghost predicate TablesHeld(rc: seq<nat>, bottom: nat, sh: Shape) {
    forall a {:trigger HeldIn(rc, bottom, a)} :: a in sh ==> HeldIn(rc, bottom, a)
  }

  lemma GrownHeap(bottom: nat, rc: seq<nat>, k: nat, m: Mem, sh: Shape, l: Loc, b: u64)
    requires k < |rc| && rc[k] == 0 && l.page in sh && Inside(m, l) && |sh[l.page].path| < 2
    requires TablesHeld(rc, bottom, sh)
    requires bottom + PAGE_SIZE * k in m
    ensures var t := bottom + PAGE_SIZE * k;
      && Extends(bottom, rc, m, sh, Taken(rc, k, 1), Store(m[t := ZeroPage()], l, b), Linked(sh, l, t))
      && TablesHeld(Taken(rc, k, 1), bottom, Linked(sh, l, t))
  {
    var t := bottom + PAGE_SIZE * k;
    assert (t - bottom) / PAGE_SIZE == k;
    assert !HeldIn(rc, bottom, t);
    forall a | a in sh ensures HeldIn(Taken(rc, k, 1), bottom, a) && a != t {
      assert HeldIn(rc, bottom, a);
    }
  }

  /** From one state to another, n missing tables of v's path in root were added and nothing else changed. */
  ghost predicate Grew(bottom: nat, rc: seq<nat>, m: Mem, sh: Shape, rc': seq<nat>, m': Mem, sh': Shape,
                       root: nat, v: Vpns, n: nat) {
    && Extends(bottom, rc, m, sh, rc', m', sh') && SameWalks(m, m', sh)
    && Missing(m, root, v, 0) == Missing(m', root, v, 0) + n && MissingGrew(m, m', sh, root, v)
    && Available(rc) == Available(rc') + n && rc' == TakeN(rc, n)
    && (n == 0 ==> rc' == rc && m' == m && sh' == sh)
    && (n > 0 ==> Descend(m, root, v, 0).None?)
  }

  lemma ExtendsTransitive(bottom: nat, rc: seq<nat>, m: Mem, sh: Shape, rc1: seq<nat>, m1: Mem, sh1: Shape,
                          rc2: seq<nat>, m2: Mem, sh2: Shape)
    requires Extends(bottom, rc, m, sh, rc1, m1, sh1) && Extends(bottom, rc1, m1, sh1, rc2, m2, sh2)
    ensures Extends(bottom, rc, m, sh, rc2, m2, sh2)
  {
  }

  /** The roots are the same. */
  ghost predicate SameRoots(sh: Shape, sh': Shape) {
    forall r :: IsRoot(sh', r) <==> IsRoot(sh, r)
  }

  lemma ExtendsRoots(bottom: nat, rc: seq<nat>, m: Mem, sh: Shape, rc': seq<nat>, m': Mem, sh': Shape)
    requires Extends(bottom, rc, m, sh, rc', m', sh')
    ensures SameRoots(sh, sh')
  {
  }

  lemma GrewReflexive(bottom: nat, rc: seq<nat>, m: Mem, sh: Shape, root: nat, v: Vpns)
    ensures Grew(bottom, rc, m, sh, rc, m, sh, root, v, 0)
  {
    hide Missing;
    MissingReflexive(m, sh, root, v);
  }

  lemma GrewWalk(bottom: nat, rc: seq<nat>, m: Mem, sh: Shape, rc': seq<nat>, m': Mem, sh': Shape, root: nat, v: Vpns, n: nat)
    requires Grew(bottom, rc, m, sh, rc', m', sh', root, v, n) && IsRoot(sh, root)
    ensures Descend(m', root, v, 0) == Descend(m, root, v, 0)
  {
  }

  lemma GrewTransitive(bottom: nat, rc: seq<nat>, m: Mem, sh: Shape, rc1: seq<nat>, m1: Mem, sh1: Shape,
                       rc2: seq<nat>, m2: Mem, sh2: Shape, root: nat, v: Vpns, j: nat, k: nat)
    requires Grew(bottom, rc, m, sh, rc1, m1, sh1, root, v, j) && Grew(bottom, rc1, m1, sh1, rc2, m2, sh2, root, v, k)
    requires IsRoot(sh, root)
    ensures Grew(bottom, rc, m, sh, rc2, m2, sh2, root, v, j + k)
    ensures Descend(m1, root, v, 0) == Descend(m, root, v, 0)
  {
    hide Missing, MissingGrew, Extends, Available, Descend;
    ExtendsTransitive(bottom, rc, m, sh, rc1, m1, sh1, rc2, m2, sh2);
    ExtendsRoots(bottom, rc, m, sh, rc1, m1, sh1);
    MissingTwice(m, m1, m2, sh, sh1, root, v);
    TakeMore(rc, j, k);
    forall r, w: Vpns | IsRoot(sh, r) ensures Descend(m2, r, w, 0) == Descend(m, r, w, 0) {
      assert IsRoot(sh1, r);
      assert Descend(m2, r, w, 0) == Descend(m1, r, w, 0);
    }
  }

  /** The flag bits of an entry that mmu_map or mmu_change_flags writes. */
  function LeafFlags(flags: nat): nat {
    Or(flags, VALID + ACCESSED + DIRTY) % 1024
  }

  /** The low ten bits of a leaf's word are the flags asked for, with V, A and D (bits 0, 6 and 7 of section 4.4). */
  ghost predicate HasFlags(word: nat, flags: nat) {
    forall k {:trigger Bit(word, k)} {:trigger Bit(flags, k)} :: 0 <= k < 10 ==>
      (Bit(word, k) <==> k == 0 || k == 6 || k == 7 || Bit(flags, k))
  }

  lemma ValidAccessedDirty(k: nat)
    requires k < 10
    ensures Bit(VALID + ACCESSED + DIRTY, k) <==> k == 0 || k == 6 || k == 7
  {
    var w := VALID + ACCESSED + DIRTY;
    assert Pow2(k) == [1, 2, 4, 8, 16, 32, 64, 128, 256, 512][k] by {
      TenPowers(k);
    }
    assert w / [1, 2, 4, 8, 16, 32, 64, 128, 256, 512][k] == [193, 96, 48, 24, 12, 6, 3, 1, 0, 0][k];
  }

  lemma TenPowers(k: nat)
    requires k < 10
    ensures Pow2(k) == [1, 2, 4, 8, 16, 32, 64, 128, 256, 512][k]
  {
  }

  /** A word whose low bits are LeafFlags has exactly those flags. */
  lemma LeafFlagBits(word: nat, flags: nat)
    requires word % 1024 == LeafFlags(flags)
    ensures HasFlags(word, flags)
  {
    hide Or, Bit;
    Literals();
    var f := Or(flags, VALID + ACCESSED + DIRTY);
    forall k | 0 <= k < 10 ensures Bit(word, k) <==> k == 0 || k == 6 || k == 7 || Bit(flags, k) {
      LowBit(word, 10, k);
      LowBit(f, 10, k);
      BitOr(flags, VALID + ACCESSED + DIRTY, k);
      ValidAccessedDirty(k);
    }
  }

  /** Such a leaf lets a program do what its flags say, and never faults for want of A or D (step 7 of section 4.3.2). */
  lemma LeafAccess(word: nat, flags: nat, k: Access)
    requires HasFlags(word, flags)
    ensures Marked(word, k)
    ensures UserMay(word, k) <==> Bit(flags, 4) && Bit(flags, match k { case ToRead => 1 case ToWrite => 2 case ToRun => 3 })
  {
    hide Bit;
    assert Bit(word, 6) && Bit(word, 7);
    forall j | 1 <= j <= 4 ensures Bit(word, j) <==> Bit(flags, j) {
    }
    forall j | 0 <= j < 10 ensures Bit(word, j) <==> word / [1, 2, 4, 8, 16, 32, 64, 128, 256, 512][j] % 2 == 1 {
      BitAt(word, j);
    }
  }

  lemma BitAt(word: nat, k: nat)
    requires k < 10
    ensures Bit(word, k) <==> word / [1, 2, 4, 8, 16, 32, 64, 128, 256, 512][k] % 2 == 1
  {
    TenPowers(k);
  }

  lemma BitOr(a: nat, b: nat, k: nat)
    ensures Bit(Or(a, b), k) <==> Bit(a, k) || Bit(b, k)
  {
    hide Or;
    OrBits(a, b, k);
  }

  /** The walk of va in root ends at a 4 KiB leaf with these flags. */
  ghost predicate EndsAtLeaf(m: Mem, root: nat, va: u64, flags: nat) {
    var d := Descend(m, root, GetVpns(va), 0);
    d.Some? && d.value.level == 2 && HasFlags(d.value.word, flags)
  }

  lemma MappedFlags(m: Mem, m': Mem, shape: Shape, root: nat, va: u64, physical: u64, flags: nat)
    requires Mapped(m, m', shape, root, GetVpns(va), physical, flags) && IsRoot(shape, root)
    ensures EndsAtLeaf(m', root, va, flags)
  {
    hide Descend, LeafFlags, HasFlags;
    LeafFlagBits(Descend(m', root, GetVpns(va), 0).value.word, flags);
  }

  /** v is mapped to a page in root, and every other walk of every root is as before. */
  ghost predicate Mapped(m: Mem, m': Mem, shape: Shape, root: nat, v: Vpns, physical: u64, flags: nat) {
    forall r, w: Vpns :: IsRoot(shape, r) ==>
      if r == root && w == v then
        && Descend(m', r, w, 0).Some?
        && var f := Descend(m', r, w, 0).value;
        && f.level == 2 && f.word % 1024 == LeafFlags(flags) && EntryRaw(f.word) == PageBase(physical)
      else Descend(m', r, w, 0) == Descend(m, r, w, 0)
  }

  lemma MappedBehind(m: Mem, m1: Mem, m2: Mem, shape: Shape, root: nat, v: Vpns, physical: u64, flags: nat)
    requires SameWalks(m, m1, shape) && Mapped(m1, m2, shape, root, v, physical, flags)
    ensures Mapped(m, m2, shape, root, v, physical, flags)
  {
    hide Descend, LeafFlags;
  }

  lemma LeafFlagsValid(flags: nat, e: u64)
    requires e % 1024 == LeafFlags(flags)
    ensures EntryValid(e)
    ensures EntryFrame(e) <==> flags / 2 % 8 != 0
  {
    FlagTests(e);
    OrFlags(flags);
    LowFlags(Or(flags, VALID + ACCESSED + DIRTY));
  }

  /** Writing a last-level entry that was invalid maps exactly its address. */
  lemma MapLeaf(m: Mem, shape: Shape, l: Loc, root: nat, v: Vpns, physical: u64, flags: nat)
    requires Tree(m, shape) && l.page in shape && |shape[l.page].path| == 2 && IsRoot(shape, root)
    requires Through(shape, l, root, v)
    ensures var b := WithPhys(WithFlags(Load(m, l), Or(flags, VALID + ACCESSED + DIRTY)), physical);
      && Tree(Store(m, l, b), shape)
      && Mapped(m, Store(m, l, b), shape, root, v, physical, flags)
  {
    var f := Or(flags, VALID + ACCESSED + DIRTY);
    var b := WithPhys(WithFlags(Load(m, l), f), physical);
    EntryBuilt(Load(m, l), f, physical);
    LeafFlagsValid(flags, b);
    LeafStore(m, shape, l, b);
    forall r, w: Vpns | Through(shape, l, r, w) ensures r == root && w == v {
      assert w == w[..2] + [w[2]] && v == v[..2] + [v[2]];
    }
  }

  /** The found leaf of v in root became the word e; every other walk of every root is as before. */
  ghost predicate Rewritten(m: Mem, m': Mem, shape: Shape, root: nat, v: Vpns, e: u64)
    requires Descend(m, root, v, 0).Some?
  {
    var f := Descend(m, root, v, 0).value;
    forall r, w: Vpns :: IsRoot(shape, r) ==>
      Descend(m', r, w, 0) ==
        if r == root && f.level <= 2 && w[..f.level + 1] == v[..f.level + 1] then AtLeaf(f.loc, f.level, e)
        else Descend(m, r, w, 0)
  }

  /** A store of e into the found leaf; the trees survive unless it turns a superpage into a link. */
  lemma RewriteLeaf(m: Mem, shape: Shape, root: nat, v: Vpns, e: u64)
    requires Tree(m, shape) && IsRoot(shape, root) && Descend(m, root, v, 0).Some?
    ensures var f := Descend(m, root, v, 0).value;
      && f.level <= 2 && Inside(m, f.loc) && f.loc.page in shape && Load(m, f.loc) == f.word
      && (Tree(Store(m, f.loc, e), shape) <==> f.level == 2 || !IsLink(e))
      && (f.level == 2 || !IsLink(e) ==> Rewritten(m, Store(m, f.loc, e), shape, root, v, e))
  {
    assert Hangs(m, shape, root) && v[..0] == shape[root].path;
    FoundPlace(m, shape, root, v);
    var f := Descend(m, root, v, 0).value;
    var m' := Store(m, f.loc, e);
    if f.level == 2 || !IsLink(e) {
      LeafStore(m, shape, f.loc, e);
      forall r, w: Vpns | IsRoot(shape, r)
        ensures Descend(m', r, w, 0) ==
          if r == root && w[..f.level + 1] == v[..f.level + 1] then AtLeaf(f.loc, f.level, e) else Descend(m, r, w, 0)
      {
        SameLeaf(m, shape, root, v, r, w);
      }
    } else {
      NoLinkHere(m, shape, f.loc, e);
    }
  }

  /** What the walks of every root lack after the found leaf of v in root became the word e. */
  ghost predicate RewrittenLacks(m: Mem, m': Mem, shape: Shape, root: nat, v: Vpns, e: u64)
    requires Descend(m, root, v, 0).Some?
  {
    var f := Descend(m, root, v, 0).value;
    forall r, w: Vpns {:trigger Missing(m', r, w, 0)} :: IsRoot(shape, r) ==>
      Missing(m', r, w, 0) ==
        if r == root && f.level <= 2 && w[..f.level + 1] == v[..f.level + 1] then (if EntryValid(e) then 0 else 2 - f.level)
        else Missing(m, r, w, 0)
  }

  /** Without its leaf, a walk that ended above the last level lacks tables. */
  lemma RewriteLacks(m: Mem, shape: Shape, root: nat, v: Vpns, e: u64)
    requires Tree(m, shape) && IsRoot(shape, root) && Descend(m, root, v, 0).Some?
    requires Descend(m, root, v, 0).value.level == 2 || !IsLink(e)
    ensures RewrittenLacks(m, Store(m, Descend(m, root, v, 0).value.loc, e), shape, root, v, e)
  {
    hide Missing;
    RootPath(m, shape, root);
    FoundPlace(m, shape, root, v);
    var f := Descend(m, root, v, 0).value;
    forall r, w: Vpns | IsRoot(shape, r)
      ensures Missing(Store(m, f.loc, e), r, w, 0) ==
        if r == root && w[..f.level + 1] == v[..f.level + 1] then (if EntryValid(e) then 0 else 2 - f.level) else Missing(m, r, w, 0)
    {
      SameLeaf(m, shape, root, v, r, w);
      StoreMissing(m, shape, f.loc, e, r, w);
    }
  }

  /** A successful mmu_map followed by mmu_remove of the same address gives back every walk. */
  lemma RemoveUndoesMap(m: Mem, m1: Mem, m2: Mem, shape: Shape, root: nat, v: Vpns, physical: u64, flags: nat, e: u64)
    requires IsRoot(shape, root) && Descend(m, root, v, 0).None? && Mapped(m, m1, shape, root, v, physical, flags)
    requires Descend(m1, root, v, 0).Some? && Rewritten(m1, m2, shape, root, v, e) && !EntryValid(e)
    ensures SameWalks(m, m2, shape)
  {
    forall r, w: Vpns | IsRoot(shape, r) ensures Descend(m2, r, w, 0) == Descend(m, r, w, 0) {
      assert w[..3] == w && v[..3] == v;
    }
  }

  /** In terms of addresses: the mapped page translates as asked, all other addresses as before. */
  lemma MappedMeans(m: Mem, m': Mem, shape: Shape, root: nat, va: u64, physical: u64, flags: nat, r: nat, other: u64)
    requires Mapped(m, m', shape, root, GetVpns(va), physical, flags) && IsRoot(shape, r) && IsRoot(shape, root)
    ensures Translation(m', r, other) ==
      if r == root && GetVpns(other) == GetVpns(va) then
        if flags / 2 % 8 != 0 then Some(PageBase(physical) + other % 4096) else None
      else Translation(m, r, other)
  {
    if r == root && GetVpns(other) == GetVpns(va) {
      var f := Descend(m', r, GetVpns(other), 0).value;
      LeafFlagsValid(flags, f.word);
      assert f.level == 2 && Span(2) == 4096;
      DivModUnique(physical - physical % 4096, 4096, physical / 4096, 0);
      AlignedTarget(f, other);
    }
  }

  /** Which span of a level an address lies in: its page number without the indices below that level. */
  function SpanNumber(va: u64, level: nat): nat {
    if level == 0 then PageNumber(va) / 0x4_0000
    else if level == 1 then PageNumber(va) / 512
    else PageNumber(va)
  }

  /** Addresses with equal indices down to a level are those in the same span of that level. */
  lemma SameSpan(va: u64, other: u64, level: nat)
    requires level <= 2
    ensures GetVpns(va)[..level + 1] == GetVpns(other)[..level + 1]
      <==> SpanNumber(va, level) == SpanNumber(other, level)
  {
    VpnNumber(va);
    VpnNumber(other);
    SameDigits(GetVpns(va), GetVpns(other));
  }

  lemma SameDigits(v: Vpns, w: Vpns)
    ensures v[..1] == w[..1] <==> v[0] == w[0]
    ensures v[..2] == w[..2] <==> v[0] * 512 + v[1] == w[0] * 512 + w[1]
    ensures v[..3] == w[..3] <==> (v[0] * 512 + v[1]) * 512 + v[2] == (w[0] * 512 + w[1]) * 512 + w[2]
  {
    assert v[..1] == [v[0]] && v[..2] == [v[0], v[1]] && v[..3] == [v[0], v[1], v[2]];
    assert w[..1] == [w[0]] && w[..2] == [w[0], w[1]] && w[..3] == [w[0], w[1], w[2]];
  }

  /** mmu_remove makes exactly the addresses in the found leaf's span untranslatable. */
  lemma RemovedMeans(m: Mem, m': Mem, shape: Shape, root: nat, va: u64, e: u64, r: nat, other: u64)
    requires IsRoot(shape, root) && IsRoot(shape, r) && !EntryValid(e)
    requires Descend(m, root, GetVpns(va), 0).Some? && Rewritten(m, m', shape, root, GetVpns(va), e)
    ensures var f := Descend(m, root, GetVpns(va), 0).value;
      && f.level <= 2
      && Translation(m', r, other) ==
        if r == root && SpanNumber(va, f.level) == SpanNumber(other, f.level) then None
        else Translation(m, r, other)
  {
    FoundLevel(m, root, GetVpns(va), 0);
    SameSpan(va, other, Descend(m, root, GetVpns(va), 0).value.level);
  }

  /** Taking a free page as data changes no table, no walk, and no held page. */
  lemma DataPage(bottom: nat, rc: seq<nat>, k: nat, m: Mem, sh: Shape, root: nat, v: Vpns)
    requires Tree(m, sh) && TablesHeld(rc, bottom, sh) && (IsRoot(sh, root) || root !in m)
    requires k < |rc| && rc[k] == 0 && bottom + PAGE_SIZE * k in m && bottom + PAGE_SIZE * k != root
    ensures var t := bottom + PAGE_SIZE * k; var m' := m[t := ZeroPage()];
      && t !in sh && Tree(m', sh) && SameWalks(m, m', sh)
      && TablesHeld(Taken(rc, k, 1), bottom, sh) && HeldIn(Taken(rc, k, 1), bottom, t)
      && Extends(bottom, rc, m, sh, Taken(rc, k, 1), m', sh)
      && Missing(m', root, v, 0) == Missing(m, root, v, 0) && Descend(m', root, v, 0) == Descend(m, root, v, 0)
      && SameMissing(m, m', sh)
  {
    var t := bottom + PAGE_SIZE * k;
    assert (t - bottom) / PAGE_SIZE == k;
    assert !HeldIn(rc, bottom, t);
    forall a | a in sh ensures HeldIn(Taken(rc, k, 1), bottom, a) && a != t {
      assert HeldIn(rc, bottom, a);
    }
    OutsideTables(m, m[t := ZeroPage()], sh);
    OutsideMissing(m, m[t := ZeroPage()], sh);
    if IsRoot(sh, root) {
      SameWalk(m, m[t := ZeroPage()], sh, root, v);
    }
  }

  /** Giving a page back after taking it alone restores the counts, unless it is page 0 (memory.c:55). */
  lemma TakeAndDrop(rc: seq<nat>, k: nat)
    requires k < |rc| && rc[k] == 0
    ensures Dropped(Taken(rc, k, 1), k, 1) == rc != Taken(rc, k, 1)
  {
    assert Taken(rc, k, 1)[k] == 1;
  }

  predicate PageZeroHeld(rc: seq<nat>) {
    |rc| > 0 && rc[0] != 0
  }

  /** Tables, walks and held pages are as before. */
  ghost predicate Untouched(bottom: nat, rc: seq<nat>, m: Mem, sh: Shape, m': Mem, sh': Shape) {
    && sh' == sh && m'.Keys == m.Keys && SameWalks(m, m', sh)
    && forall a :: a in m && HeldIn(rc, bottom, a) ==> m'[a] == m[a]
  }

  /** A zeroed page nobody held, and that is no table, is now held. */
  ghost predicate NewPage(bottom: nat, rc: seq<nat>, rc': seq<nat>, m': Mem, sh': Shape, page: nat) {
    && page in m' && m'[page] == ZeroPage() && 0 < page < WINDOW && page % 4096 == 0
    && HeldIn(rc', bottom, page) && !HeldIn(rc, bottom, page) && page !in sh'
  }

  lemma NewPageKept(bottom: nat, rc: seq<nat>, rc1: seq<nat>, m1: Mem, sh: Shape, rc2: seq<nat>, m2: Mem, sh2: Shape, page: nat)
    requires NewPage(bottom, rc, rc1, m1, sh, page) && Extends(bottom, rc1, m1, sh, rc2, m2, sh2)
    ensures NewPage(bottom, rc, rc2, m2, sh2, page)
  {
  }

  /** The mapping of va in root is refused (mmu_map returns -1). */
  ghost predicate Refused(m: Mem, root: u64, va: u64) {
    root == 0 || Descend(m, root, GetVpns(va), 0).Some?
  }

  /** What is left of n pages after one is taken, if there is one. */
  function Less(n: nat): nat {
    if n == 0 then 0 else n - 1
  }

  /** The page that an mmu_alloc takes for data: the first free one, or none. */
  ghost function PageFor(bottom: nat, rc: seq<nat>): nat {
    if Available(rc) == 0 then 0 else bottom + PAGE_SIZE * Fit(rc, 1)
  }

  /** How many pages a refused mmu_alloc keeps: page 0 of the heap has no counter to lower. */
  function Leaked(rc: seq<nat>): nat {
    if PageZeroHeld(rc) || Available(rc) == 0 then 0 else 1
  }

  /** After a data page is taken too few pages are left for the missing tables. */
  ghost predicate OutOfPages(rc: seq<nat>, m: Mem, root: u64, va: u64) {
    !Refused(m, root, va) && Less(Available(rc)) < Missing(m, root, GetVpns(va), 0)
  }

  /** A refused mmu_alloc: the page it took, if any, is given back. */
  ghost predicate RefusedClean(bottom: nat, rc: seq<nat>, m: Mem, sh: Shape, rc': seq<nat>, m': Mem, sh': Shape) {
    && Untouched(bottom, rc, m, sh, m', sh')
    && rc' == (if PageZeroHeld(rc) || Available(rc) == 0 then rc else Taken(rc, 0, 1)) == TakeN(rc, Leaked(rc))
    && SameMissing(m, m', sh) && (Available(rc) == 0 ==> m' == m)
  }

  lemma RefusedGrows(bottom: nat, rc: seq<nat>, m: Mem, sh: Shape, rc': seq<nat>, m': Mem, sh': Shape)
    requires RefusedClean(bottom, rc, m, sh, rc', m', sh')
    ensures Grows(bottom, rc, m, sh, rc', m', sh')
    ensures rc' == rc <==> PageZeroHeld(rc) || Available(rc) == 0
  {
    if Available(rc) > 0 {
      assert Taken(rc, 0, 1)[0] == 1;
    }
  }

  /** A successful mmu_alloc: va is mapped to the page, and one page and the missing tables are taken. */
  ghost predicate Allocated(bottom: nat, rc: seq<nat>, m: Mem, sh: Shape, rc': seq<nat>, m': Mem, sh': Shape,
                            root: u64, va: u64, page: u64, flags: nat) {
    && Mapped(m, m', sh, root, GetVpns(va), page, flags)
    && Extends(bottom, rc, m, sh, rc', m', sh')
    && Less(Available(rc)) == Available(rc') + Missing(m, root, GetVpns(va), 0)
    && rc' == TakeN(rc, (if Available(rc) == 0 then 0 else 1) + Missing(m, root, GetVpns(va), 0))
    && MissingGrew(m, m', sh, root, GetVpns(va)) && Missing(m', root, GetVpns(va), 0) == 0
  }

  // ----- a new address space -----

  /** Entry i of the upper half of a new root: a 1 GiB page of the kernel window (mmu.c:308-315). */
  function DirectWord(i: nat): u64
    requires 256 <= i < 512
  {
    Or64(Shl28(i - 256), GLOBAL + READ + WRITE + VALID)
  }

  function Shl28(i: nat): u64
    requires i < 256
  {
    i * 0x1000_0000
  }

  lemma DirectWordFields(i: nat)
    requires 256 <= i < 512
    ensures DirectWord(i) == (i - 256) * 0x1000_0000 + 0x27
    ensures var e := DirectWord(i); EntryValid(e) && EntryFrame(e) && EntryRaw(e) == (i - 256) * 0x4000_0000
  {
    hide EntryValid, EntryFrame, EntryRaw, Or, And;
    assert Pow2(8) == 256 && GLOBAL + READ + WRITE + VALID == 0x27;
    DivModUnique(Shl28(i - 256), 256, (i - 256) * 0x10_0000, 0);
    OrDisjoint(Shl28(i - 256), 0x27, 8);
    var e := DirectWord(i);
    assert e == (i - 256) * 0x1000_0000 + 0x27;
    DivModUnique(e, 1024, (i - 256) * 0x4_0000, 0x27);
    FlagTests(e);
    EntryFields(e);
  }

  /** Every upper-half walk of the root ends at its entry of the kernel window. */
  ghost predicate DirectMapped(m: Mem, root: nat) {
    forall w: Vpns :: w[0] >= 256 ==>
      Descend(m, root, w, 0) == Some(Found(Loc(root, w[0]), 0, DirectWord(w[0])))
  }

  /** The entry of the kernel window that the alias of p goes through. */
  function DirectEntry(root: nat, p: u64): Found
    requires p < WINDOW
  {
    var i := 256 + p / 0x4000_0000;
    Found(Loc(root, i), 0, DirectWord(i))
  }

  lemma DirectTarget(root: nat, p: u64)
    requires p < WINDOW
    ensures EntryFrame(DirectEntry(root, p).word)
    ensures Target(DirectEntry(root, p), KERNEL_SPACE_OFFSET + p) == p
    ensures Safe2Phys(AliasTarget(DirectEntry(root, p), KERNEL_SPACE_OFFSET + p, true), true) == p
  {
    hide Or, And, Pow2, DirectWord;
    WindowFields(p);
    var i := p / 0x4000_0000;
    var f := DirectEntry(root, p);
    DirectWordFields(256 + i);
    assert Span(0) == 0x4000_0000 && EntryRaw(f.word) == i * 0x4000_0000;
    DivModUnique(i * 0x4000_0000, 0x4000_0000, i, 0);
    AlignedTarget(f, KERNEL_SPACE_OFFSET + p);
    AliasExact(f, KERNEL_SPACE_OFFSET + p, true);
  }

  /** Then the alias of every physical address in the window translates back to it. */
  lemma DirectMapTranslates(m: Mem, root: nat, p: u64)
    requires DirectMapped(m, root) && p < WINDOW
    ensures Phys2Safe(p, true) == KERNEL_SPACE_OFFSET + p
    ensures Descend(m, root, GetVpns(KERNEL_SPACE_OFFSET + p), 0) == Some(DirectEntry(root, p))
    ensures Translation(m, root, KERNEL_SPACE_OFFSET + p) == Some(p)
    ensures Safe2Phys(AliasTarget(DirectEntry(root, p), KERNEL_SPACE_OFFSET + p, true), true) == p
  {
    hide Or, And, Pow2, DirectWord, GetVpns, Target, AliasTarget;
    WindowFields(p);
    DirectTarget(root, p);
  }

  lemma WindowFields(p: u64)
    requires p < WINDOW
    ensures GetVpns(KERNEL_SPACE_OFFSET + p)[0] == 256 + p / 0x4000_0000
    ensures (KERNEL_SPACE_OFFSET + p) % 0x4000_0000 == p % 0x4000_0000
  {
    hide GetVpns, GetOffset;
    var va := KERNEL_SPACE_OFFSET + p;
    var i, low := p / 0x4000_0000, p % 0x4000_0000;
    assert va == 0x4000_0000 * (0x3_ffff_ff00 + i) + low;
    DivModUnique(va, 0x4000_0000, 0x3_ffff_ff00 + i, low);
    DivModUnique(0x3_ffff_ff00 + i, 512, 0x1ff_ffff, 256 + i);
    VpnFields(va);
  }

  /** Every walk that found an entry, and every walk of another root, is as before. */
  ghost predicate KeepsFound(m: Mem, m': Mem, shape: Shape, root: nat) {
    forall r, w: Vpns :: IsRoot(shape, r) && (r != root || Descend(m, r, w, 0).Some?) ==>
      Descend(m', r, w, 0) == Descend(m, r, w, 0)
  }

  /** The walks of the other roots lack as many tables as before. */
  ghost predicate OthersLack(m: Mem, m': Mem, shape: Shape, root: nat) {
    forall r, w: Vpns {:trigger Missing(m', r, w, 0)} :: IsRoot(shape, r) && r != root ==> Missing(m', r, w, 0) == Missing(m, r, w, 0)
  }

  lemma OthersLackTwice(m: Mem, m1: Mem, m2: Mem, sh: Shape, sh1: Shape, root: nat)
    requires OthersLack(m, m1, sh, root) && OthersLack(m1, m2, sh1, root) && SameRoots(sh, sh1)
    ensures OthersLack(m, m2, sh, root)
  {
    hide Missing;
    forall r, w: Vpns | IsRoot(sh, r) && r != root ensures Missing(m2, r, w, 0) == Missing(m, r, w, 0) {
      assert IsRoot(sh1, r);
      assert Missing(m2, r, w, 0) == Missing(m1, r, w, 0);
    }
  }

  /** What is mapped in a root that was none before leaves what the older roots lack. */
  lemma NewRootMissing(m: Mem, m1: Mem, m2: Mem, sh: Shape, sh1: Shape, root: nat)
    requires SameMissing(m, m1, sh) && OthersLack(m1, m2, sh1, root) && !IsRoot(sh, root)
    requires forall r :: IsRoot(sh, r) ==> IsRoot(sh1, r)
    ensures SameMissing(m, m2, sh)
  {
    hide Missing;
    forall r, w: Vpns | IsRoot(sh, r) ensures Missing(m2, r, w, 0) == Missing(m, r, w, 0) {
      assert IsRoot(sh1, r);
      assert Missing(m1, r, w, 0) == Missing(m, r, w, 0);
    }
  }

  lemma GrewOthers(m: Mem, m': Mem, sh: Shape, root: nat, v: Vpns)
    requires MissingGrew(m, m', sh, root, v)
    ensures OthersLack(m, m', sh, root)
  {
    hide Missing;
  }

  /** q is one of the pages start, start + 4096, ... below end. */
  predicate InRange(q: u64, start: nat, end: nat) {
    start <= q < end && q % 4096 == start % 4096
  }

  /** No earlier page of the range has the same indices (pages 2^39 bytes apart do). */
  ghost predicate FirstWith(q: u64, start: nat) {
    forall r: u64 :: InRange(r, start, q) ==> GetVpns(r) != GetVpns(q)
  }

  /** Exactly the pages of the range are mapped, to the first page with their indices where nothing was mapped. */
  ghost predicate Identity(m: Mem, m': Mem, root: nat, start: nat, end: nat, flags: nat) {
    && (forall q: u64 :: InRange(q, start, end) ==>
          && Descend(m', root, GetVpns(q), 0).Some?
          && (Descend(m, root, GetVpns(q), 0).None? && FirstWith(q, start) ==>
                var f := Descend(m', root, GetVpns(q), 0).value;
                f.level == 2 && f.word % 1024 == LeafFlags(flags) && EntryRaw(f.word) == PageBase(q)))
    && (forall w: Vpns :: (forall q: u64 :: InRange(q, start, end) ==> GetVpns(q) != w) ==>
          Descend(m', root, w, 0) == Descend(m, root, w, 0))
  }

  lemma DistinctPages(q: u64, p: u64)
    requires q < 0x40_0000_0000 && p < 0x40_0000_0000 && GetVpns(q) == GetVpns(p)
    ensures q / 4096 == p / 4096
  {
    hide GetVpns;
    VpnNumber(q);
    VpnNumber(p);
    assert q / 0x1000 % 0x800_0000 == q / 0x1000 && p / 0x1000 % 0x800_0000 == p / 0x1000;
  }

  lemma SameKeepsFound(m: Mem, m': Mem, shape: Shape, root: nat)
    requires SameWalks(m, m', shape)
    ensures KeepsFound(m, m', shape, root)
  {
    hide Descend;
  }

  lemma KeepsRoots(m: Mem, m': Mem, sh: Shape, sh': Shape, root: nat)
    requires KeepsFound(m, m', sh, root) && SameRoots(sh, sh')
    ensures KeepsFound(m, m', sh', root)
  {
    hide Descend;
  }

  lemma NoPageYet(bottom: nat, rc: seq<nat>, m: Mem, shape: Shape, root: nat, start: nat, flags: nat)
    ensures Extends(bottom, rc, m, shape, rc, m, shape)
    ensures KeepsFound(m, m, shape, root) && Identity(m, m, root, start, start, flags)
  {
  }

  /** Below 2^38 every page is the first with its indices. */
  lemma FirstBelow(q: u64, start: nat)
    requires q < 0x40_0000_0000 && q % 4096 == start % 4096
    ensures FirstWith(q, start)
  {
    hide GetVpns;
    forall r: u64 | InRange(r, start, q) ensures GetVpns(r) != GetVpns(q) {
      if GetVpns(r) == GetVpns(q) {
        DistinctPages(r, q);
      }
    }
  }

  /** One more page of an identity range, mapped or refused. */
  lemma IdentityStep(m: Mem, m1: Mem, m2: Mem, shape: Shape, root: nat, start: nat, p: u64, flags: nat)
    requires IsRoot(shape, root) && start <= p && p % 4096 == start % 4096
    requires KeepsFound(m, m1, shape, root) && Identity(m, m1, root, start, p, flags)
    requires if Descend(m1, root, GetVpns(p), 0).None? then Mapped(m1, m2, shape, root, GetVpns(p), p, flags) else m2 == m1
    ensures KeepsFound(m, m2, shape, root) && Identity(m, m2, root, start, p + 4096, flags)
  {
    hide Descend, GetVpns, LeafFlags;
    forall q: u64 | InRange(q, start, p + 4096)
      ensures Descend(m2, root, GetVpns(q), 0).Some?
      ensures Descend(m, root, GetVpns(q), 0).None? && FirstWith(q, start) ==>
        var f := Descend(m2, root, GetVpns(q), 0).value;
        f.level == 2 && f.word % 1024 == LeafFlags(flags) && EntryRaw(f.word) == PageBase(q)
    {
      RangeStep(q, start, p);
    }
    forall w: Vpns | forall q: u64 :: InRange(q, start, p + 4096) ==> GetVpns(q) != w
      ensures Descend(m2, root, w, 0) == Descend(m, root, w, 0)
    {
      RangeStep(p, start, p);
      forall q: u64 | InRange(q, start, p) ensures GetVpns(q) != w {
        RangeStep(q, start, p);
      }
    }
  }

  lemma IdentityEnd(m: Mem, m': Mem, root: nat, start: nat, p: nat, end: nat, flags: nat)
    requires Identity(m, m', root, start, p, flags) && p >= end && (p < end + 4096 || p == start)
    requires p % 4096 == start % 4096
    ensures Identity(m, m', root, start, end, flags)
  {
    forall q: u64 ensures InRange(q, start, p) <==> InRange(q, start, end) {
      RangeEnd(q, start, p, end);
    }
  }

  lemma RangeEnd(q: u64, start: nat, p: nat, end: nat)
    requires end <= p && (p < end + 4096 || p == start) && p % 4096 == start % 4096
    ensures InRange(q, start, p) <==> InRange(q, start, end)
  {
    if InRange(q, start, p) {
      assert p - q == 4096 * (p / 4096 - q / 4096);
    }
  }

  lemma RangeStep(q: u64, start: nat, p: u64)
    requires start <= p && p % 4096 == start % 4096
    ensures InRange(q, start, p + 4096) <==> InRange(q, start, p) || q == p
  {
  }

  datatype Range = Range(start: u64, end: u64, flags: nat)

  /** The walk w is the one of a page of the range. */
  ghost predicate Covers(g: Range, w: Vpns) {
    exists q: u64 :: InRange(q, g.start, g.end) && GetVpns(q) == w
  }

  ghost predicate CoveredBefore(ranges: seq<Range>, n: nat, w: Vpns) {
    exists j :: 0 <= j < n && j < |ranges| && Covers(ranges[j], w)
  }

  /** Of the first n ranges exactly the pages are mapped, to themselves with the flags of the first that has them. */
  ghost predicate IdentityAll(m: Mem, m': Mem, root: nat, ranges: seq<Range>, n: nat)
    requires n <= |ranges|
  {
    && (forall i, q: u64 :: 0 <= i < n && InRange(q, ranges[i].start, ranges[i].end) ==>
          IdentityPage(m, m', root, ranges, i, q))
    && (forall w: Vpns :: !CoveredBefore(ranges, n, w) ==> Descend(m', root, w, 0) == Descend(m, root, w, 0))
  }

  ghost predicate IdentityPage(m: Mem, m': Mem, root: nat, ranges: seq<Range>, i: nat, q: u64)
    requires i < |ranges|
  {
    var d := Descend(m', root, GetVpns(q), 0);
    d.Some? && (Descend(m, root, GetVpns(q), 0).None? && !CoveredBefore(ranges, i, GetVpns(q)) && FirstWith(q, ranges[i].start) ==>
      d.value.level == 2 && d.value.word % 1024 == LeafFlags(ranges[i].flags) && EntryRaw(d.value.word) == PageBase(q))
  }

  lemma NoRangesYet(m: Mem, root: nat, ranges: seq<Range>)
    ensures IdentityAll(m, m, root, ranges, 0)
  {
  }

  lemma IdentityAllStep(m: Mem, m1: Mem, m2: Mem, shape: Shape, root: nat, ranges: seq<Range>, n: nat)
    requires n < |ranges| && IsRoot(shape, root) && IdentityAll(m, m1, root, ranges, n)
    requires KeepsFound(m1, m2, shape, root)
    requires Identity(m1, m2, root, ranges[n].start, ranges[n].end, ranges[n].flags)
    ensures IdentityAll(m, m2, root, ranges, n + 1)
  {
    hide Descend, GetVpns, LeafFlags;
    var g := ranges[n];
    forall i, q: u64 | 0 <= i < n + 1 && InRange(q, ranges[i].start, ranges[i].end)
      ensures IdentityPage(m, m2, root, ranges, i, q)
    {
      if i < n {
        assert IdentityPage(m, m1, root, ranges, i, q);
      } else if !CoveredBefore(ranges, n, GetVpns(q)) {
        assert Descend(m1, root, GetVpns(q), 0) == Descend(m, root, GetVpns(q), 0);
      }
    }
    forall w: Vpns | !CoveredBefore(ranges, n + 1, w) ensures Descend(m2, root, w, 0) == Descend(m, root, w, 0) {
      assert !CoveredBefore(ranges, n, w) && !Covers(g, w);
      forall q: u64 | InRange(q, g.start, g.end) ensures GetVpns(q) != w {
      }
    }
  }

  /** Nothing is mapped in the lower half. */
  ghost predicate LowerEmpty(m: Mem, root: nat) {
    forall w: Vpns :: w[0] < 256 ==> Descend(m, root, w, 0).None?
  }

  /** The lower half of a new space: every page of a range translates to itself, all other addresses do not. */
  lemma NewSpaceMeans(m: Mem, m': Mem, root: nat, ranges: seq<Range>, va: u64)
    requires LowerEmpty(m, root) && IdentityAll(m, m', root, ranges, |ranges|) && va < 0x40_0000_0000
    requires forall i :: 0 <= i < |ranges| ==> ranges[i].flags / 2 % 8 != 0 && ranges[i].end <= 0x40_0000_0000
    ensures Translation(m', root, va) == if CoveredBefore(ranges, |ranges|, GetVpns(va)) then Some(va) else None
  {
    hide Descend, Target, LeafFlags, PageBase, EntryFrame, GetVpns;
    VpnFields(va);
    if CoveredBefore(ranges, |ranges|, GetVpns(va)) {
      var i := FirstCover(ranges, |ranges|, GetVpns(va));
      var q: u64 :| InRange(q, ranges[i].start, ranges[i].end) && GetVpns(q) == GetVpns(va);
      assert IdentityPage(m, m', root, ranges, i, q);
      FirstBelow(q, ranges[i].start);
      DistinctPages(q, va);
      var f := Descend(m', root, GetVpns(va), 0).value;
      LeafFlagsValid(ranges[i].flags, f.word);
      SamePageTarget(f, q, va);
    }
  }

  lemma SamePageTarget(f: Found, q: u64, va: u64)
    requires f.level == 2 && EntryRaw(f.word) == PageBase(q) && q / 4096 == va / 4096
    ensures Target(f, va) == va
  {
    hide Target, EntryRaw;
    assert Span(2) == 4096;
    DivModUnique(q - q % 4096, 4096, q / 4096, 0);
    AlignedTarget(f, va);
  }

  lemma FirstCover(ranges: seq<Range>, n: nat, w: Vpns) returns (i: nat)
    requires n <= |ranges| && CoveredBefore(ranges, n, w)
    ensures i < n && Covers(ranges[i], w) && !CoveredBefore(ranges, i, w)
  {
    hide Covers;
    i := 0;
    while !Covers(ranges[i], w)
      invariant i < n && !CoveredBefore(ranges, i, w)
      decreases n - i
    {
      i := i + 1;
    }
  }

  lemma KeepsFoundTransitive(m: Mem, m1: Mem, m2: Mem, shape: Shape, shape1: Shape, root: nat)
    requires KeepsFound(m, m1, shape, root) && KeepsFound(m1, m2, shape1, root)
    requires SameRoots(shape, shape1)
    ensures KeepsFound(m, m2, shape, root)
  {
    forall r, w: Vpns | IsRoot(shape, r) && (r != root || Descend(m, r, w, 0).Some?)
      ensures Descend(m2, r, w, 0) == Descend(m, r, w, 0)
    {
      assert IsRoot(shape1, r);
      assert Descend(m1, r, w, 0) == Descend(m, r, w, 0);
    }
  }

  /** The page of a new root after the upper half has been filled up to entry n. */
  ghost predicate TopPage(p: Page, n: nat) {
    forall j :: 0 <= j < 512 ==> Word(p, j) == if 256 <= j < n then DirectWord(j) else 0
  }

  lemma TopPageRoot(m: Mem, shape: Shape, t: nat, p: Page)
    requires Tree(m, shape) && t in m && t !in shape && 0 < t < WINDOW && t % 4096 == 0
    requires TopPage(p, 512)
    ensures Tree(m[t := p], shape[t := Node(t, [], 0)])
    ensures SameWalks(m, m[t := p], shape) && SameMissing(m, m[t := p], shape)
    ensures DirectMapped(m[t := p], t) && LowerEmpty(m[t := p], t)
  {
    InvalidZero();
    forall i | 0 <= i < 512 ensures !IsLink(Word(p, i)) {
      InvalidZero();
      if i >= 256 {
        DirectWordFields(i);
      }
    }
    NewRoot(m, shape, t, p);
    OutsideMissing(m, m[t := p], shape);
    forall w: Vpns | w[0] >= 256
      ensures Descend(m[t := p], t, w, 0) == Some(Found(Loc(t, w[0]), 0, DirectWord(w[0])))
    {
      DirectWordFields(w[0]);
    }
  }
}
