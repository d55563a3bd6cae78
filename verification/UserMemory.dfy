/** User memory as a program in an address space sees it, and a contiguous run of mapped pages. */
module UserMemory {
  import opened Words
  import opened Ram
  import opened DirectMap
  import opened Entries
  import opened Options
  import opened PageTable
  import opened Sv39
  import opened Standard

  function ReadByte(m: Mem, root: nat, va: u64): Option<u8> {
    match Translation(m, root, va)
    case None => None
    case Some(pa) => if PageBase(pa) in m then Some(m[PageBase(pa)][pa % 4096]) else None
  }

  /** n bytes from va on, when all of them are mapped. */
  function ReadBytes(m: Mem, root: nat, va: u64, n: nat): Option<seq<u8>>
    requires va + n <= WORD
  {
    if n == 0 then Some([])
    else match (ReadBytes(m, root, va, n - 1), ReadByte(m, root, va + n - 1))
      case (Some(s), Some(b)) => Some(s + [b])
      case _ => None
  }

  /** A program in user mode may read and write, but not run, what mmu_translate gives for these addresses. */
  ghost predicate UserOwns(m: Mem, root: nat, from: nat, to: nat) {
    forall va: u64 {:trigger Translation(m, root, va)} :: from <= va < to ==>
      && Translation(m, root, va).Some?
      && UserTranslation(m, root, va, ToRead) == Translation(m, root, va)
      && UserTranslation(m, root, va, ToWrite) == Translation(m, root, va)
      && UserTranslation(m, root, va, ToRun) == None
  }

  /** The leaves of these addresses are 4 KiB pages with exactly those flags. */
  ghost predicate UserPages(m: Mem, root: nat, from: nat, to: nat) {
    forall va: u64 :: from <= va < to ==> UserPage(m, root, va)
  }

  ghost predicate UserPage(m: Mem, root: nat, va: u64) {
    var d := Descend(m, root, GetVpns(va), 0);
    d.Some? && d.value.level == 2 && d.value.word % 1024 == USER_DATA
  }

  lemma UserBits(word: u64)
    requires word % 1024 == USER_DATA
    ensures UserMay(word, ToRead) && UserMay(word, ToWrite) && !UserMay(word, ToRun)
    ensures Marked(word, ToRead) && Marked(word, ToWrite)
  {
    TenBits(word);
    FlagBit(word, 8, 64);
  }

  /** Such pages are the program's where the hardware reads what mmu_translate names. */
  lemma PagesOwned(m: Mem, root: nat, from: nat, to: nat)
    requires UserPages(m, root, from, to) && to <= WORD
    requires forall va: u64 :: from <= va < to ==> StandardTranslation(m, root, va) == Translation(m, root, va)
    ensures UserOwns(m, root, from, to)
  {
    hide Descend, GetVpns, StandardTranslation, UserTranslation, UserMay, Marked, EntryFrame, Target;
    forall va: u64 | from <= va < to
      ensures Translation(m, root, va).Some?
      ensures UserTranslation(m, root, va, ToRead) == Translation(m, root, va) == UserTranslation(m, root, va, ToWrite)
      ensures UserTranslation(m, root, va, ToRun) == None
    {
      assert UserPage(m, root, va);
      var word := Descend(m, root, GetVpns(va), 0).value.word;
      UserDataFrame(word);
      UserBits(word);
      UserExact(m, root, va, ToRead);
      UserExact(m, root, va, ToWrite);
      UserExact(m, root, va, ToRun);
    }
  }

  /** The bytes of the given pages in order. */
  function Flat(m: Mem, phys: seq<nat>): (s: seq<u8>)
    requires forall j :: 0 <= j < |phys| ==> phys[j] in m
    ensures |s| == 4096 * |phys|
  {
    if phys == [] then [] else Flat(m, phys[..|phys| - 1]) + m[phys[|phys| - 1]]
  }

  lemma {:induction false} FlatSame(m: Mem, m': Mem, phys: seq<nat>)
    requires forall j :: 0 <= j < |phys| ==> phys[j] in m && phys[j] in m' && m'[phys[j]] == m[phys[j]]
    ensures Flat(m', phys) == Flat(m, phys)
  {
    if phys != [] {
      FlatSame(m, m', phys[..|phys| - 1]);
    }
  }

  /** V, R, W, U, A and D (bits 0, 1, 2, 4, 6 and 7 of section 4.4) and no other flag. */
  const USER_DATA := 0xd7

  lemma UserDataFrame(word: u64)
    requires word % 1024 == USER_DATA
    ensures EntryFrame(word)
  {
    hide EntryFrame;
    FlagTests(word);
  }

  /** Page j of the run that starts at v0 is mapped to phys[j], for the program to read and write. */
  ghost predicate BackedAt(m: Mem, root: nat, v0: nat, phys: seq<nat>, j: nat)
    requires j < |phys| && v0 + 4096 * |phys| <= WINDOW
  {
    var d := Descend(m, root, GetVpns(v0 + 4096 * j), 0);
    && phys[j] in m && phys[j] % 4096 == 0
    && d.Some? && d.value.level == 2 && d.value.word % 1024 == USER_DATA && EntryRaw(d.value.word) == phys[j]
  }

  ghost predicate Backed(m: Mem, root: nat, v0: nat, phys: seq<nat>) {
    && v0 % 4096 == 0 && v0 + 4096 * |phys| <= WINDOW
    && forall j :: 0 <= j < |phys| ==> BackedAt(m, root, v0, phys, j)
  }

  lemma SamePage(base: u64, o: nat)
    requires base % 4096 == 0 && o < 4096
    ensures base + o < WORD && (base + o) % 4096 == o
    ensures (base + o) / 0x1000 == base / 0x1000
    ensures (base + o) / 0x20_0000 == base / 0x20_0000
    ensures (base + o) / 0x4000_0000 == base / 0x4000_0000
  {
  }

  lemma SamePageVpns(base: u64, o: nat)
    requires base % 4096 == 0 && o < 4096
    ensures base + o < WORD && GetVpns(base + o) == GetVpns(base)
  {
    SamePage(base, o);
    VpnFields(base);
    VpnFields(base + o);
  }

  /** A byte of a mapped 4 KiB page. */
  lemma LeafByte(m: Mem, root: nat, base: u64, page: nat, o: nat)
    requires base % 4096 == 0 && o < 4096 && page in m && page % 4096 == 0
    requires var d := Descend(m, root, GetVpns(base), 0);
      d.Some? && d.value.level == 2 && EntryFrame(d.value.word) && EntryRaw(d.value.word) == page
    ensures base + o < WORD && ReadByte(m, root, base + o) == Some(m[page][o])
  {
    hide Or, And, GetVpns, Target;
    SamePage(base, o);
    SamePageVpns(base, o);
    var f := Descend(m, root, GetVpns(base), 0).value;
    assert Span(2) == 4096;
    AlignedTarget(f, base + o);
    DivModUnique(page + o, 4096, page / 4096, o);
  }

  lemma PageByte(m: Mem, root: nat, v0: nat, phys: seq<nat>, j: nat, o: nat)
    requires Backed(m, root, v0, phys) && j < |phys| && o < 4096
    ensures v0 + 4096 * j + o < WINDOW && phys[j] in m
    ensures ReadByte(m, root, v0 + 4096 * j + o) == Some(m[phys[j]][o])
  {
    hide Or, And, ReadByte, EntryFrame, EntryRaw, Descend, GetVpns;
    assert BackedAt(m, root, v0, phys, j);
    UserDataFrame(Descend(m, root, GetVpns(v0 + 4096 * j), 0).value.word);
    LeafByte(m, root, v0 + 4096 * j, phys[j], o);
  }

  /** Every address of the run has such a page. */
  lemma BackedPages(m: Mem, root: nat, v0: nat, phys: seq<nat>)
    requires Backed(m, root, v0, phys)
    ensures UserPages(m, root, v0, v0 + 4096 * |phys|)
  {
    hide Descend, GetVpns, EntryRaw;
    forall va: u64 | v0 <= va < v0 + 4096 * |phys| ensures UserPage(m, root, va) {
      var j, o := (va - v0) / 4096, (va - v0) % 4096;
      assert va == v0 + 4096 * j + o;
      SamePageVpns(v0 + 4096 * j, o);
      assert BackedAt(m, root, v0, phys, j);
    }
  }

  /** What user code reads at offset i of the run is byte i of its pages. */
  lemma {:induction false} FlatRead(m: Mem, root: nat, v0: nat, phys: seq<nat>, i: nat)
    requires Backed(m, root, v0, phys) && i < 4096 * |phys|
    requires forall j :: 0 <= j < |phys| ==> phys[j] in m
    ensures v0 + i < WINDOW && ReadByte(m, root, v0 + i) == Some(Flat(m, phys)[i])
  {
    hide ReadByte;
    var n := |phys| - 1;
    if i < 4096 * n {
      forall j | 0 <= j < n ensures BackedAt(m, root, v0, phys[..n], j) {
        assert BackedAt(m, root, v0, phys, j);
      }
      FlatRead(m, root, v0, phys[..n], i);
    } else {
      PageByte(m, root, v0, phys, n, i - 4096 * n);
    }
  }

  lemma {:induction false} FlatReads(m: Mem, root: nat, v0: nat, phys: seq<nat>, i: nat, n: nat)
    requires Backed(m, root, v0, phys) && i + n <= 4096 * |phys|
    requires forall j :: 0 <= j < |phys| ==> phys[j] in m
    ensures ReadBytes(m, root, v0 + i, n) == Some(Flat(m, phys)[i..i + n])
  {
    hide ReadByte, Flat;
    if n > 0 {
      FlatReads(m, root, v0, phys, i, n - 1);
      FlatRead(m, root, v0, phys, i + n - 1);
      SliceLast(Flat(m, phys), i, n);
    }
  }
}
