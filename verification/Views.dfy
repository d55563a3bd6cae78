/**
 * What an address space is for its user: a map from the indices of an address to the leaf that they end at. The
 * operations of kernel/src/mmu.c on such maps, and what they say of the tables in memory.
 */
module Views {
  import opened Words
  import opened Ram
  import opened Entries
  import opened Options
  import opened Pages
  import opened PageTable
  import opened Sv39
  import opened Mapping
  import opened Demand

  /** The last entry of a walk: its level, its ten flag bits and its physical page. */
  datatype Leaf = LeafAt(level: nat, flags: nat, page: nat)

  type Space = Vpns -> Option<Leaf>

  function LeafOf(f: Found): Leaf {
    LeafAt(f.level, f.word % 1024, EntryRaw(f.word))
  }

  function SeenAt(m: Mem, root: nat, w: Vpns): Option<Leaf> {
    match Descend(m, root, w, 0)
    case None => None
    case Some(f) => Some(LeafOf(f))
  }

  /** The space that the tables of this root define. */
  function Seen(m: Mem, root: nat): Space {
    (w: Vpns) => SeenAt(m, root, w)
  }

  ghost predicate Shows(m: Mem, root: nat, s: Space) {
    forall w: Vpns {:trigger s(w)} {:trigger SeenAt(m, root, w)} :: SeenAt(m, root, w) == s(w)
  }

  lemma ShowsSeen(m: Mem, root: nat)
    ensures Shows(m, root, Seen(m, root))
  {
    hide SeenAt;
  }

  /** The translation of an address in a space. */
  function Translated(s: Space, va: u64): Option<nat> {
    match s(GetVpns(va))
    case None => None
    case Some(f) =>
      if f.flags / 2 % 8 != 0 && f.level <= 2 && f.page < WORD then Some(Or64(f.page, Low(va, f.level))) else None
  }

  lemma TranslationSeen(m: Mem, root: nat, s: Space, va: u64)
    requires Shows(m, root, s)
    ensures Translated(s, va) == Translation(m, root, va)
  {
    hide Descend, GetVpns, EntryRaw, EntryFrame;
    assert SeenAt(m, root, GetVpns(va)) == s(GetVpns(va));
    FoundLevel(m, root, GetVpns(va), 0);
    var d := Descend(m, root, GetVpns(va), 0);
    if d.Some? {
      FlagTests(d.value.word);
    }
  }

  // ----- the operations on spaces -----

  /** v gets the leaf, unless it has one. */
  function MapIn(s: Space, v: Vpns, leaf: Leaf): Space {
    (w: Vpns) => if w == v && s(v).None? then Some(leaf) else s(w)
  }

  /** The leaf of v, for all addresses that it covers, gets other flags; without the valid bit it is gone. */
  function Reflag(s: Space, v: Vpns, flags: nat): Space {
    match s(v)
    case None => s
    case Some(f) =>
      (w: Vpns) => if f.level <= 2 && w[..f.level + 1] == v[..f.level + 1]
           then (if flags % 2 == 1 then Some(f.(flags := flags)) else None) else s(w)
  }

  function PageLeaf(physical: nat, flags: nat): Leaf {
    LeafAt(2, LeafFlags(flags), physical - physical % 4096)
  }

  /** n pages from va on, each to itself. */
  function MapPages(s: Space, va: nat, n: nat, flags: nat): Space {
    if n == 0 then s
    else
      var p := va + PAGE_SIZE * (n - 1);
      MapIn(MapPages(s, va, n - 1, flags), PlaceAt(p), PageLeaf(p, flags))
  }

  /** The pages of the first n ranges, each to itself. */
  function MapRanges(s: Space, ranges: seq<Range>, n: nat): Space
    requires n <= |ranges|
  {
    if n == 0 then s
    else
      var g := ranges[n - 1];
      MapPages(MapRanges(s, ranges, n - 1), g.start, Count(g.start, g.end), g.flags)
  }

  /** The kernel window above, nothing below. */
  function NewSpace(): Space {
    (w: Vpns) => if w[0] >= 256 then Some(LeafAt(0, GLOBAL + READ + WRITE + VALID, (w[0] - 256) * 0x4000_0000)) else None
  }

  // ----- what they say of the tables -----

  lemma SameShows(m: Mem, m': Mem, sh: Shape, r: nat, s: Space)
    requires SameWalks(m, m', sh) && IsRoot(sh, r) && Shows(m, r, s)
    ensures Shows(m', r, s)
  {
    hide Descend, LeafOf;
    forall w: Vpns ensures SeenAt(m', r, w) == s(w) {
      assert SeenAt(m, r, w) == s(w);
    }
  }

  lemma MappedShows(m: Mem, m': Mem, sh: Shape, root: nat, v: Vpns, physical: u64, flags: nat, r: nat, s: Space)
    requires Mapped(m, m', sh, root, v, physical, flags) && Descend(m, root, v, 0).None?
    requires IsRoot(sh, r) && Shows(m, r, s)
    ensures Shows(m', r, if r == root then MapIn(s, v, PageLeaf(physical, flags)) else s)
  {
    hide Descend, LeafFlags, EntryRaw;
    forall w: Vpns ensures SeenAt(m', r, w) == if r == root then MapIn(s, v, PageLeaf(physical, flags))(w) else s(w) {
      assert SeenAt(m, r, w) == s(w);
    }
  }

  /** A refused mapping is one in the map, too. */
  lemma RefusedShows(m: Mem, root: nat, v: Vpns, leaf: Leaf, s: Space)
    requires Descend(m, root, v, 0).Some? && Shows(m, root, s)
    ensures Shows(m, root, MapIn(s, v, leaf))
  {
    hide Descend, LeafOf;
    assert SeenAt(m, root, v) == s(v);
    forall w: Vpns ensures SeenAt(m, root, w) == MapIn(s, v, leaf)(w) {
    }
  }

  lemma LeafReflagged(f: Found, flags: nat)
    ensures var d := AtLeaf(f.loc, f.level, WithFlags(f.word, flags));
      && (d.Some? <==> flags % 1024 % 2 == 1)
      && (d.Some? ==> LeafOf(d.value) == LeafOf(f).(flags := flags % 1024))
  {
    hide WithFlags, EntryRaw, EntryValid;
    FlagsReplaced(f.word, flags);
    FlagTests(WithFlags(f.word, flags));
  }

  lemma RewrittenShows(m: Mem, m': Mem, sh: Shape, root: nat, v: Vpns, flags: nat, r: nat, s: Space)
    requires Descend(m, root, v, 0).Some? && IsRoot(sh, r) && Shows(m, r, s)
    requires Rewritten(m, m', sh, root, v, WithFlags(Descend(m, root, v, 0).value.word, flags))
    ensures Shows(m', r, if r == root then Reflag(s, v, flags % 1024) else s)
  {
    hide Descend, WithFlags, AtLeaf, LeafOf, Shows;
    LeafReflagged(Descend(m, root, v, 0).value, flags);
    ShowsAt(m, r, s, v);
    SameLevel(Descend(m, root, v, 0).value);
    forall w: Vpns ensures SeenAt(m', r, w) == if r == root then Reflag(s, v, flags % 1024)(w) else s(w) {
      ShowsAt(m, r, s, w);
    }
    ShowsAll(m', r, if r == root then Reflag(s, v, flags % 1024) else s);
  }

  lemma SameLevel(f: Found)
    ensures LeafOf(f).level == f.level
  {
  }

  lemma ShowsAt(m: Mem, r: nat, s: Space, w: Vpns)
    requires Shows(m, r, s)
    ensures SeenAt(m, r, w) == s(w)
  {
    hide SeenAt;
  }

  lemma ShowsAll(m: Mem, r: nat, s: Space)
    requires forall w: Vpns :: SeenAt(m, r, w) == s(w)
    ensures Shows(m, r, s)
  {
    hide SeenAt;
  }

  lemma NewShows(m: Mem, root: nat)
    requires DirectMapped(m, root) && LowerEmpty(m, root)
    ensures Shows(m, root, NewSpace())
  {
    hide Descend, DirectWord, EntryRaw, EntryValid, EntryFrame;
    forall w: Vpns ensures SeenAt(m, root, w) == NewSpace()(w) {
      if w[0] >= 256 {
        DirectWordFields(w[0]);
        DivModUnique(DirectWord(w[0]), 1024, (w[0] - 256) * 0x4_0000, 0x27);
      }
    }
  }

  // ----- a list of pages, mapped one after the other -----

  /** The pages that the walks vs took are those that rc lost to rc', and the space is s. */
  ghost predicate Spent(rc: seq<nat>, rc': seq<nat>, m: Mem, root: nat, f: Vpns -> nat, vs: seq<Vpns>, s: Space) {
    && Lacking(m, root, f, vs) && Shows(m, root, s)
    && Available(rc) == Available(rc') + Tables(f, vs) && rc' == TakeN(rc, Tables(f, vs))
  }

  /** One attempt to map a page. */
  lemma SpentMore(rc: seq<nat>, rc1: seq<nat>, m: Mem, sh: Shape, rc2: seq<nat>, m': Mem, root: nat, v: Vpns, physical: u64, flags: nat,
                  f: Vpns -> nat, vs: seq<Vpns>, s: Space)
    requires Spent(rc, rc1, m, root, f, vs, s) && IsRoot(sh, root)
    requires if Descend(m, root, v, 0).Some? then m' == m && rc2 == rc1
             else Mapped(m, m', sh, root, v, physical, flags) && MissingGrew(m, m', sh, root, v)
                  && Missing(m', root, v, 0) == 0 && Available(rc1) == Available(rc2) + Missing(m, root, v, 0)
                  && rc2 == TakeN(rc1, Missing(m, root, v, 0))
    ensures Spent(rc, rc2, m', root, f, vs + [v], MapIn(s, v, PageLeaf(physical, flags)))
  {
    hide Descend, Missing, MissingGrew, Mapped, Available, Shows, Lacking, Tables, TakeN;
    LackingAt(m, root, f, vs, v);
    if Descend(m, root, v, 0).Some? {
      FoundLacksNone(m, root, v, 0);
      RefusedShows(m, root, v, PageLeaf(physical, flags), s);
    } else {
      MappedShows(m, m', sh, root, v, physical, flags, root, s);
      TakeMore(rc, Tables(f, vs), Missing(m, root, v, 0));
    }
    Attempted(m, m', sh, root, f, vs, v);
  }

  /** The attempt runs out of pages exactly when more tables are needed than there were pages. */
  lemma SpentOut(rc: seq<nat>, rc': seq<nat>, m: Mem, root: nat, f: Vpns -> nat, vs: seq<Vpns>, s: Space, v: Vpns)
    requires Spent(rc, rc', m, root, f, vs, s)
    ensures Available(rc) < Tables(f, vs + [v]) <==> Descend(m, root, v, 0).None? && Available(rc') < Missing(m, root, v, 0)
    ensures Available(rc) >= Tables(f, vs)
  {
    hide Descend, Missing, Available, Shows, Lacking, Tables, TakeN;
    LackingAt(m, root, f, vs, v);
    if Descend(m, root, v, 0).Some? {
      FoundLacksNone(m, root, v, 0);
    }
  }

  lemma SpentStart(rc: seq<nat>, m: Mem, root: nat, f: Vpns -> nat, s: Space)
    requires Lacking(m, root, f, []) && Shows(m, root, s)
    ensures Spent(rc, rc, m, root, f, [], s)
  {
  }

  lemma SpentEnough(rc: seq<nat>, rc': seq<nat>, m: Mem, root: nat, f: Vpns -> nat, vs: seq<Vpns>, s: Space)
    requires Spent(rc, rc', m, root, f, vs, s)
    ensures Available(rc) >= Tables(f, vs)
  {
  }

  lemma NoPages(vs: seq<Vpns>, s: Space, start: nat, flags: nat)
    ensures vs + Places(start, 0) == vs && MapPages(s, start, 0, flags) == s
  {
  }

  lemma OnePageMore(f: Vpns -> nat, vs: seq<Vpns>, s: Space, start: nat, end: nat, i: nat, flags: nat)
    requires start + PAGE_SIZE * i < end
    ensures var p := start + PAGE_SIZE * i;
      && (vs + Places(start, i)) + [PlaceAt(p)] == vs + Places(start, i + 1)
      && MapIn(MapPages(s, start, i, flags), PlaceAt(p), PageLeaf(p, flags)) == MapPages(s, start, i + 1, flags)
    ensures Tables(f, vs + Places(start, i + 1)) <= Tables(f, vs + Places(start, Count(start, end)))
  {
    hide Tables, PlaceAt, MapIn;
    var n := Count(start, end);
    BelowCount(start, end, i);
    PlacesPrefix(start, i + 1, n);
    TablesGrow(f, vs + Places(start, n), |vs| + i + 1);
    assert (vs + Places(start, n))[..|vs| + i + 1] == vs + Places(start, n)[..i + 1];
  }

  lemma BelowCount(start: nat, end: nat, i: nat)
    requires start + PAGE_SIZE * i < end
    ensures i < Count(start, end)
  {
  }

  lemma NoRanges(s: Space, ranges: seq<Range>)
    ensures Walks(ranges, 0) == [] && MapRanges(s, ranges, 0) == s
  {
  }

  lemma OneRangeMore(f: Vpns -> nat, s: Space, ranges: seq<Range>, i: nat)
    requires i < |ranges|
    ensures var g := ranges[i];
      && Walks(ranges, i) + Places(g.start, Count(g.start, g.end)) == Walks(ranges, i + 1)
      && MapPages(MapRanges(s, ranges, i), g.start, Count(g.start, g.end), g.flags) == MapRanges(s, ranges, i + 1)
    ensures Tables(f, Walks(ranges, i + 1)) <= Tables(f, Walks(ranges, |ranges|))
  {
    hide Tables, Places, Count, MapPages;
    WalksPrefix(ranges, i + 1, |ranges|);
    TablesGrow(f, Walks(ranges, |ranges|), |Walks(ranges, i + 1)|);
    assert Walks(ranges, |ranges|)[..|Walks(ranges, i + 1)|] == Walks(ranges, i + 1);
  }

  lemma {:induction false} WalksPrefix(ranges: seq<Range>, i: nat, n: nat)
    requires i <= n <= |ranges|
    ensures Walks(ranges, i) <= Walks(ranges, n)
  {
    hide Places, Count;
    if i < n {
      WalksPrefix(ranges, i, n - 1);
    }
  }

  /** A new root has no inner tables. */
  lemma TopPageLacks(m: Mem, root: nat)
    requires root in m && TopPage(m[root], 512)
    ensures Lacking(m, root, NewLacks(), [])
  {
    InvalidZero();
    forall w: Vpns ensures Missing(m, root, w, 0) == NewLacks()(w) {
      if w[0] >= 256 {
        DirectWordFields(w[0]);
      }
    }
  }
}
