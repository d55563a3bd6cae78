/** How many inner tables it takes to map any list of pages in one root (kernel/src/mmu.c), in order. */
module Demand {
  import opened Words
  import opened Ram
  import opened Entries
  import opened PageTable
  import opened Mapping

  /** How many tables each walk of the root lacks. */
  function Lacks(m: Mem, root: nat): Vpns -> nat {
    (w: Vpns) => Missing(m, root, w, 0)
  }

  /** What w lacks after the walks vs were mapped, or found mapped, if f told it before. */
  function After(f: Vpns -> nat, vs: seq<Vpns>, w: Vpns): nat {
    if vs == [] then f(w) else MissingWith(After(f, vs[..|vs| - 1], w), Common(vs[|vs| - 1], w), 2)
  }

  /** The tables that mapping vs takes: for each walk those that it lacks when its turn comes. */
  function Tables(f: Vpns -> nat, vs: seq<Vpns>): nat {
    if vs == [] then 0 else Tables(f, vs[..|vs| - 1]) + After(f, vs[..|vs| - 1], vs[|vs| - 1])
  }

  ghost predicate Lacking(m: Mem, root: nat, f: Vpns -> nat, vs: seq<Vpns>) {
    forall w: Vpns {:trigger Missing(m, root, w, 0)} :: Missing(m, root, w, 0) == After(f, vs, w)
  }

  lemma LackingStart(m: Mem, root: nat)
    ensures Lacking(m, root, Lacks(m, root), [])
  {
    hide Missing;
  }

  lemma LackingAt(m: Mem, root: nat, f: Vpns -> nat, vs: seq<Vpns>, v: Vpns)
    requires Lacking(m, root, f, vs)
    ensures Missing(m, root, v, 0) == After(f, vs, v)
    ensures Tables(f, vs + [v]) == Tables(f, vs) + Missing(m, root, v, 0)
  {
    hide Missing;
    assert (vs + [v])[..|vs|] == vs;
  }

  lemma FoundLacksNone(m: Mem, page: nat, v: Vpns, level: nat)
    requires level <= 2 && Descend(m, page, v, level).Some?
    ensures Missing(m, page, v, level) == 0
    decreases 2 - level
  {
  }

  /** v was mapped, or refused because the walk found an entry. */
  lemma Attempted(m: Mem, m': Mem, sh: Shape, root: nat, f: Vpns -> nat, vs: seq<Vpns>, v: Vpns)
    requires Lacking(m, root, f, vs) && IsRoot(sh, root)
    requires (m' == m || MissingGrew(m, m', sh, root, v)) && Missing(m', root, v, 0) == 0
    ensures Lacking(m', root, f, vs + [v])
  {
    hide Missing, MissingWith, Common;
    assert (vs + [v])[..|vs|] == vs;
    forall w: Vpns ensures Missing(m', root, w, 0) == After(f, vs + [v], w) {
      assert Missing(m, root, w, 0) == After(f, vs, w);
      if m' == m {
        MissingShared(m, root, v, w);
      }
    }
  }

  lemma LackingSame(m: Mem, m': Mem, sh: Shape, root: nat, f: Vpns -> nat, vs: seq<Vpns>)
    requires Lacking(m, root, f, vs) && SameMissing(m, m', sh) && IsRoot(sh, root)
    ensures Lacking(m', root, f, vs)
  {
    hide Missing, After;
  }

  /** More walks need at least as many tables. */
  lemma {:induction false} TablesGrow(f: Vpns -> nat, vs: seq<Vpns>, n: nat)
    requires n <= |vs|
    ensures Tables(f, vs[..n]) <= Tables(f, vs)
  {
    if n < |vs| {
      var front := vs[..|vs| - 1];
      TablesGrow(f, front, n);
      assert front[..n] == vs[..n];
    } else {
      assert vs[..n] == vs;
    }
  }

  // ----- pages one behind the other -----

  function PlaceAt(va: nat): Vpns {
    if va < WORD then GetVpns(va) else [0, 0, 0]
  }

  /** The walks of n pages from va on. */
  function Places(va: nat, n: nat): (vs: seq<Vpns>)
    ensures |vs| == n && forall i :: 0 <= i < n ==> vs[i] == PlaceAt(va + PAGE_SIZE * i)
  {
    if n == 0 then [] else Places(va, n - 1) + [PlaceAt(va + PAGE_SIZE * (n - 1))]
  }

  lemma PlacesPrefix(va: nat, j: nat, n: nat)
    requires j <= n
    ensures Places(va, n)[..j] == Places(va, j)
  {
    hide PlaceAt;
  }

  /** The pages from start on that begin below end. */
  function Count(start: nat, end: nat): nat {
    if start < end then (end - start + PAGE_SIZE - 1) / PAGE_SIZE else 0
  }

  lemma CountIs(start: nat, end: nat, n: nat)
    requires start + PAGE_SIZE * n >= end && (n > 0 ==> start + PAGE_SIZE * (n - 1) < end)
    ensures Count(start, end) == n
  {
  }

  /** The walks of the pages of the first n ranges, in order. */
  function Walks(ranges: seq<Range>, n: nat): seq<Vpns>
    requires n <= |ranges|
  {
    if n == 0 then [] else Walks(ranges, n - 1) + Places(ranges[n - 1].start, Count(ranges[n - 1].start, ranges[n - 1].end))
  }

  // ----- a new root -----

  /** In a new root a lower-half walk lacks both tables; the kernel window needs none. */
  function NewLacks(): Vpns -> nat {
    (w: Vpns) => if w[0] < 256 then 2 else 0
  }

  function Tops(vs: seq<Vpns>): set<nat> {
    set i | 0 <= i < |vs| && vs[i][0] < 256 :: vs[i][0]
  }

  function Pairs(vs: seq<Vpns>): set<(nat, nat)> {
    set i | 0 <= i < |vs| && vs[i][0] < 256 :: (vs[i][0], vs[i][1])
  }

  lemma SetsSnoc(vs: seq<Vpns>, v: Vpns)
    ensures Tops(vs + [v]) == if v[0] < 256 then Tops(vs) + {v[0]} else Tops(vs)
    ensures Pairs(vs + [v]) == if v[0] < 256 then Pairs(vs) + {(v[0], v[1])} else Pairs(vs)
  {
    var us := vs + [v];
    forall t ensures t in Tops(us) <==> t in (if v[0] < 256 then Tops(vs) + {v[0]} else Tops(vs)) {
      if t in Tops(vs) {
        var i :| 0 <= i < |vs| && vs[i][0] < 256 && vs[i][0] == t;
        assert us[i] == vs[i];
      }
      if v[0] < 256 {
        assert us[|vs|] == v;
      }
    }
    forall t ensures t in Pairs(us) <==> t in (if v[0] < 256 then Pairs(vs) + {(v[0], v[1])} else Pairs(vs)) {
      if t in Pairs(vs) {
        var i :| 0 <= i < |vs| && vs[i][0] < 256 && (vs[i][0], vs[i][1]) == t;
        assert us[i] == vs[i];
      }
      if v[0] < 256 {
        assert us[|vs|] == v;
      }
    }
  }

  lemma {:induction false} AfterNew(vs: seq<Vpns>, w: Vpns)
    ensures After(NewLacks(), vs, w) ==
      if w[0] >= 256 || (w[0], w[1]) in Pairs(vs) then 0 else if w[0] in Tops(vs) then 1 else 2
    ensures (w[0], w[1]) in Pairs(vs) ==> w[0] in Tops(vs)
  {
    if vs != [] {
      var front, v := vs[..|vs| - 1], vs[|vs| - 1];
      assert vs == front + [v];
      AfterNew(front, w);
      SetsSnoc(front, v);
    }
  }

  /** In a new root the tables are as many as the different first indices and first pairs of indices below the window. */
  lemma {:induction false} NewTables(vs: seq<Vpns>)
    ensures Tables(NewLacks(), vs) == |Tops(vs)| + |Pairs(vs)|
  {
    if vs != [] {
      var front, v := vs[..|vs| - 1], vs[|vs| - 1];
      assert vs == front + [v];
      NewTables(front);
      SetsSnoc(front, v);
      AfterNew(front, v);
    }
  }
}
