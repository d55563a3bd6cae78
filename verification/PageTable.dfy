/**
 * Page tables as data: what a walk through physical memory finds, when all tables form
 * unshared trees, and what one store into a table does to every walk of every root.
 */
module PageTable {
  import opened Words
  import opened Ram
  import opened DirectMap
  import opened Entries
  import opened Options

  /** The last entry a walk reaches: its place, its level (0 is the root) and its word. */
  datatype Found = Found(loc: Loc, level: nat, word: u64)

  predicate IsLink(e: u64) {
    EntryValid(e) && !EntryFrame(e)
  }

  /** The walk of the indices v that has reached the table at `page`. */
  function Descend(m: Mem, page: nat, v: Vpns, level: nat): Option<Found>
    requires level <= 2
    decreases 2 - level
  {
    if page !in m then None
    else
      var e := Word(m[page], v[level]);
      if !EntryValid(e) then None
      else if EntryFrame(e) || level == 2 then Some(Found(Loc(page, v[level]), level, e))
      else Descend(m, EntryRaw(e), v, level + 1)
  }

  /** The number of inner tables that must be created before v has a last-level entry. */
  function Missing(m: Mem, page: nat, v: Vpns, level: nat): nat
    requires level <= 2
    decreases 2 - level
  {
    if page !in m then 0
    else
      var e := Word(m[page], v[level]);
      if !EntryValid(e) then 2 - level
      else if EntryFrame(e) || level == 2 then 0
      else Missing(m, EntryRaw(e), v, level + 1)
  }

  lemma MissingBound(m: Mem, page: nat, v: Vpns, level: nat)
    requires level <= 2
    ensures Missing(m, page, v, level) <= 2 - level
    decreases 2 - level
  {
  }

  function Min(a: nat, b: nat): nat {
    if a < b then a else b
  }

  /** The number of inner tables that two walks of one root share when they exist. */
  function Common(v: Vpns, w: Vpns): (c: nat)
    ensures c <= 2
  {
    if v[0] != w[0] then 0 else if v[1] != w[1] then 1 else 2
  }

  /** What is missing for a walk that shares c tables with one that now has d of them, if x were missing before. */
  function MissingWith(x: nat, c: nat, d: nat): nat
    requires c <= 2
  {
    Min(x, 2 - Min(c, d))
  }

  /** A walk lacks no table that it shares with one that has it. */
  lemma MissingShared(m: Mem, page: nat, v: Vpns, w: Vpns)
    ensures Missing(m, page, v, 0) <= 2
    ensures Missing(m, page, w, 0) == MissingWith(Missing(m, page, w, 0), Common(v, w), 2 - Missing(m, page, v, 0))
  {
    MissingBound(m, page, v, 0);
    MissingBound(m, page, w, 0);
    if page in m && v[0] == w[0] && IsLink(Word(m[page], v[0])) {
      var child := EntryRaw(Word(m[page], v[0]));
      MissingBound(m, child, w, 1);
      if child in m && v[1] == w[1] && IsLink(Word(m[child], v[1])) {
        MissingBound(m, EntryRaw(Word(m[child], v[1])), w, 2);
      }
    }
  }

  // ----- trees of tables -----

  /** A table's position: the root of its tree, the indices leading to it, the table above it. */
  datatype Node = Node(root: nat, path: seq<nat>, parent: nat)

  type Shape = map<nat, Node>

  /** Entry i of table a: below the last level, a valid non-leaf entry names the child table. */
  ghost predicate LinkOk(m: Mem, shape: Shape, a: nat, i: nat)
    requires a in shape && a in m && i < 512
  {
    |shape[a].path| < 2 && IsLink(Word(m[a], i)) ==>
      var c := EntryRaw(Word(m[a], i));
      c in shape && shape[c] == Node(shape[a].root, shape[a].path + [i], a)
  }

  /** Table a hangs below exactly the entry that its position names. */
  ghost predicate Hangs(m: Mem, shape: Shape, a: nat)
    requires a in shape
  {
    var n := shape[a];
    if n.path == [] then n.root == a
    else
      && n.parent in shape && n.parent in m && shape[n.parent].root == n.root
      && var k := |n.path| - 1;
      && shape[n.parent].path == n.path[..k]
      && n.path[k] < 512
      && IsLink(Word(m[n.parent], n.path[k]))
      && EntryRaw(Word(m[n.parent], n.path[k])) == a
  }

  ghost predicate Tree(m: Mem, shape: Shape) {
    && (forall a :: a in shape ==> a in m && 0 < a < WINDOW && a % 4096 == 0 && |shape[a].path| <= 2)
    && (forall a {:trigger Hangs(m, shape, a)} :: a in shape ==> Hangs(m, shape, a))
    && (forall a, i :: a in shape && 0 <= i < 512 ==> LinkOk(m, shape, a, i))
  }

  ghost predicate IsRoot(shape: Shape, r: nat) {
    r in shape && shape[r].path == []
  }

  /** No two tables have the same position: the trees are unshared. */
  lemma {:induction false} Unshared(m: Mem, shape: Shape, a: nat, b: nat)
    requires Tree(m, shape) && a in shape && b in shape
    requires shape[a].root == shape[b].root && shape[a].path == shape[b].path
    ensures a == b
    decreases |shape[a].path|
  {
    assert Hangs(m, shape, a) && Hangs(m, shape, b);
    if shape[a].path != [] {
      Unshared(m, shape, shape[a].parent, shape[b].parent);
    }
  }

  /** The indices v pass through entry l of root r's tree. */
  ghost predicate Through(shape: Shape, l: Loc, r: nat, v: Vpns)
    requires l.page in shape
  {
    var n := shape[l.page];
    |n.path| <= 2 && n.root == r && v[..|n.path|] == n.path && v[|n.path|] == l.idx
  }

  /** A walk that passes through an entry reaches the table holding it. */
  lemma {:induction false} WalkReaches(m: Mem, shape: Shape, a: nat, v: Vpns)
    requires Tree(m, shape) && a in shape && v[..|shape[a].path|] == shape[a].path
    ensures Descend(m, shape[a].root, v, 0) == Descend(m, a, v, |shape[a].path|)
    ensures Missing(m, shape[a].root, v, 0) == Missing(m, a, v, |shape[a].path|)
    decreases |shape[a].path|
  {
    var n := shape[a];
    assert Hangs(m, shape, a);
    if n.path != [] {
      var k := |n.path| - 1;
      assert v[..k] == v[..k + 1][..k] == n.path[..k];
      assert v[k] == v[..k + 1][k] == n.path[k];
      WalkReaches(m, shape, n.parent, v);
    }
  }

  /** The tables differ at most in entry l. */
  ghost predicate OnlyAt(m: Mem, m': Mem, shape: Shape, l: Loc) {
    && m'.Keys == m.Keys
    && forall c: Loc :: Inside(m, c) && c != l ==> Load(m', c) == Load(m, c)
  }

  /** A walk only depends on the entries it passes through. */
  lemma {:induction false} WalkFrame(m: Mem, m': Mem, shape: Shape, l: Loc, a: nat, v: Vpns)
    requires Tree(m, shape) && OnlyAt(m, m', shape, l)
    requires l.page in shape && a in shape && v[..|shape[a].path|] == shape[a].path
    requires !Through(shape, l, shape[a].root, v)
    ensures Descend(m', a, v, |shape[a].path|) == Descend(m, a, v, |shape[a].path|)
    ensures Missing(m', a, v, |shape[a].path|) == Missing(m, a, v, |shape[a].path|)
    decreases 2 - |shape[a].path|
  {
    var level := |shape[a].path|;
    var e := Load(m, Loc(a, v[level]));
    assert Load(m', Loc(a, v[level])) == e;
    if IsLink(e) && level < 2 {
      assert LinkOk(m, shape, a, v[level]);
      assert v[..level + 1] == v[..level] + [v[level]];
      WalkFrame(m, m', shape, l, EntryRaw(e), v);
    }
  }

  ghost predicate SameWalks(m: Mem, m': Mem, shape: Shape) {
    forall r, v: Vpns :: IsRoot(shape, r) ==> Descend(m', r, v, 0) == Descend(m, r, v, 0)
  }

  lemma SameWalksTransitive(m: Mem, m1: Mem, m2: Mem, shape: Shape, shape1: Shape)
    requires SameWalks(m, m1, shape) && SameWalks(m1, m2, shape1)
    requires forall r :: IsRoot(shape, r) ==> IsRoot(shape1, r)
    ensures SameWalks(m, m2, shape)
  {
    forall r, v: Vpns | IsRoot(shape, r) ensures Descend(m2, r, v, 0) == Descend(m, r, v, 0) {
      assert IsRoot(shape1, r);
      assert Descend(m2, r, v, 0) == Descend(m1, r, v, 0);
    }
  }

  /** Stores outside the tables change no walk and keep the trees. */
  lemma OutsideTables(m: Mem, m': Mem, shape: Shape)
    requires Tree(m, shape)
    requires forall a :: a in shape ==> a in m' && m'[a] == m[a]
    ensures Tree(m', shape)
    ensures SameWalks(m, m', shape)
  {
    forall a | a in shape ensures Hangs(m', shape, a) {
      assert Hangs(m, shape, a);
    }
    forall a, i | a in shape && 0 <= i < 512 ensures LinkOk(m', shape, a, i) {
      assert LinkOk(m, shape, a, i);
    }
    forall r, v: Vpns | IsRoot(shape, r) ensures Descend(m', r, v, 0) == Descend(m, r, v, 0) {
      SameWalk(m, m', shape, r, v);
    }
  }

  lemma {:induction false} SameWalk(m: Mem, m': Mem, shape: Shape, a: nat, v: Vpns)
    requires Tree(m, shape) && a in shape && v[..|shape[a].path|] == shape[a].path
    requires forall c :: c in shape ==> c in m' && m'[c] == m[c]
    ensures Descend(m', a, v, |shape[a].path|) == Descend(m, a, v, |shape[a].path|)
    ensures Missing(m', a, v, |shape[a].path|) == Missing(m, a, v, |shape[a].path|)
    decreases 2 - |shape[a].path|
  {
    var level := |shape[a].path|;
    var e := Word(m[a], v[level]);
    if IsLink(e) && level < 2 {
      assert LinkOk(m, shape, a, v[level]);
      assert v[..level + 1] == v[..level] + [v[level]];
      SameWalk(m, m', shape, EntryRaw(e), v);
    }
  }

  // ----- a new inner table -----

  lemma LinkWord(e: u64, t: nat)
    requires 0 < t < WINDOW && t % 4096 == 0
    ensures var b := WithPhys(WithFlags(e, VALID), t); IsLink(b) && EntryRaw(b) == t
  {
    hide And, Or, Pow2;
    EntryBuilt(e, VALID, t);
    assert VALID % 1024 == 1;
    FlagTests(WithPhys(WithFlags(e, VALID), t));
  }

  lemma InvalidZero()
    ensures !EntryValid(0)
  {
  }

  ghost predicate CanLink(m: Mem, shape: Shape, l: Loc, t: nat, b: u64) {
    && Tree(m, shape) && l.page in shape && l.idx < 512
    && |shape[l.page].path| < 2 && !EntryValid(Load(m, l))
    && t in m && t !in shape && 0 < t < WINDOW && t % 4096 == 0 && m[t] == ZeroPage()
    && IsLink(b) && EntryRaw(b) == t
  }

  ghost function Linked(shape: Shape, l: Loc, t: nat): Shape
    requires l.page in shape
  {
    shape[t := Node(shape[l.page].root, shape[l.page].path + [l.idx], l.page)]
  }

  lemma LinkHangs(m: Mem, shape: Shape, l: Loc, t: nat, b: u64, a: nat)
    requires CanLink(m, shape, l, t, b) && a in Linked(shape, l, t)
    ensures Hangs(Store(m, l, b), Linked(shape, l, t), a)
  {
    var n := shape[l.page];
    LoadOfStore(m, l, b);
    if a == t {
      assert (n.path + [l.idx])[..|n.path|] == n.path;
      assert Load(Store(m, l, b), l) == b;
    } else {
      assert Hangs(m, shape, a);
      if shape[a].path != [] {
        var up := Loc(shape[a].parent, shape[a].path[|shape[a].path| - 1]);
        assert up != l;
        assert Load(Store(m, l, b), up) == Load(m, up);
      }
    }
  }

  lemma LinkLinks(m: Mem, shape: Shape, l: Loc, t: nat, b: u64, a: nat, i: nat)
    requires CanLink(m, shape, l, t, b) && a in Linked(shape, l, t) && i < 512
    ensures LinkOk(Store(m, l, b), Linked(shape, l, t), a, i)
  {
    LoadOfStore(m, l, b);
    if a == t {
      ZeroWord(i);
      InvalidZero();
    } else if Loc(a, i) == l {
      assert Load(Store(m, l, b), l) == b;
    } else {
      assert LinkOk(m, shape, a, i);
      assert Load(Store(m, l, b), Loc(a, i)) == Load(m, Loc(a, i));
    }
  }

  /** Hanging a zeroed page t below an invalid entry keeps the trees. */
  lemma LinkTree(m: Mem, shape: Shape, l: Loc, t: nat, b: u64)
    requires CanLink(m, shape, l, t, b)
    ensures Tree(Store(m, l, b), Linked(shape, l, t))
  {
    var m', shape' := Store(m, l, b), Linked(shape, l, t);
    forall a | a in shape' ensures Hangs(m', shape', a) {
      LinkHangs(m, shape, l, t, b, a);
    }
    forall a, i | a in shape' && 0 <= i < 512 ensures LinkOk(m', shape', a, i) {
      LinkLinks(m, shape, l, t, b, a, i);
    }
  }

  /** ... and every walk of every root. */
  lemma LinkWalk(m: Mem, shape: Shape, l: Loc, t: nat, b: u64, r: nat, v: Vpns)
    requires CanLink(m, shape, l, t, b) && IsRoot(shape, r)
    ensures Descend(Store(m, l, b), r, v, 0) == Descend(m, r, v, 0)
  {
    var m', shape' := Store(m, l, b), Linked(shape, l, t);
    LoadOfStore(m, l, b);
    assert Hangs(m, shape, r);
    if Through(shape, l, r, v) {
      WalkReaches(m, shape, l.page, v);
      LinkTree(m, shape, l, t, b);
      WalkReaches(m', shape', l.page, v);
      ZeroWord(v[|shape[l.page].path| + 1]);
      InvalidZero();
      assert Load(m', l) == b;
    } else {
      WalkFrame(m, m', shape, l, r, v);
    }
  }

  lemma LinkMissing(m: Mem, shape: Shape, l: Loc, t: nat, b: u64, r: nat, v: Vpns)
    requires CanLink(m, shape, l, t, b) && IsRoot(shape, r) && Through(shape, l, r, v)
    ensures Missing(m, r, v, 0) == 2 - |shape[l.page].path|
    ensures Missing(Store(m, l, b), r, v, 0) == 1 - |shape[l.page].path|
  {
    var m', shape' := Store(m, l, b), Linked(shape, l, t);
    WalkReaches(m, shape, l.page, v);
    LinkTree(m, shape, l, t, b);
    WalkReaches(m', shape', l.page, v);
    LoadOfStore(m, l, b);
    assert Load(m', l) == b;
    ZeroWord(v[|shape[l.page].path| + 1]);
    InvalidZero();
  }

  /** From m to m' only tables on the path of v in root were added: what is missing for every walk of every root. */
  ghost predicate MissingGrew(m: Mem, m': Mem, sh: Shape, root: nat, v: Vpns) {
    Missing(m', root, v, 0) <= 2 &&
    forall r, w: Vpns {:trigger Missing(m', r, w, 0)} :: IsRoot(sh, r) ==>
      Missing(m', r, w, 0) ==
        if r == root then MissingWith(Missing(m, r, w, 0), Common(v, w), 2 - Missing(m', root, v, 0)) else Missing(m, r, w, 0)
  }

  ghost predicate SameMissing(m: Mem, m': Mem, sh: Shape) {
    forall r, w: Vpns {:trigger Missing(m', r, w, 0)} :: IsRoot(sh, r) ==> Missing(m', r, w, 0) == Missing(m, r, w, 0)
  }

  lemma MissingReflexive(m: Mem, sh: Shape, root: nat, v: Vpns)
    ensures MissingGrew(m, m, sh, root, v)
  {
    MissingBound(m, root, v, 0);
    forall r, w: Vpns | IsRoot(sh, r) && r == root
      ensures Missing(m, r, w, 0) == MissingWith(Missing(m, r, w, 0), Common(v, w), 2 - Missing(m, root, v, 0))
    {
      MissingShared(m, root, v, w);
    }
  }

  lemma MissingTwice(m: Mem, m1: Mem, m2: Mem, sh: Shape, sh1: Shape, root: nat, v: Vpns)
    requires MissingGrew(m, m1, sh, root, v) && MissingGrew(m1, m2, sh1, root, v)
    requires forall r :: IsRoot(sh, r) ==> IsRoot(sh1, r)
    requires Missing(m2, root, v, 0) <= Missing(m1, root, v, 0)
    ensures MissingGrew(m, m2, sh, root, v)
  {
    hide Missing;
  }

  lemma MissingSame(m: Mem, m1: Mem, m2: Mem, sh: Shape, root: nat, v: Vpns)
    requires SameMissing(m, m1, sh) && MissingGrew(m1, m2, sh, root, v)
    ensures MissingGrew(m, m2, sh, root, v)
  {
    hide Missing, MissingWith;
    forall r, w: Vpns | IsRoot(sh, r)
      ensures Missing(m2, r, w, 0) ==
        if r == root then MissingWith(Missing(m, r, w, 0), Common(v, w), 2 - Missing(m2, root, v, 0)) else Missing(m, r, w, 0)
    {
      assert Missing(m1, r, w, 0) == Missing(m, r, w, 0);
    }
  }

  lemma MissingThen(m: Mem, m1: Mem, m2: Mem, sh: Shape, sh1: Shape, root: nat, v: Vpns)
    requires MissingGrew(m, m1, sh, root, v) && SameMissing(m1, m2, sh1)
    requires IsRoot(sh1, root) && forall r :: IsRoot(sh, r) ==> IsRoot(sh1, r)
    ensures MissingGrew(m, m2, sh, root, v)
  {
    hide Missing, MissingWith;
    assert Missing(m2, root, v, 0) == Missing(m1, root, v, 0);
    forall r, w: Vpns | IsRoot(sh, r)
      ensures Missing(m2, r, w, 0) ==
        if r == root then MissingWith(Missing(m, r, w, 0), Common(v, w), 2 - Missing(m2, root, v, 0)) else Missing(m, r, w, 0)
    {
      assert IsRoot(sh1, r);
      assert Missing(m2, r, w, 0) == Missing(m1, r, w, 0);
    }
  }

  lemma SameMissingTwice(m: Mem, m1: Mem, m2: Mem, sh: Shape)
    requires SameMissing(m, m1, sh) && SameMissing(m1, m2, sh)
    ensures SameMissing(m, m2, sh)
  {
    hide Missing;
    forall r, w: Vpns | IsRoot(sh, r) ensures Missing(m2, r, w, 0) == Missing(m, r, w, 0) {
      assert Missing(m1, r, w, 0) == Missing(m, r, w, 0);
    }
  }

  lemma OutsideMissing(m: Mem, m': Mem, sh: Shape)
    requires Tree(m, sh) && forall a :: a in sh ==> a in m' && m'[a] == m[a]
    ensures SameMissing(m, m', sh)
  {
    hide Tree, Missing;
    forall r, w: Vpns | IsRoot(sh, r) ensures Missing(m', r, w, 0) == Missing(m, r, w, 0) {
      RootPath(m, sh, r);
      SameWalk(m, m', sh, r, w);
    }
  }

  lemma RootPath(m: Mem, sh: Shape, r: nat)
    requires Tree(m, sh) && IsRoot(sh, r)
    ensures r in m && sh[r].root == r && sh[r].path == []
  {
    assert Hangs(m, sh, r);
  }

  /** A new table is missing no more, for exactly the walks through its link. */
  lemma LinkMissingAll(m: Mem, shape: Shape, l: Loc, t: nat, b: u64, root: nat, v: Vpns)
    requires CanLink(m, shape, l, t, b) && IsRoot(shape, root) && Through(shape, l, root, v)
    ensures MissingGrew(m, Store(m, l, b), shape, root, v)
  {
    hide Missing;
    var m', k := Store(m, l, b), |shape[l.page].path|;
    LinkMissing(m, shape, l, t, b, root, v);
    forall r, w: Vpns | IsRoot(shape, r)
      ensures Missing(m', r, w, 0) ==
        if r == root then MissingWith(Missing(m, r, w, 0), Common(v, w), k + 1) else Missing(m, r, w, 0)
    {
      RootPath(m, shape, r);
      SharedPath(shape, l, root, v, r, w);
      if Through(shape, l, r, w) {
        LinkMissing(m, shape, l, t, b, r, w);
      } else {
        LoadOfStore(m, l, b);
        WalkFrame(m, m', shape, l, r, w);
        MissingShared(m, root, v, w);
      }
    }
  }

  lemma SharedPath(shape: Shape, l: Loc, root: nat, v: Vpns, r: nat, w: Vpns)
    requires l.page in shape && |shape[l.page].path| < 2 && Through(shape, l, root, v)
    ensures Through(shape, l, r, w) <==> r == root && Common(v, w) > |shape[l.page].path|
  {
    var k := |shape[l.page].path|;
    if k == 1 {
      assert w[..1] == [w[0]] && v[..1] == [v[0]];
    }
  }

  /** Nothing is missing for a walk that reaches a last-level entry, whatever its word. */
  lemma LeafMissing(m: Mem, shape: Shape, l: Loc, e: u64)
    requires Tree(m, shape) && l.page in shape && l.idx < 512 && |shape[l.page].path| == 2
    ensures SameMissing(m, Store(m, l, e), shape)
  {
    var m' := Store(m, l, e);
    LoadOfStore(m, l, e);
    LeafStore(m, shape, l, e);
    forall r, w: Vpns | IsRoot(shape, r) ensures Missing(m', r, w, 0) == Missing(m, r, w, 0) {
      RootPath(m, shape, r);
      if Through(shape, l, r, w) {
        WalkReaches(m, shape, l.page, w);
        WalkReaches(m', shape, l.page, w);
      } else {
        WalkFrame(m, m', shape, l, r, w);
      }
    }
  }

  /** The whole step: a page that is no table is zeroed and hung below the invalid entry l. */
  lemma NewTable(m: Mem, shape: Shape, l: Loc, t: nat, b: u64, r: nat, v: Vpns)
    requires Tree(m, shape) && l.page in shape && l.idx < 512
    requires |shape[l.page].path| < 2 && !EntryValid(Load(m, l))
    requires t in m && t !in shape && 0 < t < WINDOW && t % 4096 == 0
    requires IsLink(b) && EntryRaw(b) == t && IsRoot(shape, r) && Through(shape, l, r, v)
    ensures var m' := Store(m[t := ZeroPage()], l, b);
      && Tree(m', Linked(shape, l, t)) && SameWalks(m, m', shape)
      && Load(m', l) == b
      && Missing(m', r, v, 0) == Missing(m, r, v, 0) - 1 && MissingGrew(m, m', shape, r, v)
  {
    var m1 := m[t := ZeroPage()];
    OutsideTables(m, m1, shape);
    OutsideMissing(m, m1, shape);
    LinkMissingAll(m1, shape, l, t, b, r, v);
    MissingSame(m, m1, Store(m1, l, b), shape, r, v);
    LinkTree(m1, shape, l, t, b);
    LoadOfStore(m1, l, b);
    LinkMissing(m1, shape, l, t, b, r, v);
    SameWalk(m, m1, shape, r, v);
    forall q, w: Vpns | IsRoot(shape, q) ensures Descend(Store(m1, l, b), q, w, 0) == Descend(m, q, w, 0) {
      LinkWalk(m1, shape, l, t, b, q, w);
    }
  }

  // ----- a store into a leaf entry -----

  /** What a walk that arrives at entry l finds when its word is e. */
  function AtLeaf(l: Loc, level: nat, e: u64): Option<Found> {
    if EntryValid(e) then Some(Found(l, level, e)) else None
  }

  /**
   * Rewriting an entry that is not a link, at the last level or with a word that is not a
   * link either, keeps the trees; exactly the walks through the entry change.
   */
  lemma LeafStore(m: Mem, shape: Shape, l: Loc, e: u64)
    requires Tree(m, shape) && l.page in shape && l.idx < 512
    requires |shape[l.page].path| == 2 || (!IsLink(Load(m, l)) && !IsLink(e))
    ensures Tree(Store(m, l, e), shape)
    ensures forall r, v: Vpns :: IsRoot(shape, r) ==>
      Descend(Store(m, l, e), r, v, 0) ==
        if Through(shape, l, r, v) then AtLeaf(l, |shape[l.page].path|, e) else Descend(m, r, v, 0)
  {
    var m' := Store(m, l, e);
    LoadOfStore(m, l, e);
    forall a | a in shape ensures Hangs(m', shape, a) {
      assert Hangs(m, shape, a);
      if shape[a].path != [] {
        var up := Loc(shape[a].parent, shape[a].path[|shape[a].path| - 1]);
        assert Load(m', up) == Load(m, up);
      }
    }
    forall a, i | a in shape && 0 <= i < 512 ensures LinkOk(m', shape, a, i) {
      assert LinkOk(m, shape, a, i);
      assert Load(m', Loc(a, i)) == if Loc(a, i) == l then e else Load(m, Loc(a, i));
    }
    forall r, v: Vpns | IsRoot(shape, r)
      ensures Descend(m', r, v, 0) ==
        if Through(shape, l, r, v) then AtLeaf(l, |shape[l.page].path|, e) else Descend(m, r, v, 0)
    {
      assert Hangs(m, shape, r);
      if Through(shape, l, r, v) {
        WalkReaches(m', shape, l.page, v);
        assert Load(m', l) == e;
      } else {
        WalkFrame(m, m', shape, l, r, v);
      }
    }
  }

  /** What the walks through entry l lack after it became e, and no other. */
  lemma StoreMissing(m: Mem, shape: Shape, l: Loc, e: u64, r: nat, w: Vpns)
    requires Tree(m, shape) && l.page in shape && l.idx < 512 && IsRoot(shape, r)
    requires |shape[l.page].path| == 2 || (!IsLink(Load(m, l)) && !IsLink(e))
    ensures Missing(Store(m, l, e), r, w, 0) ==
      if Through(shape, l, r, w) then (if EntryValid(e) then 0 else 2 - |shape[l.page].path|) else Missing(m, r, w, 0)
  {
    var m' := Store(m, l, e);
    LoadOfStore(m, l, e);
    LeafStore(m, shape, l, e);
    RootPath(m, shape, r);
    if Through(shape, l, r, w) {
      WalkReaches(m', shape, l.page, w);
      assert Load(m', l) == e;
    } else {
      WalkFrame(m, m', shape, l, r, w);
    }
  }

  /** A walk ends at an entry it passes through, in a table of its root's tree. */
  lemma {:induction false} FoundPlace(m: Mem, shape: Shape, a: nat, v: Vpns)
    requires Tree(m, shape) && a in shape && v[..|shape[a].path|] == shape[a].path
    requires Descend(m, a, v, |shape[a].path|).Some?
    ensures var f := Descend(m, a, v, |shape[a].path|).value;
      && f.loc.page in shape && f.loc.idx < 512 && f.level == |shape[f.loc.page].path|
      && Through(shape, f.loc, shape[a].root, v)
      && f.word == Load(m, f.loc) && EntryValid(f.word) && (f.level < 2 ==> EntryFrame(f.word))
    decreases 2 - |shape[a].path|
  {
    var level := |shape[a].path|;
    var e := Word(m[a], v[level]);
    if IsLink(e) && level < 2 {
      assert LinkOk(m, shape, a, v[level]);
      assert v[..level + 1] == v[..level] + [v[level]];
      FoundPlace(m, shape, EntryRaw(e), v);
    }
  }

  /** Two walks end at the same entry exactly when they share the root and the indices down to it. */
  lemma SameLeaf(m: Mem, shape: Shape, root: nat, v: Vpns, r: nat, w: Vpns)
    requires Tree(m, shape) && IsRoot(shape, root) && IsRoot(shape, r)
    requires Descend(m, root, v, 0).Some?
    ensures var f := Descend(m, root, v, 0).value;
      && f.level <= 2 && f.loc.page in shape
      && (Through(shape, f.loc, r, w) <==> r == root && w[..f.level + 1] == v[..f.level + 1])
  {
    assert Hangs(m, shape, root) && v[..0] == shape[root].path;
    FoundPlace(m, shape, root, v);
    var f := Descend(m, root, v, 0).value;
    assert w[..f.level + 1] == w[..f.level] + [w[f.level]];
    assert v[..f.level + 1] == v[..f.level] + [v[f.level]];
  }

  /** An entry that is no link cannot become one: no table of the trees hangs there. */
  lemma NoLinkHere(m: Mem, shape: Shape, l: Loc, e: u64)
    requires Tree(m, shape) && l.page in shape && l.idx < 512 && |shape[l.page].path| < 2
    requires !IsLink(Load(m, l)) && IsLink(e)
    ensures !Tree(Store(m, l, e), shape)
  {
    LoadOfStore(m, l, e);
    assert Load(Store(m, l, e), l) == e;
    assert EntryRaw(e) in shape ==> Hangs(m, shape, EntryRaw(e));
    assert !LinkOk(Store(m, l, e), shape, l.page, l.idx);
  }

  /** A new root: a page that was no table, without links. */
  lemma NewRoot(m: Mem, shape: Shape, t: nat, p: Page)
    requires Tree(m, shape) && t in m && t !in shape && 0 < t < WINDOW && t % 4096 == 0
    requires forall i :: 0 <= i < 512 ==> !IsLink(Word(p, i))
    ensures Tree(m[t := p], shape[t := Node(t, [], 0)])
    ensures SameWalks(m, m[t := p], shape)
  {
    var m', shape' := m[t := p], shape[t := Node(t, [], 0)];
    OutsideTables(m, m', shape);
    forall a | a in shape' ensures Hangs(m', shape', a) {
      if a != t {
        assert Hangs(m, shape, a);
      }
    }
    forall a, i | a in shape' && 0 <= i < 512 ensures LinkOk(m', shape', a, i) {
      if a != t {
        assert LinkOk(m, shape, a, i);
      }
    }
  }
}
