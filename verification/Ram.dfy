/** Physical memory: whole pages of bytes, keyed by their physical address. */
module Ram {
  import opened Words

  const PAGE_SIZE := 4096
  const ENTRY_COUNT := 512

  type Page = s: seq<u8> | |s| == 4096 witness seq(4096, _ => 0)
  type Mem = map<nat, Page>

  function ZeroPage(): Page {
    seq(4096, _ => 0)
  }

  /** The i-th 64-bit word of a page. */
  function Word(p: Page, i: nat): (w: u64)
    requires i < 512
  {
    LeWordBound(p[8 * i..8 * i + 8]);
    Literals();
    LeWord(p[8 * i..8 * i + 8])
  }

  function SetWord(p: Page, i: nat, w: u64): Page
    requires i < 512
  {
    p[..8 * i] + LeBytes(w, 8) + p[8 * i + 8..]
  }

  lemma WordOfSetWord(p: Page, i: nat, w: u64, j: nat)
    requires i < 512 && j < 512
    ensures Word(SetWord(p, i, w), j) == if i == j then w else Word(p, j)
  {
    var q := SetWord(p, i, w);
    if i == j {
      assert q[8 * j..8 * j + 8] == LeBytes(w, 8);
      Literals();
      LeWordOfBytes(w, 8);
    } else {
      assert q[8 * j..8 * j + 8] == p[8 * j..8 * j + 8];
    }
  }

  lemma {:induction false} ZeroBytes(b: seq<u8>)
    requires forall k :: 0 <= k < |b| ==> b[k] == 0
    ensures LeWord(b) == 0
  {
    if b != [] {
      ZeroBytes(b[1..]);
    }
  }

  lemma ZeroWord(i: nat)
    requires i < 512
    ensures Word(ZeroPage(), i) == 0
  {
    ZeroBytes(ZeroPage()[8 * i..8 * i + 8]);
  }

  /** The place of one page-table entry: word idx of the page at a physical address. */
  datatype Loc = Loc(page: nat, idx: nat)

  predicate Inside(m: Mem, l: Loc) {
    l.page in m && l.idx < 512
  }

  function Load(m: Mem, l: Loc): u64
    requires Inside(m, l)
  {
    Word(m[l.page], l.idx)
  }

  function Store(m: Mem, l: Loc, w: u64): (m': Mem)
    requires Inside(m, l)
    ensures m'.Keys == m.Keys
    ensures forall a :: a in m && a != l.page ==> m'[a] == m[a]
  {
    m[l.page := SetWord(m[l.page], l.idx, w)]
  }

  lemma StoreTwice(m: Mem, l: Loc, w: u64, w': u64)
    requires Inside(m, l)
    ensures Store(Store(m, l, w), l, w') == Store(m, l, w')
  {
    assert SetWord(SetWord(m[l.page], l.idx, w), l.idx, w') == SetWord(m[l.page], l.idx, w');
  }

  lemma LoadOfStore(m: Mem, l: Loc, w: u64)
    requires Inside(m, l)
    ensures forall k: Loc :: Inside(m, k) ==> Load(Store(m, l, w), k) == if k == l then w else Load(m, k)
  {
    forall k: Loc | Inside(m, k)
      ensures Load(Store(m, l, w), k) == if k == l then w else Load(m, k)
    {
      if k.page == l.page {
        WordOfSetWord(m[l.page], l.idx, w, k.idx);
      }
    }
  }
}
