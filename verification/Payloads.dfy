/** The bytes that the users of blocks (kernel/src/memory.c) put behind the headers. */
module Payloads {
  import opened Words
  import opened Ram
  import opened Pages
  import opened FreeLists
  import opened Blocks
  import opened BlockHeap

  /** The byte at a physical address. */
  function ByteOf(m: Mem, q: nat): u8 {
    if q - q % 4096 in m then m[q - q % 4096][q % 4096] else 0
  }

  /** s with v in place `at`. */
  function SetAt(s: seq<u8>, at: nat, v: u8): seq<u8> {
    if at < |s| then s[at := v] else s
  }

  predicate Mapped(m: Mem, q: nat) {
    q - q % 4096 in m
  }

  /** m' is m with v written to q. */
  predicate Put(m: Mem, m': Mem, q: int, v: u8) {
    q >= 0 && Mapped(m, q) && m' == PutByte(m, q, v)
  }

  function PutByte(m: Mem, q: nat, v: u8): (m': Mem)
    requires Mapped(m, q)
    ensures m'.Keys == m.Keys
    ensures forall r: nat {:trigger ByteOf(m', r)} :: ByteOf(m', r) == if r == q then v else ByteOf(m, r)
  {
    m[q - q % 4096 := m[q - q % 4096][q % 4096 := v]]
  }

  /** The pages that were held keep their bytes. */
  ghost predicate HeldKept(rc: seq<nat>, bottom: nat, m: Mem, m': Mem) {
    forall a: nat :: HeldIn(rc, bottom, a) && a in m ==> a in m' && m'[a] == m[a]
  }

  function Bytes(m: Mem, q: nat, n: nat): (s: seq<u8>)
    ensures |s| == n && forall j {:trigger s[j]} :: 0 <= j < n ==> s[j] == ByteOf(m, q + j)
  {
    if n == 0 then [] else Bytes(m, q, n - 1) + [ByteOf(m, q + n - 1)]
  }

  /** The bytes [q, q + n) are zero. */
  ghost predicate Cleared(m: Mem, q: nat, n: nat) {
    forall r: nat {:trigger ByteOf(m, r)} :: q <= r < q + n ==> ByteOf(m, r) == 0
  }

  /** The header that the bytes from q on make up, for a block of this room. */
  function HeaderAt(m: Mem, q: nat, room: nat): Header {
    Header(LeWord(Bytes(m, q, 8)), LeWord(Bytes(m, q + 8, 8)), LeWord(Bytes(m, q + 16, 8)), LeWord(Bytes(m, q + 24, 8)), room)
  }

  lemma ClearedHeader(m: Mem, q: nat, n: nat, at: nat, room: nat)
    requires Cleared(m, q, n) && q <= at && at + HEADER_SIZE <= q + n
    ensures HeaderAt(m, at, room) == Header(0, 0, 0, 0, room)
  {
    hide ByteOf, LeWord;
    ZeroBytes(Bytes(m, at, 8));
    ZeroBytes(Bytes(m, at + 8, 8));
    ZeroBytes(Bytes(m, at + 16, 8));
    ZeroBytes(Bytes(m, at + 24, 8));
  }

  /** The contents of a block, as many bytes as it has room for. */
  function Payload(m: Mem, hdr: Heap, base: nat, b: int): seq<u8> {
    if b in hdr && b + HEADER_SIZE >= base then Bytes(m, b + HEADER_SIZE - base, hdr[b].room) else []
  }

  /** The bytes that realloc copies: as many as the header records. */
  function Recorded(m: Mem, hdr: Heap, base: nat, b: int): seq<u8> {
    var s := Payload(m, hdr, base, b);
    if SizeOf(hdr, b) <= |s| then s[..SizeOf(hdr, b)] else s
  }

  /** The blocks of s hold what they held. */
  ghost predicate Untouched(s: set<nat>, m: Mem, hdr: Heap, m': Mem, hdr': Heap, base: nat) {
    forall a {:trigger a in s} {:trigger Payload(m', hdr', base, a)} :: a in s ==>
      && a in hdr && a in hdr' && hdr'[a].size == hdr[a].size && hdr'[a].room == hdr[a].room
      && Payload(m', hdr', base, a) == Payload(m, hdr, base, a)
  }

  lemma UntouchedAt(s: set<nat>, m: Mem, h: Heap, m': Mem, h': Heap, base: nat, a: nat)
    requires Untouched(s, m, h, m', h', base) && a in s
    ensures a in h && a in h' && h'[a].size == h[a].size && h'[a].room == h[a].room && Payload(m', h', base, a) == Payload(m, h, base, a)
  {
    hide Payload;
  }

  lemma SelfUntouched(s: set<nat>, m: Mem, h: Heap, base: nat)
    requires s <= h.Keys
    ensures Untouched(s, m, h, m, h, base)
  {
  }

  lemma UntouchedTwice(s: set<nat>, t: set<nat>, m: Mem, h: Heap, m1: Mem, h1: Heap, m2: Mem, h2: Heap, base: nat)
    requires Untouched(s, m, h, m1, h1, base) && Untouched(t, m1, h1, m2, h2, base)
    ensures Untouched(s * t, m, h, m2, h2, base)
  {
    hide Payload;
    forall a | a in s * t
      ensures a in h && a in h2 && h2[a].size == h[a].size && h2[a].room == h[a].room && Payload(m2, h2, base, a) == Payload(m, h, base, a)
    {
      assert a in s && a in t;
    }
  }

  /** Every page with a counter exists. */
  ghost predicate Present(g: Ground, m: Mem) {
    g.bottom % PAGE_SIZE == 0 && forall k: nat {:trigger g.rc[k]} :: k < |g.rc| ==> g.bottom + PAGE_SIZE * k in m
  }

  /** The byte that the kernel sees at x lies in a page that exists and that somebody holds. */
  ghost predicate InHeldPage(g: Ground, m: Mem, x: int) {
    x >= g.base && var q := x - g.base; q - q % 4096 in m && HeldIn(g.rc, g.bottom, q - q % 4096)
  }

  /** Each byte of a block lies in a held page. */
  lemma ByteHeld(hdr: Heap, owner: map<nat, nat>, heads: seq<nat>, lists: seq<seq<nat>>, g: Ground, m: Mem, b: nat, j: nat)
    requires Sound(hdr, owner, heads, lists, g) && Present(g, m) && b in hdr && j < hdr[b].room
    ensures b + HEADER_SIZE >= g.base && InHeldPage(g, m, b + HEADER_SIZE + j)
  {
    hide Lists, Apart, Placed, Extent, BlockPlaced, SizesOk, InHeld, SizeOk;
    var x := b + HEADER_SIZE + j;
    ListsShape(hdr, owner, heads, lists);
    SizeKnown(hdr, owner, b);
    ExtentHeader(hdr[b].size, hdr[b].room);
    PlaceKnown(hdr, g.rc, g.bottom, g.base, b);
    PlacedByte(g, b, hdr[b].size, hdr[b].room, x);
    PageStart(g.bottom, x - g.base);
    var k := (x - g.base - g.bottom) / PAGE_SIZE;
    assert g.rc[k] > 0;
  }

  lemma PageStart(bottom: nat, q: nat)
    requires bottom % PAGE_SIZE == 0 && bottom <= q
    ensures PageOf(q, bottom) == q - q % 4096
  {
  }

  /** What leaves held pages alone leaves every block's contents alone. */
  lemma PayloadHeld(hdr: Heap, owner: map<nat, nat>, heads: seq<nat>, lists: seq<seq<nat>>, g: Ground, m: Mem, m': Mem, hdr': Heap, b: nat)
    requires Sound(hdr, owner, heads, lists, g) && Present(g, m) && HeldKept(g.rc, g.bottom, m, m')
    requires b in hdr && b in hdr' && hdr'[b].size == hdr[b].size && hdr'[b].room == hdr[b].room
    ensures Payload(m', hdr', g.base, b) == Payload(m, hdr, g.base, b)
  {
    hide Sound, Present, HeldIn;
    forall j | 0 <= j < hdr[b].room && b + HEADER_SIZE >= g.base
      ensures Payload(m', hdr', g.base, b)[j] == Payload(m, hdr, g.base, b)[j]
    {
      ByteHeld(hdr, owner, heads, lists, g, m, b, j);
      var q := b + HEADER_SIZE - g.base + j;
      assert ByteOf(m', q) == ByteOf(m, q);
    }
  }

  /** m' is m with n bytes from `from` written over those from `to`. */
  ghost predicate Copied(m: Mem, m': Mem, to: nat, from: nat, n: nat) {
    forall q: nat {:trigger ByteOf(m', q)} :: ByteOf(m', q) == ByteOf(m, if to <= q < to + n then q - to + from else q)
  }

  /** Two blocks' contents do not overlap. */
  lemma PayloadsApart(hdr: Heap, owner: map<nat, nat>, heads: seq<nat>, lists: seq<seq<nat>>, g: Ground, a: nat, b: nat)
    requires Sound(hdr, owner, heads, lists, g) && a in hdr && b in hdr && a != b
    ensures a >= g.base && b >= g.base
    ensures a + HEADER_SIZE + hdr[a].room <= b || b + HEADER_SIZE + hdr[b].room <= a
  {
    hide Lists, Extent, InHeld, SizeOk;
    ListsShape(hdr, owner, heads, lists);
    ExtentHeader(hdr[a].size, hdr[a].room);
    ExtentHeader(hdr[b].size, hdr[b].room);
    assert BlockPlaced(g.rc, g.bottom, g.base, a, hdr[a].size, hdr[a].room);
    assert BlockPlaced(g.rc, g.bottom, g.base, b, hdr[b].size, hdr[b].room);
  }

  lemma OwnRoom(hdr: Heap, owner: map<nat, nat>, heads: seq<nat>, lists: seq<seq<nat>>, g: Ground, b: nat)
    requires Sound(hdr, owner, heads, lists, g) && b in hdr
    ensures RoomOk(hdr[b].size, hdr[b].room)
  {
    hide Lists, Apart, Placed, SizeOk;
    ListsShape(hdr, owner, heads, lists);
    SizeKnown(hdr, owner, b);
  }

  /** Copying a block's recorded bytes into another with room for them: it begins with them, and no third block changes. */
  lemma CopyEffect(hdr: Heap, owner: map<nat, nat>, heads: seq<nat>, lists: seq<seq<nat>>, g: Ground, m: Mem, m': Mem, b: nat, c: nat)
    requires Sound(hdr, owner, heads, lists, g) && b in hdr && c in hdr && b != c && hdr[b].size <= hdr[c].room
    requires c >= g.base && b >= g.base
    requires Copied(m, m', c + HEADER_SIZE - g.base, b + HEADER_SIZE - g.base, hdr[b].size)
    ensures Recorded(m, hdr, g.base, b) <= Payload(m', hdr, g.base, c)
    ensures Untouched(hdr.Keys - {c}, m, hdr, m', hdr, g.base)
  {
    hide Sound, ByteOf;
    OwnRoom(hdr, owner, heads, lists, g, b);
    forall a | a in hdr && a != c ensures Payload(m', hdr, g.base, a) == Payload(m, hdr, g.base, a) {
      PayloadsApart(hdr, owner, heads, lists, g, a, c);
    }
  }
}
