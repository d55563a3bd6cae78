/** The growing hash map of kernel/src/hashmap.c: a ring of buckets with at most five entries each. */
module HashMap {
  import opened Words
  import opened Hash
  import opened Options

  const INITIAL_SIZE := 16
  const MAX_COLLISIONS := 5

  type Key = seq<u8>
  type Val = seq<u8>
  type Entry = (Key, Val)

  /** Both buffers have five slots, or are NULL (empty here) when no slot is live. */
  datatype Bucket = Bucket(keys: seq<Key>, vals: seq<Val>, len: nat)

  const EMPTY := Bucket([], [], 0)

  predicate BucketOk(b: Bucket) {
    && b.len <= 5
    && if b.len == 0 then b.keys == [] && b.vals == [] else |b.keys| == |b.vals| == 5
  }

  function Entries(b: Bucket): (es: seq<Entry>)
    requires BucketOk(b)
    ensures |es| == b.len
  {
    seq(b.len, i requires 0 <= i < b.len => (b.keys[i], b.vals[i]))
  }

  function KeyHash(k: Key): u64 {
    HashBytes(0, k)
  }

  /** The values stored under a key, oldest first. */
  function ValuesOf(es: seq<Entry>, k: Key): seq<Val> {
    if es == [] then []
    else
      var last := es[|es| - 1];
      var before := ValuesOf(es[..|es| - 1], k);
      if last.0 == k then before + [last.1] else before
  }

  /** The entries whose hash is n modulo m, in order. */
  function Having(es: seq<Entry>, n: nat, m: nat): (r: seq<Entry>)
    requires m > 0
    ensures |r| <= |es|
  {
    if es == [] then []
    else
      var last := es[|es| - 1];
      var before := Having(es[..|es| - 1], n, m);
      if KeyHash(last.0) % m == n then before + [last] else before
  }

  lemma HavingSnoc(es: seq<Entry>, e: Entry, n: nat, m: nat, k: Key)
    requires m > 0
    ensures Having(es + [e], n, m) ==
      if KeyHash(e.0) % m == n then Having(es, n, m) + [e] else Having(es, n, m)
    ensures ValuesOf(es + [e], k) == if e.0 == k then ValuesOf(es, k) + [e.1] else ValuesOf(es, k)
  {
    assert (es + [e])[..|es|] == es;
  }

  lemma {:induction false} HavingOf(es: seq<Entry>, n: nat, m: nat, k: Key)
    requires m > 0 && KeyHash(k) % m == n
    ensures ValuesOf(Having(es, n, m), k) == ValuesOf(es, k)
  {
    hide KeyHash;
    if es != [] {
      var front, last := es[..|es| - 1], es[|es| - 1];
      HavingOf(front, n, m, k);
      HavingSnoc(Having(front, n, m), last, n, m, k);
    }
  }

  lemma {:induction false} HavingMember(es: seq<Entry>, n: nat, m: nat, i: nat)
    requires m > 0 && i < |Having(es, n, m)|
    ensures Having(es, n, m)[i] in es && KeyHash(Having(es, n, m)[i].0) % m == n
  {
    var front := es[..|es| - 1];
    if i < |Having(front, n, m)| {
      HavingMember(front, n, m, i);
    }
  }

  /** Filtering by the hash modulo a multiple of m keeps the count modulo that multiple. */
  lemma {:induction false} HavingTwice(es: seq<Entry>, n: nat, m: nat, n': nat, m': nat)
    requires m > 0 && m' > 0
    requires forall e :: e in es && KeyHash(e.0) % m' == n' ==> KeyHash(e.0) % m == n
    ensures Having(Having(es, n, m), n', m') == Having(es, n', m')
  {
    hide KeyHash;
    if es != [] {
      var front, last := es[..|es| - 1], es[|es| - 1];
      assert last in es;
      HavingTwice(front, n, m, n', m');
      HavingSnoc(Having(front, n, m), last, n', m', []);
    }
  }

  // ----- rings -----

  ghost predicate HomeOk(es: seq<Entry>, i: nat, cap: nat, keySize: nat, valSize: nat)
    requires cap > 0
  {
    forall j :: 0 <= j < |es| ==> KeyHash(es[j].0) % cap == i && |es[j].0| == keySize && |es[j].1| == valSize
  }

  /** Every bucket is well formed and holds only entries whose hash selects it. */
  ghost predicate RingOk(r: seq<Bucket>, exp: nat, keySize: nat, valSize: nat) {
    && 4 <= exp <= 63 && |r| == Pow2(exp)
    && forall i :: 0 <= i < |r| ==> BucketOk(r[i]) && HomeOk(Entries(r[i]), i, |r|, keySize, valSize)
  }

  /** The entries of the bucket that a key selects. */
  ghost function Home(r: seq<Bucket>, exp: nat, keySize: nat, valSize: nat, k: Key): seq<Entry>
    requires RingOk(r, exp, keySize, valSize)
  {
    Entries(r[KeyHash(k) % |r|])
  }

  /** `hash & (cap - 1)` */
  function IndexOf(hash: u64, cap: nat): nat
    requires cap > 0
  {
    And(hash, cap - 1)
  }

  lemma IndexIsRemainder(hash: u64, exp: nat)
    ensures IndexOf(hash, Pow2(exp)) == hash % Pow2(exp)
  {
    AndMask(hash, exp);
  }

  /** A remainder modulo the doubled capacity is the old remainder, or that plus the old capacity. */
  function Folded(n: nat, cap: nat): int {
    if n < cap then n else n - cap
  }

  lemma DoubledIndex(h: nat, cap: nat)
    requires cap > 0
    ensures h % (2 * cap) < 2 * cap && Folded(h % (2 * cap), cap) == h % cap
  {
    var q, r := h / (2 * cap), h % (2 * cap);
    assert h == (2 * cap) * q + r;
    if r < cap {
      assert h == cap * (2 * q) + r;
      DivModUnique(h, cap, 2 * q, r);
    } else {
      assert h == cap * (2 * q + 1) + (r - cap);
      DivModUnique(h, cap, 2 * q + 1, r - cap);
    }
  }

  /** A bucket with one more entry; the buffers are allocated with the first one. */
  function Appended(b: Bucket, k: Key, v: Val): (b': Bucket)
    requires BucketOk(b) && b.len < MAX_COLLISIONS
    ensures BucketOk(b') && Entries(b') == Entries(b) + [(k, v)]
  {
    var base := if b.len == 0 then Bucket(seq(MAX_COLLISIONS, _ => []), seq(MAX_COLLISIONS, _ => []), 0) else b;
    Bucket(base.keys[b.len := k], base.vals[b.len := v], b.len + 1)
  }

  // ----- growing -----

  /** What the new bucket n holds when buckets below i, and j entries of bucket i, have been moved. */
  ghost function Moved(r: seq<Bucket>, n: nat, i: nat, j: nat): (es: seq<Entry>)
    requires n < 2 * |r| && i <= |r| && (forall k :: 0 <= k < |r| ==> BucketOk(r[k]))
    requires i < |r| ==> j <= r[i].len
  {
    var h := Folded(n, |r|);
    if h < i then Having(Entries(r[h]), n, 2 * |r|)
    else if h == i then Having(Entries(r[i])[..j], n, 2 * |r|)
    else []
  }

  lemma MovedStep(r: seq<Bucket>, exp: nat, keySize: nat, valSize: nat, n: nat, i: nat, j: nat)
    requires RingOk(r, exp, keySize, valSize) && i < |r| && j < r[i].len && n < 2 * |r|
    ensures var e := Entries(r[i])[j];
      && Folded(KeyHash(e.0) % (2 * |r|), |r|) == i
      && Moved(r, n, i, j + 1) ==
           (if n == KeyHash(e.0) % (2 * |r|) then Moved(r, n, i, j) + [e] else Moved(r, n, i, j))
      && (n == KeyHash(e.0) % (2 * |r|) ==> |Moved(r, n, i, j)| <= j)
  {
    var es := Entries(r[i]);
    assert HomeOk(es, i, |r|, keySize, valSize);
    DoubledIndex(KeyHash(es[j].0), |r|);
    assert es[..j + 1][..j] == es[..j];
  }

  lemma MovedBucket(r: seq<Bucket>, n: nat, i: nat)
    requires n < 2 * |r| && i < |r| && (forall k :: 0 <= k < |r| ==> BucketOk(r[k]))
    ensures Moved(r, n, i + 1, 0) == Moved(r, n, i, r[i].len)
  {
    assert Entries(r[i])[..r[i].len] == Entries(r[i]);
    if i + 1 < |r| {
      assert Entries(r[i + 1])[..0] == [];
    }
  }

  /** The ring after growing: every entry is in the bucket of its hash, in the old order. */
  ghost predicate Grown(r: seq<Bucket>, r': seq<Bucket>)
    requires forall k :: 0 <= k < |r| ==> BucketOk(r[k])
  {
    && |r'| == 2 * |r|
    && forall n :: 0 <= n < |r'| ==>
        BucketOk(r'[n]) && Entries(r'[n]) == Having(Entries(r[Folded(n, |r|)]), n, 2 * |r|)
  }

  lemma GrownRing(r: seq<Bucket>, r': seq<Bucket>, exp: nat, keySize: nat, valSize: nat)
    requires RingOk(r, exp, keySize, valSize) && Grown(r, r') && exp < 63
    ensures RingOk(r', exp + 1, keySize, valSize)
    ensures forall k: Key :: ValuesOf(Home(r', exp + 1, keySize, valSize, k), k) == ValuesOf(Home(r, exp, keySize, valSize, k), k)
    ensures forall k: Key ::
      Home(r', exp + 1, keySize, valSize, k) == Having(Home(r, exp, keySize, valSize, k), KeyHash(k) % |r'|, |r'|)
  {
    hide KeyHash, Having, ValuesOf;
    forall n | 0 <= n < |r'| ensures HomeOk(Entries(r'[n]), n, |r'|, keySize, valSize) {
      GrownHome(r, r', exp, keySize, valSize, n);
    }
    forall k: Key
      ensures Home(r', exp + 1, keySize, valSize, k) ==
        Having(Home(r, exp, keySize, valSize, k), KeyHash(k) % |r'|, |r'|)
      ensures ValuesOf(Home(r', exp + 1, keySize, valSize, k), k) == ValuesOf(Home(r, exp, keySize, valSize, k), k)
    {
      GrownKey(r, r', KeyHash(k));
      HavingOf(Home(r, exp, keySize, valSize, k), KeyHash(k) % |r'|, |r'|, k);
    }
  }

  lemma GrownKey(r: seq<Bucket>, r': seq<Bucket>, hash: nat)
    requires |r| > 0 && (forall k :: 0 <= k < |r| ==> BucketOk(r[k])) && Grown(r, r')
    ensures Entries(r'[hash % |r'|]) == Having(Entries(r[hash % |r|]), hash % |r'|, |r'|)
  {
    hide Having;
    DoubledIndex(hash, |r|);
  }

  lemma GrownHome(r: seq<Bucket>, r': seq<Bucket>, exp: nat, keySize: nat, valSize: nat, n: nat)
    requires RingOk(r, exp, keySize, valSize) && Grown(r, r') && n < |r'|
    ensures HomeOk(Entries(r'[n]), n, |r'|, keySize, valSize)
  {
    hide KeyHash;
    var es := Entries(r[Folded(n, |r|)]);
    forall j | 0 <= j < |Entries(r'[n])|
      ensures KeyHash(Entries(r'[n])[j].0) % |r'| == n
      ensures |Entries(r'[n])[j].0| == keySize && |Entries(r'[n])[j].1| == valSize
    {
      HavingMember(es, n, |r'|, j);
    }
  }

  // ----- how far insertion grows the ring -----

  /** At capacity 2^e the bucket of k has a free slot: fewer than five stored entries share its index there. */
  ghost predicate Roomy(es: seq<Entry>, k: Key, e: nat) {
    |Having(es, KeyHash(k) % Pow2(e), Pow2(e))| < 5
  }

  ghost predicate Separable(es: seq<Entry>, k: Key, exp: nat) {
    exists e :: exp <= e <= 63 && Roomy(es, k, e)
  }

  const MAX_CAP := 0x8000_0000_0000_0000   // doubled, it is 0 in a size_t

  lemma LastCap(exp: nat)
    requires exp <= 63
    ensures Pow2(exp) == MAX_CAP <==> exp == 63
  {
    assert Pow2(63) == MAX_CAP by { Literals(); assert Pow2(64) == 2 * Pow2(63); }
    if exp < 63 {
      Pow2Monotone(exp, 62);
      assert Pow2(63) == 2 * Pow2(62);
    }
  }

  lemma Pow2Divides(h: nat, j: nat, k: nat)
    requires j <= k
    ensures h % Pow2(k) % Pow2(j) == h % Pow2(j)
  {
    Pow2Add(j, k - j);
    ModMod(h, Pow2(j), Pow2(k - j));
  }

  /** Growing does not change whether a later capacity has room for k. */
  lemma RoomyAfterGrowth(es: seq<Entry>, k: Key, exp: nat, e: nat)
    requires exp <= e
    ensures Roomy(Having(es, KeyHash(k) % Pow2(exp), Pow2(exp)), k, e) == Roomy(es, k, e)
  {
    forall x | x in es && KeyHash(x.0) % Pow2(e) == KeyHash(k) % Pow2(e)
      ensures KeyHash(x.0) % Pow2(exp) == KeyHash(k) % Pow2(exp)
    {
      Pow2Divides(KeyHash(x.0), exp, e);
      Pow2Divides(KeyHash(k), exp, e);
    }
    HavingTwice(es, KeyHash(k) % Pow2(exp), Pow2(exp), KeyHash(k) % Pow2(e), Pow2(e));
  }

  /** In its own bucket a key sees every entry. */
  lemma {:induction false} HavingAll(es: seq<Entry>, n: nat, m: nat)
    requires m > 0 && forall j :: 0 <= j < |es| ==> KeyHash(es[j].0) % m == n
    ensures Having(es, n, m) == es
  {
    hide KeyHash;
    if es != [] {
      HavingAll(es[..|es| - 1], n, m);
      assert es == es[..|es| - 1] + [es[|es| - 1]];
    }
  }

  ghost predicate DistinctKeys(es: seq<Entry>) {
    forall i, j :: 0 <= i < j < |es| ==> es[i].0 != es[j].0
  }

  lemma {:induction false} HavingIndex(es: seq<Entry>, n: nat, m: nat, j: nat) returns (i: nat)
    requires m > 0 && j < |Having(es, n, m)|
    ensures j <= i < |es| && es[i] == Having(es, n, m)[j] && KeyHash(es[i].0) % m == n
    ensures |Having(es[..i], n, m)| == j
  {
    var front := es[..|es| - 1];
    if j < |Having(front, n, m)| {
      i := HavingIndex(front, n, m, j);
      assert front[..i] == es[..i];
    } else {
      i := |es| - 1;
    }
  }

  /** Filtering keeps keys distinct. */
  lemma HavingDistinct(es: seq<Entry>, n: nat, m: nat)
    requires m > 0 && DistinctKeys(es)
    ensures DistinctKeys(Having(es, n, m))
  {
    forall i, j | 0 <= i < j < |Having(es, n, m)| ensures Having(es, n, m)[i].0 != Having(es, n, m)[j].0 {
      var a := HavingIndex(es, n, m, i);
      var b := HavingIndex(es, n, m, j);
      assert a != b;
    }
  }

  /** Five numbers below four are not all different. */
  lemma Pigeons(a: int, b: int, c: int, d: int, e: int)
    requires 0 <= a < 4 && 0 <= b < 4 && 0 <= c < 4 && 0 <= d < 4 && 0 <= e < 4
    ensures a == b || a == c || a == d || a == e || b == c || b == d || b == e || c == d || c == e || d == e
  {
  }

  /** Five different 64-bit hashes cannot agree on their low 62 bits. */
  lemma FiveHashes(h: seq<u64>, r: nat)
    requires |h| == 5 && forall i :: 0 <= i < 5 ==> h[i] % 0x4000_0000_0000_0000 == r
    ensures exists i, j :: 0 <= i < j < 5 && h[i] == h[j]
  {
    forall i | 0 <= i < 5
      ensures h[i] == 0x4000_0000_0000_0000 * (h[i] / 0x4000_0000_0000_0000) + r
      ensures 0 <= h[i] / 0x4000_0000_0000_0000 < 4
    {
    }
    var q := seq(5, i requires 0 <= i < 5 => h[i] / 0x4000_0000_0000_0000);
    Pigeons(q[0], q[1], q[2], q[3], q[4]);
    var i, j :| 0 <= i < j < 5 && q[i] == q[j];
    assert h[i] == h[j];
  }

  /** Room at a capacity is room at the doubled one. */
  lemma {:induction false} RoomStays(es: seq<Entry>, k: Key, e: nat)
    ensures |Having(es, KeyHash(k) % Pow2(e + 1), Pow2(e + 1))| <= |Having(es, KeyHash(k) % Pow2(e), Pow2(e))|
  {
    hide KeyHash;
    if es != [] {
      var last := es[|es| - 1];
      RoomStays(es[..|es| - 1], k, e);
      if KeyHash(last.0) % Pow2(e + 1) == KeyHash(k) % Pow2(e + 1) {
        Pow2Divides(KeyHash(last.0), e, e + 1);
        Pow2Divides(KeyHash(k), e, e + 1);
      }
    }
  }

  /** For 8-byte keys insertion always finds room, at the latest at capacity 2^62: 58 doublings from 16. */
  lemma WordKeysSeparate(es: seq<Entry>, k: Key)
    requires |k| == 8 && (forall j :: 0 <= j < |es| ==> |es[j].0| == 8 && es[j].0 != k) && DistinctKeys(es)
    ensures Roomy(es, k, 62)
  {
    hide HashBytes, HashWord64;
    var m := Pow2(62);
    assert m == 0x4000_0000_0000_0000 by { Literals(); assert Pow2(64) == 4 * Pow2(62); }
    var n := KeyHash(k) % m;
    var fs := Having(es, n, m);
    if |fs| >= 4 {
      HavingDistinct(es, n, m);
      forall j | 0 <= j < 4 ensures |fs[j].0| == 8 && fs[j].0 != k && KeyHash(fs[j].0) % m == n {
        HavingMember(es, n, m, j);
      }
      var h := [KeyHash(fs[0].0), KeyHash(fs[1].0), KeyHash(fs[2].0), KeyHash(fs[3].0), KeyHash(k)];
      var keys := [fs[0].0, fs[1].0, fs[2].0, fs[3].0, k];
      FiveHashes(h, n);
      var i, j :| 0 <= i < j < 5 && h[i] == h[j];
      WordKeysDistinct(keys[i], keys[j]);
    }
  }

  // ----- the map -----

  /** The first entry's position under a key, or the length. */
  function Find(es: seq<Entry>, k: Key): (i: nat)
    ensures i <= |es| && (i < |es| ==> es[i].0 == k) && forall j :: 0 <= j < i ==> es[j].0 != k
  {
    if es == [] then 0 else if es[0].0 == k then 0 else 1 + Find(es[1..], k)
  }

  lemma {:induction false} NoneBefore(es: seq<Entry>, k: Key)
    requires forall j :: 0 <= j < |es| ==> es[j].0 != k
    ensures ValuesOf(es, k) == []
  {
    if es != [] {
      NoneBefore(es[..|es| - 1], k);
    }
  }

  lemma {:induction false} ValuesConcat(a: seq<Entry>, b: seq<Entry>, k: Key)
    ensures ValuesOf(a + b, k) == ValuesOf(a, k) + ValuesOf(b, k)
  {
    if b == [] {
      assert a + b == a;
    } else {
      var front, last := b[..|b| - 1], b[|b| - 1];
      assert a + b == (a + front) + [last];
      ValuesConcat(a, front, k);
      HavingSnoc(a + front, last, 0, 1, k);
    }
  }

  lemma SplitValues(es: seq<Entry>, i: nat, k: Key)
    requires i < |es|
    ensures ValuesOf(es, k) == ValuesOf(es[..i], k) + ValuesOf([es[i]], k) + ValuesOf(es[i + 1..], k)
    ensures ValuesOf(es[..i] + es[i + 1..], k) == ValuesOf(es[..i], k) + ValuesOf(es[i + 1..], k)
    ensures ValuesOf([es[i]], k) == if es[i].0 == k then [es[i].1] else []
  {
    hide ValuesOf;
    assert es == es[..i] + [es[i]] + es[i + 1..];
    ValuesConcat(es[..i] + [es[i]], es[i + 1..], k);
    ValuesConcat(es[..i], [es[i]], k);
    ValuesConcat(es[..i], es[i + 1..], k);
    HavingSnoc([], es[i], 0, 1, k);
    assert [] + [es[i]] == [es[i]];
    NoneBefore([], k);
  }

  /** The first entry under a key carries its first value, and removing it removes exactly that value. */
  lemma FirstValue(es: seq<Entry>, i: nat, k: Key, other: Key)
    requires i < |es| && es[i].0 == k && forall j :: 0 <= j < i ==> es[j].0 != k
    ensures ValuesOf(es, k) == [es[i].1] + ValuesOf(es[..i] + es[i + 1..], k)
    ensures other != k ==> ValuesOf(es[..i] + es[i + 1..], other) == ValuesOf(es, other)
  {
    hide ValuesOf;
    SplitValues(es, i, k);
    SplitValues(es, i, other);
    NoneBefore(es[..i], k);
  }

  /** Replacing one bucket's entries changes what is stored only under keys that select it. */
  lemma OneBucket(r: seq<Bucket>, b: Bucket, i: nat, exp: nat, keySize: nat, valSize: nat)
    requires RingOk(r, exp, keySize, valSize) && i < |r|
    requires BucketOk(b) && HomeOk(Entries(b), i, |r|, keySize, valSize)
    ensures RingOk(r[i := b], exp, keySize, valSize)
    ensures forall k: Key ::
      Home(r[i := b], exp, keySize, valSize, k) ==
        if KeyHash(k) % |r| == i then Entries(b) else Home(r, exp, keySize, valSize, k)
  {
    hide KeyHash;
  }

  /** `hash_write(0, key, key_size) & (cap - 1)` */
  method BucketIndex(key: Key, cap: nat, ghost exp: nat) returns (index: nat)
    requires cap == Pow2(exp)
    ensures index < cap && index == KeyHash(key) % cap
  {
    var hash := HashWrite(0, key);
    IndexIsRemainder(hash, exp);
    index := IndexOf(hash, cap);
  }

  class RingMap {
    const keySize: nat
    const valSize: nat
    var cap: nat
    var ring: array<Bucket>
    ghost var exp: nat         // cap == 2^exp

    ghost predicate Valid()
      reads this, ring
    {
      RingOk(ring[..], exp, keySize, valSize) && cap == ring.Length
    }

    /** The entries in the bucket that a key selects. */
    ghost function HomeOf(k: Key): seq<Entry>
      requires Valid()
      reads this, ring
    {
      Home(ring[..], exp, keySize, valSize, k)
    }

    /** The values stored under a key, oldest first. */
    ghost function Values(k: Key): seq<Val>
      requires Valid()
      reads this, ring
    {
      ValuesOf(HomeOf(k), k)
    }

    constructor (keySize: nat, valSize: nat)
      ensures Valid() && fresh(ring) && exp == 4 && forall k :: Values(k) == []
      ensures this.keySize == keySize && this.valSize == valSize
    {
      this.keySize, this.valSize := keySize, valSize;
      cap, exp := INITIAL_SIZE, 4;
      ring := new Bucket[INITIAL_SIZE](_ => EMPTY);
      new;
      assert forall i :: 0 <= i < |ring[..]| ==> Entries(ring[..][i]) == [];
    }

    method Get(key: Key) returns (r: Option<Val>)
      requires Valid()
      ensures r == if Values(key) == [] then None else Some(Values(key)[0])
    {
      hide KeyHash, Having, ValuesOf;
      var index := BucketIndex(key, cap, exp);
      var bucket := ring[index];
      ghost var es := Entries(bucket);
      var i := 0;
      while i < bucket.len
        invariant 0 <= i <= bucket.len && forall j :: 0 <= j < i ==> es[j].0 != key
      {
        assert es[i].0 == bucket.keys[i];
        if bucket.keys[i] == key {
          FirstValue(es, i, key, key);
          return Some(bucket.vals[i]);
        }
        assert es[i].0 != key;
        i := i + 1;
      }
      NoneBefore(es, key);
      return None;
    }

    /** hashmap_grow. No bucket is checked for room before an entry is put into it. */
    method Grow()
      requires Valid() && exp < 63
      modifies this
      ensures Valid() && fresh(ring) && exp == old(exp) + 1
      ensures forall k :: Values(k) == old(Values(k))
      ensures forall k :: HomeOf(k) == Having(old(HomeOf(k)), KeyHash(k) % Pow2(exp), Pow2(exp))
    {
      hide KeyHash, Having, ValuesOf;
      ghost var r := ring[..];
      var grown := new Bucket[cap * 2](_ => EMPTY);
      var i := 0;
      EmptyMoved(r);
      while i < cap
        invariant 0 <= i <= cap && ring[..] == r && Valid() && cap == old(cap) && exp == old(exp) && fresh(grown)
        invariant forall n :: 0 <= n < grown.Length ==> BucketOk(grown[n]) && Entries(grown[n]) == Moved(r, n, i, 0)
      {
        MoveBucket(grown, i);
        i := i + 1;
      }
      forall n | 0 <= n < grown.Length ensures Entries(grown[n]) == Having(Entries(r[Folded(n, |r|)]), n, 2 * |r|) {
        MovedAll(r, n);
      }
      GrownRing(r, grown[..], exp, keySize, valSize);
      ring, cap, exp := grown, cap * 2, exp + 1;
    }

    /** The inner loop of hashmap_grow (hashmap.c:107-120). */
    method MoveBucket(grown: array<Bucket>, i: nat)
      requires Valid() && i < cap && grown.Length == 2 * cap && grown != ring
      requires forall n :: 0 <= n < grown.Length ==> BucketOk(grown[n]) && Entries(grown[n]) == Moved(ring[..], n, i, 0)
      modifies grown
      ensures forall n :: 0 <= n < grown.Length ==> BucketOk(grown[n]) && Entries(grown[n]) == Moved(ring[..], n, i + 1, 0)
    {
      hide KeyHash, Having, ValuesOf;
      ghost var r := ring[..];
      var bucket := ring[i];
      var j := 0;
      while j < bucket.len
        invariant 0 <= j <= bucket.len && ring[..] == r
        invariant forall n :: 0 <= n < grown.Length ==> BucketOk(grown[n]) && Entries(grown[n]) == Moved(r, n, i, j)
      {
        MoveEntry(grown, i, j);
        j := j + 1;
      }
      forall n | 0 <= n < grown.Length ensures Entries(grown[n]) == Moved(r, n, i + 1, 0) {
        MovedBucket(r, n, i);
      }
    }

    method MoveEntry(grown: array<Bucket>, i: nat, j: nat)
      requires Valid() && i < cap && j < ring[i].len && grown.Length == 2 * cap && grown != ring
      requires forall n :: 0 <= n < grown.Length ==> BucketOk(grown[n]) && Entries(grown[n]) == Moved(ring[..], n, i, j)
      modifies grown
      ensures forall n :: 0 <= n < grown.Length ==> BucketOk(grown[n]) && Entries(grown[n]) == Moved(ring[..], n, i, j + 1)
    {
      hide KeyHash, Having, ValuesOf;
      ghost var r := ring[..];
      var key, val := ring[i].keys[j], ring[i].vals[j];
      assert Entries(r[i])[j] == (key, val);
      var index := BucketIndex(key, grown.Length, exp + 1);
      forall n | 0 <= n < grown.Length
        ensures Moved(r, n, i, j + 1) == if n == index then Moved(r, n, i, j) + [(key, val)] else Moved(r, n, i, j)
        ensures n == index ==> |Moved(r, n, i, j)| <= j
      {
        MovedStep(r, exp, keySize, valSize, n, i, j);
      }
      grown[index] := Appended(grown[index], key, val);
    }

    /**
     * hashmap_insert: grow and retry until the key's bucket has room. It does not replace. When no capacity of at
     * most 2^63 buckets separates the key's hash from the stored ones, the doubled capacity wraps around; that is `full`.
     */
    method Insert(key: Key, value: Val) returns (full: bool)
      requires Valid() && |key| == keySize && |value| == valSize
      modifies this, ring
      ensures Valid() && (ring == old(ring) || fresh(ring)) && exp >= old(exp)
      ensures full <==> !Separable(old(HomeOf(key)), key, old(exp))
      ensures forall k :: Values(k) == if k == key && !full then old(Values(k)) + [value] else old(Values(k))
      ensures forall e :: old(exp) <= e < exp ==> !Roomy(old(HomeOf(key)), key, e)
      ensures full ==> exp == 63
    {
      hide KeyHash, Having, ValuesOf, RingOk, BucketOk, Home, Roomy, Entries;
      ghost var es := HomeOf(key);
      CapIsPower();
      while true
        invariant Valid() && (ring == old(ring) || fresh(ring)) && old(exp) <= exp <= 63
        invariant forall k :: Values(k) == old(Values(k))
        invariant forall x :: exp <= x ==> Roomy(HomeOf(key), key, x) == Roomy(es, key, x)
        invariant forall x :: old(exp) <= x < exp ==> !Roomy(es, key, x)
        decreases 63 - exp
      {
        CapIsPower();
        var index := BucketIndex(key, cap, exp);
        ghost var here := HomeOf(key);
        HomeRoom(key);
        if ring[index].len < MAX_COLLISIONS {
          Put(index, key, value);
          return false;
        }
        LastCap(exp);
        if cap == MAX_CAP {
          return true;
        }
        Grow();
        forall x | exp <= x ensures Roomy(HomeOf(key), key, x) == Roomy(es, key, x) {
          RoomyAfterGrowth(here, key, exp, x);
        }
      }
    }

    lemma CapIsPower()
      requires Valid()
      ensures cap == Pow2(exp) == ring.Length && exp <= 63
    {
      hide BucketOk, HomeOk;
    }

    /** A key's bucket has room exactly when its entries fit at the present capacity. */
    lemma HomeRoom(key: Key)
      requires Valid()
      ensures KeyHash(key) % ring.Length < ring.Length
      ensures Roomy(HomeOf(key), key, exp) <==> ring[KeyHash(key) % ring.Length].len < MAX_COLLISIONS
    {
      hide KeyHash, Having, ValuesOf;
      HavingAll(HomeOf(key), KeyHash(key) % ring.Length, ring.Length);
    }

    method Put(index: nat, key: Key, value: Val)
      requires Valid() && |key| == keySize && |value| == valSize
      requires index < ring.Length && index == KeyHash(key) % ring.Length && ring[index].len < MAX_COLLISIONS
      modifies ring
      ensures Valid()
      ensures forall k :: Values(k) == if k == key then old(Values(k)) + [value] else old(Values(k))
    {
      hide KeyHash, Having;
      ghost var r := ring[..];
      ring[index] := Appended(ring[index], key, value);
      OneBucket(r, ring[index], index, exp, keySize, valSize);
      assert ring[..] == r[index := ring[index]];
      forall k ensures Values(k) == if k == key then old(Values(k)) + [value] else old(Values(k)) {
        HavingSnoc(Entries(r[index]), (key, value), 0, 1, k);
      }
    }

    /**
     * hashmap_remove: the first entry under the key goes, the later ones move up.
     * The last turn of the source's shift, which reads one slot past the live ones, is left out.
     */
    method Remove(key: Key)
      requires Valid()
      modifies ring
      ensures Valid()
      ensures forall k :: Values(k) == if k == key && old(Values(k)) != [] then old(Values(k))[1..] else old(Values(k))
    {
      hide KeyHash, Having, ValuesOf;
      var index := BucketIndex(key, cap, exp);
      ghost var r, es := ring[..], Entries(ring[index]);
      var i := 0;
      while i < ring[index].len
        invariant 0 <= i <= ring[index].len && ring[..] == r
        invariant forall j :: 0 <= j < i ==> es[j].0 != key
      {
        assert es[i].0 == ring[index].keys[i];
        if ring[index].keys[i] == key {
          FirstValue(es, i, key, key);
          ShiftUp(index, i);
          forall k ensures Values(k) == if k == key then old(Values(k))[1..] else old(Values(k)) {
            FirstValue(es, i, key, k);
          }
          return;
        }
        i := i + 1;
      }
      NoneBefore(es, key);
    }

    /** The entries behind i move up by one; an emptied bucket gives its buffers back (hashmap.c:199-214). */
    method ShiftUp(index: nat, i: nat)
      requires Valid() && index < ring.Length && i < ring[index].len
      modifies ring
      ensures Valid() && ring[index].len == old(ring[index].len) - 1
      ensures var es := old(Entries(ring[index])); forall k ::
        HomeOf(k) == if KeyHash(k) % ring.Length == index then es[..i] + es[i + 1..] else old(HomeOf(k))
    {
      hide KeyHash, Having, ValuesOf;
      ghost var r, es := ring[..], Entries(ring[index]);
      var keys, vals, len := ring[index].keys, ring[index].vals, ring[index].len;
      var j := i;
      while j + 1 < len
        invariant i <= j < len && |keys| == |vals| == MAX_COLLISIONS
        invariant forall n {:trigger keys[n]} :: 0 <= n < len ==> keys[n] == (if i <= n < j then es[n + 1] else es[n]).0
        invariant forall n {:trigger vals[n]} :: 0 <= n < len ==> vals[n] == (if i <= n < j then es[n + 1] else es[n]).1
      {
        assert keys[j + 1] == es[j + 1].0 && vals[j + 1] == es[j + 1].1;
        keys := keys[j := keys[j + 1]];
        vals := vals[j := vals[j + 1]];
        j := j + 1;
      }
      var b := if len - 1 == 0 then EMPTY else Bucket(keys, vals, len - 1);
      forall n | 0 <= n < len - 1 ensures Entries(b)[n] == (es[..i] + es[i + 1..])[n] {
        assert Entries(b)[n] == (keys[n], vals[n]);
      }
      assert Entries(b) == es[..i] + es[i + 1..];
      assert HomeOk(Entries(r[index]), index, |r|, keySize, valSize);
      OneBucket(r, b, index, exp, keySize, valSize);
      ring[index] := b;
      assert ring[..] == r[index := b];
    }
  }

  lemma EmptyMoved(r: seq<Bucket>)
    requires forall k :: 0 <= k < |r| ==> BucketOk(r[k])
    ensures forall n :: 0 <= n < 2 * |r| ==> Moved(r, n, 0, 0) == []
  {
  }

  lemma MovedAll(r: seq<Bucket>, n: nat)
    requires n < 2 * |r| && forall k :: 0 <= k < |r| ==> BucketOk(r[k])
    ensures Moved(r, n, |r|, 0) == Having(Entries(r[Folded(n, |r|)]), n, 2 * |r|)
  {
  }

  // ----- runs -----

  lemma OneValue(es: seq<Entry>, i: nat, j: nat)
    requires i < j < |es| && |ValuesOf(es, es[i].0)| <= 1
    ensures es[i].0 != es[j].0
  {
    SplitValues(es, i, es[i].0);
    var rest := es[i + 1..];
    assert rest[j - i - 1] == es[j];
    SplitValues(rest, j - i - 1, es[i].0);
  }

  datatype MapOp = PutOp(key: Key, val: Val) | DropOp(key: Key) | GetOp(key: Key)

  /** The finite map that the operations describe. */
  function Model(m: map<Key, Val>, op: MapOp): map<Key, Val> {
    match op
    case PutOp(k, v) => m[k := v]
    case DropOp(k) => m - {k}
    case GetOp(_) => m
  }

  function Models(m: map<Key, Val>, ops: seq<MapOp>): map<Key, Val> {
    if ops == [] then m else Model(Models(m, ops[..|ops| - 1]), ops[|ops| - 1])
  }

  /** What the reads among the operations should return. */
  function Answers(m: map<Key, Val>, ops: seq<MapOp>): seq<Option<Val>> {
    if ops == [] then []
    else
      var last := ops[|ops| - 1];
      var before := Models(m, ops[..|ops| - 1]);
      Answers(m, ops[..|ops| - 1]) + Answer(before, last)
  }

  function Answer(m: map<Key, Val>, op: MapOp): seq<Option<Val>> {
    if op.GetOp? then [if op.key in m then Some(m[op.key]) else None] else []
  }

  predicate LegalOp(m: map<Key, Val>, op: MapOp, valSize: nat) {
    op.PutOp? ==> |op.key| == 8 && |op.val| == valSize && op.key !in m
  }

  /** Insertions are of absent 8-byte keys. */
  predicate Legal(m: map<Key, Val>, ops: seq<MapOp>, valSize: nat) {
    forall n :: 0 <= n < |ops| ==> LegalOp(Models(m, ops[..n]), ops[n], valSize)
  }

  /** The hash map stores exactly the finite map m. */
  ghost predicate Stores(h: RingMap, m: map<Key, Val>)
    requires h.Valid()
    reads h, h.ring
  {
    forall k :: h.Values(k) == if k in m then [m[k]] else []
  }

  lemma AbsentKeySeparable(h: RingMap, m: map<Key, Val>, k: Key)
    requires h.Valid() && h.keySize == 8 && Stores(h, m) && |k| == 8 && k !in m
    ensures Separable(h.HomeOf(k), k, h.exp)
  {
    hide KeyHash, ValuesOf, Separable, Roomy;
    var es := h.HomeOf(k);
    var index := KeyHash(k) % h.ring.Length;
    assert HomeOk(es, index, h.ring.Length, 8, h.valSize);
    forall j | 0 <= j < |es| ensures h.HomeOf(es[j].0) == es && es[j].0 != k {
      SplitValues(es, j, es[j].0);
    }
    forall i, j | 0 <= i < j < |es| ensures es[i].0 != es[j].0 {
      assert |h.Values(es[i].0)| <= 1;
      OneValue(es, i, j);
    }
    WordKeysSeparate(es, k);
    RoomInTime(es, k, h.exp);
  }

  lemma RoomInTime(es: seq<Entry>, k: Key, exp: nat)
    requires Roomy(es, k, 62) && exp <= 63
    ensures Separable(es, k, exp)
  {
    hide KeyHash, Having, Pow2;
    RoomStays(es, k, 62);
    assert Roomy(es, k, if exp == 63 then 63 else 62);
  }

  method Step(h: RingMap, m: map<Key, Val>, op: MapOp) returns (answer: seq<Option<Val>>)
    requires h.Valid() && h.keySize == 8 && Stores(h, m) && LegalOp(m, op, h.valSize)
    modifies h, h.ring
    ensures h.Valid() && (h.ring == old(h.ring) || fresh(h.ring))
    ensures Stores(h, Model(m, op)) && answer == Answer(m, op)
  {
    hide KeyHash, ValuesOf, Having, RingOk, BucketOk, Home, Roomy, Entries, Separable;
    answer := [];
    match op {
      case PutOp(k, v) =>
        AbsentKeySeparable(h, m, k);
        var full := h.Insert(k, v);
      case DropOp(k) =>
        h.Remove(k);
      case GetOp(k) =>
        var r := h.Get(k);
        answer := [r];
    }
  }

  lemma NoneYet(m: map<Key, Val>)
    ensures Models(m, []) == m && Answers(m, []) == []
  {
  }

  lemma NextLegal(m: map<Key, Val>, ops: seq<MapOp>, valSize: nat, n: nat)
    requires Legal(m, ops, valSize) && n < |ops|
    ensures LegalOp(Models(m, ops[..n]), ops[n], valSize)
  {
    hide LegalOp, Models;
  }

  lemma OneMore(m: map<Key, Val>, ops: seq<MapOp>, n: nat)
    requires n < |ops|
    ensures Models(m, ops[..n + 1]) == Model(Models(m, ops[..n]), ops[n])
    ensures Answers(m, ops[..n + 1]) == Answers(m, ops[..n]) + Answer(Models(m, ops[..n]), ops[n])
  {
    assert ops[..n + 1][..n] == ops[..n];
  }

  /** Any run of insertions of absent 8-byte keys, removals and reads behaves like a finite map. */
  method Run(h: RingMap, m: map<Key, Val>, ops: seq<MapOp>) returns (answers: seq<Option<Val>>)
    requires h.Valid() && h.keySize == 8 && Stores(h, m) && Legal(m, ops, h.valSize)
    modifies h, h.ring
    ensures h.Valid() && Stores(h, Models(m, ops)) && answers == Answers(m, ops)
  {
    hide KeyHash, ValuesOf, Having, RingOk, Stores, Models, Model, Answers, Answer, Legal, LegalOp;
    answers := [];
    var n := 0;
    assert ops[..0] == [];
    NoneYet(m);
    while n < |ops|
      invariant 0 <= n <= |ops| && h.Valid() && (h.ring == old(h.ring) || fresh(h.ring))
      invariant Stores(h, Models(m, ops[..n])) && answers == Answers(m, ops[..n])
    {
      OneMore(m, ops, n);
      NextLegal(m, ops, h.valSize, n);
      var answer := Step(h, Models(m, ops[..n]), ops[n]);
      answers := answers + answer;
      n := n + 1;
    }
    assert ops[..n] == ops;
  }

  // ----- the value stride of hashmap_grow -----

  /** In every buffer that is long enough, the n bytes at a are the n bytes at b. */
  ghost predicate SlicesAgree(a: nat, b: nat, n: nat) {
    forall values: seq<u8> :: AgreeIn(values, a, b, n)
  }

  predicate AgreeIn(values: seq<u8>, a: nat, b: nat, n: nat) {
    a + n <= |values| && b + n <= |values| ==> values[a..a + n] == values[b..b + n]
  }

  lemma SlicesExact(a: nat, b: nat, n: nat)
    requires n > 0
    ensures SlicesAgree(a, b, n) <==> a == b
  {
    if a != b {
      var mark := (if a < b then b else a) + n - 1;
      var values: seq<u8> := seq(mark + 1, i requires 0 <= i => if i == mark then 1 else 0);
      assert values[a..a + n][n - 1] == values[a + n - 1];
      assert values[b..b + n][n - 1] == values[b + n - 1];
      assert !AgreeIn(values, a, b, n);
    }
  }

  /** hashmap.c:118 reads the j-th value at j * key_size: right for every buffer only for the first, or for equal sizes. */
  lemma StrideExact(keySize: nat, valSize: nat, j: nat)
    requires valSize > 0
    ensures 0 <= j * keySize && 0 <= j * valSize
    ensures SlicesAgree(j * keySize, j * valSize, valSize) <==> j == 0 || keySize == valSize
  {
    hide SlicesAgree;
    ProductZero(j, keySize);
    ProductZero(j, valSize);
    SlicesExact(j * keySize, j * valSize, valSize);
    if j > 0 {
      ProductOrder(j, keySize, valSize);
      ProductOrder(j, valSize, keySize);
    }
  }

  lemma ProductZero(a: nat, b: nat)
    ensures a * b >= 0 && (a == 0 ==> a * b == 0)
  {
  }

  lemma ProductOrder(a: nat, b: nat, c: nat)
    requires a > 0
    ensures b < c ==> a * b < a * c
  {
    if b < c {
      MulAtLeast(a, c - b);
      assert a * c == a * b + a * (c - b);
    }
  }

  // ----- a map that growing by the code's stride spoils -----

  /** The live part of a bucket's value buffer. */
  function ValueBytes(es: seq<Entry>): seq<u8> {
    if es == [] then [] else ValueBytes(es[..|es| - 1]) + es[|es| - 1].1
  }

  /** The value that the growing loop copies for entry j; `rest` is what the buffer holds behind the live values. */
  function CodeValue(es: seq<Entry>, rest: seq<u8>, keySize: nat, valSize: nat, j: nat): Val {
    ProductZero(j, keySize);
    var a, buffer := j * keySize, ValueBytes(es) + rest;
    if a + valSize <= |buffer| then buffer[a..a + valSize] else []
  }

  function CodeEntries(es: seq<Entry>, rest: seq<u8>, keySize: nat, valSize: nat): (r: seq<Entry>)
    ensures |r| == |es|
  {
    seq(|es|, j requires 0 <= j < |es| => (es[j].0, CodeValue(es, rest, keySize, valSize, j)))
  }

  /** The ring after growing by the code's stride. */
  ghost predicate GrownByCode(r: seq<Bucket>, r': seq<Bucket>, rest: seq<u8>, keySize: nat, valSize: nat)
    requires forall k :: 0 <= k < |r| ==> BucketOk(r[k])
  {
    && |r'| == 2 * |r|
    && forall n :: 0 <= n < |r'| ==>
        && BucketOk(r'[n])
        && Entries(r'[n]) == Having(CodeEntries(Entries(r[Folded(n, |r|)]), rest, keySize, valSize), n, 2 * |r|)
  }

  const FIRST_KEY: Key := [0, 0, 0, 0, 0, 0, 0, 0]
  const SECOND_KEY: Key := [16, 0, 0, 0, 0, 0, 0, 0]

  /** Two keys in the first bucket of a new map. */
  function TwoKeys(v0: Val, v1: Val): (r: seq<Bucket>)
    ensures |r| == 16 && forall i :: 0 <= i < 16 ==> BucketOk(r[i])
    ensures Entries(r[0]) == [(FIRST_KEY, v0), (SECOND_KEY, v1)] && forall i :: 0 < i < 16 ==> r[i] == EMPTY
  {
    seq(16, i requires 0 <= i => if i == 0 then Appended(Appended(EMPTY, FIRST_KEY, v0), SECOND_KEY, v1) else EMPTY)
  }

  lemma KeysMeet()
    ensures KeyHash(FIRST_KEY) % 16 == 0 && KeyHash(SECOND_KEY) % 16 == 0
  {
    hide HashBytes, LeWord;
    WordKeyHash(FIRST_KEY);
    WordKeyHash(SECOND_KEY);
    LittleKey(0);
    LittleKey(16);
    Sixteenfold(SEED64);
  }

  lemma Sixteenfold(x: u64)
    ensures 16 * x % WORD % 16 == 0
  {
  }

  lemma LittleKey(x: u8)
    ensures LeWord([x, 0, 0, 0, 0, 0, 0, 0]) == x
  {
    ZeroTail([0, 0, 0, 0, 0, 0, 0]);
  }

  lemma {:induction false} ZeroTail(b: seq<u8>)
    requires forall k :: 0 <= k < |b| ==> b[k] == 0
    ensures LeWord(b) == 0
  {
    if b != [] {
      ZeroTail(b[1..]);
    }
  }

  /** Two different values such that, read at the key stride, the second is not what was stored. */
  lemma SpoiledValue(valSize: nat, rest: seq<u8>) returns (v0: Val, v1: Val)
    requires 0 < valSize != 8
    ensures |v0| == |v1| == valSize
    ensures CodeValue([(FIRST_KEY, v0), (SECOND_KEY, v1)], rest, 8, valSize, 1) != v1
  {
    v0 := seq(valSize, i requires 0 <= i => 0);
    var t := if valSize <= 4 && 8 - 2 * valSize < |rest| then rest[8 - 2 * valSize] else 0;
    var first: u8 := if valSize > 8 then 1 else if valSize > 4 then 0 else if t == 0 then 1 else 0;
    v1 := seq(valSize, i requires 0 <= i => if i == 0 then first else 1);
    var es: seq<Entry> := [(FIRST_KEY, v0), (SECOND_KEY, v1)];
    assert es[..1] == [(FIRST_KEY, v0)] && es[..1][..0] == [];
    assert ValueBytes(es[..1]) == v0;
    assert ValueBytes(es) == v0 + v1;
    var buffer := (v0 + v1) + rest;
    if 8 + valSize <= |buffer| {
      assert buffer[8..8 + valSize][0] == buffer[8];
      assert v1[0] == first;
    }
  }

  /**
   * For keys of 8 bytes and every other size of values there is a map of two keys, new but for them, that growing by
   * the code's stride spoils: afterwards the second key does not have its value.
   */
  lemma StrideSpoils(valSize: nat, rest: seq<u8>) returns (v0: Val, v1: Val)
    requires 0 < valSize != 8
    ensures |v0| == |v1| == valSize && RingOk(TwoKeys(v0, v1), 4, 8, valSize)
    ensures ValuesOf(Home(TwoKeys(v0, v1), 4, 8, valSize, SECOND_KEY), SECOND_KEY) == [v1]
    ensures forall r' :: GrownByCode(TwoKeys(v0, v1), r', rest, 8, valSize) ==>
      && |r'| == 32 && BucketOk(r'[KeyHash(SECOND_KEY) % 32])
      && ValuesOf(Entries(r'[KeyHash(SECOND_KEY) % 32]), SECOND_KEY) != [v1]
  {
    hide KeyHash, CodeValue, Having;
    v0, v1 := SpoiledValue(valSize, rest);
    KeysMeet();
    var r, es := TwoKeys(v0, v1), [(FIRST_KEY, v0), (SECOND_KEY, v1)];
    assert Pow2(4) == 16;
    TwoValues(FIRST_KEY, v0, SECOND_KEY, v1);
    var h := KeyHash(SECOND_KEY);
    DoubledIndex(h, 16);
    var code := CodeEntries(es, rest, 8, valSize);
    assert code == [(FIRST_KEY, code[0].1), (SECOND_KEY, code[1].1)];
    TwoValues(FIRST_KEY, code[0].1, SECOND_KEY, code[1].1);
    HavingOf(code, h % 32, 32, SECOND_KEY);
  }

  lemma TwoValues(k0: Key, v0: Val, k1: Key, v1: Val)
    requires k0 != k1
    ensures ValuesOf([(k0, v0), (k1, v1)], k1) == [v1]
  {
    var es: seq<Entry> := [(k0, v0), (k1, v1)];
    assert es[..1] == [(k0, v0)] && es[..1][..0] == [];
    assert ValuesOf(es[..1], k1) == [];
  }
}
