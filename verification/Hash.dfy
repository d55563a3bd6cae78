/** The key hash of kernel/src/hashmap.c. */
module Hash {
  import opened Words

  const ROTATE := 5
  const SEED64: u64 := 0x517c_c1b7_2722_0a95
  // SEED64 is odd, so it has an inverse modulo 2^64.
  const SEED_INVERSE: u64 := 0x2040_003d_7809_70bd

  function Rotl64(n: u64, c: nat): u64 {
    Or64(Shl64(n, c % 64), Shr64(n, (64 - c % 64) % 64))
  }

  function HashWord64(a: u64, b: nat): u64 {
    Xor(Rotl64(a, ROTATE), b) * SEED64 % WORD
  }

  /** The hash takes words of 8 bytes, then at most one each of 4, 2 and 1. */
  function Chunk(n: nat): (c: nat)
    requires n > 0
    ensures 0 < c <= n
  {
    if n >= 8 then 8 else if n >= 4 then 4 else if n >= 2 then 2 else 1
  }

  function HashBytes(hash: u64, bytes: seq<u8>): u64
    decreases |bytes|
  {
    if bytes == [] then hash
    else
      var c := Chunk(|bytes|);
      HashBytes(HashWord64(hash, LeWord(bytes[..c])), bytes[c..])
  }

  lemma HashStep(hash: u64, bytes: seq<u8>, at: nat, c: nat)
    requires at < |bytes| && c == Chunk(|bytes| - at)
    ensures HashBytes(hash, bytes[at..]) == HashBytes(HashWord64(hash, LeWord(bytes[at..at + c])), bytes[at + c..])
  {
    var b := bytes[at..];
    assert b[..c] == bytes[at..at + c] && b[c..] == bytes[at + c..];
  }

  method HashWrite(hash: u64, bytes: seq<u8>) returns (h: u64)
    ensures h == HashBytes(hash, bytes)
  {
    hide HashWord64, HashBytes;
    h := hash;
    var at, len := 0, |bytes|;
    assert bytes[0..] == bytes;
    while len >= 8
      invariant 0 <= at <= at + len == |bytes|
      invariant HashBytes(h, bytes[at..]) == HashBytes(hash, bytes)
    {
      HashStep(h, bytes, at, 8);
      h := HashWord64(h, LeWord(bytes[at..at + 8]));
      at, len := at + 8, len - 8;
    }
    if len >= 4 {
      HashStep(h, bytes, at, 4);
      h := HashWord64(h, LeWord(bytes[at..at + 4]));
      at, len := at + 4, len - 4;
    }
    if len >= 2 {
      HashStep(h, bytes, at, 2);
      h := HashWord64(h, LeWord(bytes[at..at + 2]));
      at, len := at + 2, len - 2;
    }
    if len >= 1 {
      HashStep(h, bytes, at, 1);
      assert bytes[at..at + 1] == [bytes[at]] && LeWord([bytes[at]]) == bytes[at];
      h := HashWord64(h, bytes[at]);
      at, len := at + 1, len - 1;
    }
    assert bytes[at..] == [];
    HashEnd(h);
  }

  lemma HashEnd(h: u64)
    ensures HashBytes(h, []) == h
  {
  }

  // ----- no word is lost -----

  /** Every bit moves up by c places; the upper ones come in below. */
  lemma RotlBits(n: u64, c: nat, k: nat)
    requires k < 64 && c < 64
    ensures Bit(Rotl64(n, c), k) <==> Bit(n, if k >= c then k - c else k + 64 - c)
  {
    hide Or, Bit, Pow2;
    Literals();
    var d := (64 - c) % 64;
    OrOfBits(Shl64(n, c), Shr64(n, d), k);
    LowBit(n * Pow2(c), 64, k);
    ShlBit(n, c, k);
    ShrBit(n, d, k);
    if k >= c && c > 0 {
      NoBit(n, 64, k + d);
    }
  }

  lemma OrOfBits(a: nat, b: nat, k: nat)
    ensures Bit(Or(a, b), k) <==> Bit(a, k) || Bit(b, k)
  {
    hide Or;
    OrBits(a, b, k);
  }

  /** One step, bit by bit: the hash turned by five places, exclusive or the word, times the seed. */
  lemma StepBits(a: u64, b: u64) returns (w: u64)
    ensures forall k {:trigger Bit(w, k)} :: 0 <= k < 64 ==> (Bit(w, k) <==> Bit(a, if k >= 5 then k - 5 else k + 59) != Bit(b, k))
    ensures HashWord64(a, b) == w * 0x517c_c1b7_2722_0a95 % WORD
  {
    hide Xor, Rotl64, Bit, Pow2;
    Literals();
    var r := Rotl64(a, ROTATE);
    XorBound(r, b, 64);
    w := Xor(r, b);
    forall k | 0 <= k < 64 ensures Bit(w, k) <==> Bit(a, if k >= 5 then k - 5 else k + 59) != Bit(b, k) {
      XorOfBits(r, b, k);
      RotlBits(a, ROTATE, k);
    }
  }

  lemma XorOfBits(a: nat, b: nat, k: nat)
    ensures Bit(Xor(a, b), k) <==> Bit(a, k) != Bit(b, k)
  {
    hide Xor;
    XorBits(a, b, k);
  }

  lemma RotlOneToOne(a: u64, b: u64, c: nat)
    requires c < 64 && Rotl64(a, c) == Rotl64(b, c)
    ensures a == b
  {
    hide Bit, Rotl64, Pow2;
    Literals();
    forall k | 0 <= k < 64 ensures Bit(a, k) <==> Bit(b, k) {
      var j := if k + c < 64 then k + c else k + c - 64;
      RotlBits(a, c, j);
      RotlBits(b, c, j);
    }
    SameBits(a, b, 64);
  }

  /** One step of the hash is one-to-one in the hash so far and in the word. */
  lemma StepOneToOne(a: u64, x: u64, b: u64, y: u64)
    requires HashWord64(a, x) == HashWord64(b, y)
    ensures x == y ==> a == b
    ensures a == b ==> x == y
  {
    hide Xor, Rotl64, Pow2;
    Literals();
    var p, q := Rotl64(a, ROTATE), Rotl64(b, ROTATE);
    XorBound(p, x, 64);
    XorBound(q, y, 64);
    Unhash(Xor(p, x));
    Unhash(Xor(q, y));
    XorUndone(p, x);
    XorUndone(q, y);
    if x == y {
      RotlOneToOne(a, b, ROTATE);
    }
    if a == b {
      XorCommutes(p, x);
      XorCommutes(p, y);
      XorUndone(x, p);
      XorUndone(y, p);
    }
  }

  lemma ChunkWord(b: seq<u8>)
    requires |b| <= 8
    ensures LeWord(b) < WORD
  {
    LeWordBound(b);
    Pow2Monotone(8 * |b|, 64);
    Literals();
  }

  lemma ChunksDiffer(a: seq<u8>, b: seq<u8>)
    requires |a| == |b| && a != b
    ensures LeWord(a) != LeWord(b)
  {
    LeBytesOfWord(a);
    LeBytesOfWord(b);
  }

  lemma {:induction false} HashOneToOne(g: u64, h: u64, bytes: seq<u8>)
    requires g != h
    ensures HashBytes(g, bytes) != HashBytes(h, bytes)
    decreases |bytes|
  {
    if bytes != [] {
      var c := Chunk(|bytes|);
      var w := LeWord(bytes[..c]);
      ChunkWord(bytes[..c]);
      if HashWord64(g, w) == HashWord64(h, w) {
        StepOneToOne(g, w, h, w);
      }
      HashOneToOne(HashWord64(g, w), HashWord64(h, w), bytes[c..]);
    }
  }

  /** The hash of n bytes reads a word at `at`. */
  predicate WordStart(n: nat, at: nat)
    decreases n
  {
    at < n && (at == 0 || (Chunk(n) <= at && WordStart(n - Chunk(n), at - Chunk(n))))
  }

  lemma Shifted(a: seq<u8>, b: seq<u8>, c: nat, at: nat, end: nat)
    requires c <= at <= end <= |a| == |b| && a[..at] == b[..at] && a[end..] == b[end..]
    ensures a[..c] == b[..c] && a[c..][..at - c] == b[c..][..at - c] && a[c..][end - c..] == b[c..][end - c..]
    ensures a[c..] == b[c..] ==> a == b
  {
    assert a[..c] == a[..at][..c] && b[..c] == b[..at][..c];
    assert a == a[..c] + a[c..] && b == b[..c] + b[c..];
    assert a[c..][..at - c] == a[..at][c..] && b[c..][..at - c] == b[..at][c..];
    assert a[c..][end - c..] == a[end..] && b[c..][end - c..] == b[end..];
  }

  /** Keys that differ in one word only have different hashes. */
  lemma {:induction false} OneWordApart(hash: u64, a: seq<u8>, b: seq<u8>, at: nat)
    requires |a| == |b| && a != b && WordStart(|a|, at)
    requires var end := at + Chunk(|a| - at); a[..at] == b[..at] && a[end..] == b[end..]
    ensures HashBytes(hash, a) != HashBytes(hash, b)
    decreases |a|
  {
    hide HashWord64, LeWord;
    var c := Chunk(|a|);
    ChunkWord(a[..c]);
    ChunkWord(b[..c]);
    if at == 0 {
      assert a == a[..c] + a[c..] && b == b[..c] + b[c..];
      ChunksDiffer(a[..c], b[..c]);
      if HashWord64(hash, LeWord(a[..c])) == HashWord64(hash, LeWord(b[..c])) {
        StepOneToOne(hash, LeWord(a[..c]), hash, LeWord(b[..c]));
      }
      HashOneToOne(HashWord64(hash, LeWord(a[..c])), HashWord64(hash, LeWord(b[..c])), a[c..]);
    } else {
      Shifted(a, b, c, at, at + Chunk(|a| - at));
      OneWordApart(HashWord64(hash, LeWord(a[..c])), a[c..], b[c..], at - c);
    }
  }

  // ----- 8-byte keys -----

  lemma WordKeyHash(key: seq<u8>)
    requires |key| == 8
    ensures HashBytes(0, key) == LeWord(key) * SEED64 % WORD
  {
    assert key[..8] == key && key[8..] == [];
    assert Rotl64(0, ROTATE) == 0;
  }

  /** Multiplication by the seed is undone by multiplication by its inverse. */
  lemma Unhash(k: u64)
    ensures k * SEED64 % WORD * SEED_INVERSE % WORD == k
  {
    var h, q := k * SEED64 % WORD, k * SEED64 / WORD;
    assert k * SEED64 == WORD * q + h;
    var u := (SEED64 * SEED_INVERSE - 1) / WORD;
    assert SEED64 * SEED_INVERSE == WORD * u + 1;
    assert h * SEED_INVERSE == WORD * (k * u - q * SEED_INVERSE) + k by {
      assert (k * SEED64) * SEED_INVERSE == k * (SEED64 * SEED_INVERSE);
      assert (WORD * q) * SEED_INVERSE == WORD * (q * SEED_INVERSE);
      assert k * (WORD * u + 1) == WORD * (k * u) + k;
    }
    DivModUnique(h * SEED_INVERSE, WORD, k * u - q * SEED_INVERSE, k);
  }

  /** Distinct 8-byte keys have distinct 64-bit hashes. */
  lemma WordKeysDistinct(a: seq<u8>, b: seq<u8>)
    requires |a| == 8 && |b| == 8 && HashBytes(0, a) == HashBytes(0, b)
    ensures a == b
  {
    WordKeyHash(a);
    WordKeyHash(b);
    LeWordBound(a);
    LeWordBound(b);
    Literals();
    Unhash(LeWord(a));
    Unhash(LeWord(b));
    LeBytesOfWord(a);
    LeBytesOfWord(b);
  }
}
