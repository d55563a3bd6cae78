/**
 * Machine words of the kernel (`intptr_t`, `size_t`, `uint64_t`) as bounded integers.
 * The C bit operators are defined bit by bit; the lemmas turn every mask and shift
 * the kernel uses into a quotient or a remainder by a power of two.
 */
module Words {
  const WORD: int := 0x1_0000_0000_0000_0000

  type u64 = x: int | 0 <= x < 0x1_0000_0000_0000_0000
  type u8 = x: int | 0 <= x < 256

  function Pow2(k: nat): (r: nat)
    ensures r > 0
  {
    if k == 0 then 1 else 2 * Pow2(k - 1)
  }

  function Shl(x: nat, k: nat): (r: nat)
    ensures r % Pow2(k) == 0
  {
    DivModUnique(x * Pow2(k), Pow2(k), x, 0);
    x * Pow2(k)
  }

  function And(x: nat, y: nat): nat {
    if x == 0 || y == 0 then 0
    else 2 * And(x / 2, y / 2) + (if x % 2 == 1 && y % 2 == 1 then 1 else 0)
  }

  function Or(x: nat, y: nat): nat {
    if x == 0 then y else if y == 0 then x
    else 2 * Or(x / 2, y / 2) + (if x % 2 == 1 || y % 2 == 1 then 1 else 0)
  }

  function Xor(x: nat, y: nat): nat {
    if x == 0 then y else if y == 0 then x
    else 2 * Xor(x / 2, y / 2) + (if x % 2 != y % 2 then 1 else 0)
  }

  // ----- quotients and remainders -----

  lemma MulAtLeast(d: int, k: int)
    requires d > 0 && k >= 1
    ensures d * k >= d
  {
    assert d * k == d * (k - 1) + d;
    assert d * (k - 1) >= 0;
  }

  lemma DivModUnique(x: int, d: int, q: int, r: int)
    requires d > 0 && 0 <= r < d && x == d * q + r
    ensures x / d == q && x % d == r
  {
    var q', r' := x / d, x % d;
    assert d * q' + r' == d * q + r;
    if q > q' {
      MulAtLeast(d, q - q');
    } else if q < q' {
      MulAtLeast(d, q' - q);
    }
  }

  lemma ModMod(h: nat, d: nat, c: nat)
    requires d > 0 && c > 0 && d * c > 0
    ensures h % (d * c) % d == h % d
  {
    var q, r := h / (d * c), h % (d * c);
    var a, b := r / d, r % d;
    assert h == (d * c) * q + r && r == d * a + b;
    assert (d * c) * q == d * (c * q);
    assert d * (c * q + a) == d * (c * q) + d * a;
    DivModUnique(h, d, c * q + a, b);
  }

  lemma ModDouble(x: nat, p: nat)
    requires p > 0
    ensures x % (2 * p) == 2 * ((x / 2) % p) + x % 2
    ensures x / (2 * p) == (x / 2) / p
  {
    var h := x / 2;
    var q, r := h / p, h % p;
    assert h == p * q + r;
    assert x == (2 * p) * q + (2 * r + x % 2);
    DivModUnique(x, 2 * p, q, 2 * r + x % 2);
  }

  lemma {:induction false} Pow2Monotone(j: nat, k: nat)
    requires j <= k
    ensures Pow2(j) <= Pow2(k)
  {
    if j < k {
      Pow2Monotone(j, k - 1);
    }
  }

  lemma {:induction false} Pow2Add(j: nat, k: nat)
    ensures Pow2(j + k) == Pow2(j) * Pow2(k)
  {
    if j > 0 {
      Pow2Add(j - 1, k);
      assert Pow2(j + k) == 2 * Pow2(j - 1 + k);
    }
  }

  lemma SliceLast<T>(s: seq<T>, i: nat, n: nat)
    requires n > 0 && i + n <= |s|
    ensures s[i..i + n] == s[i..i + n - 1] + [s[i + n - 1]]
  {
  }

  lemma SliceBefore<T>(a: seq<T>, b: seq<T>, i: nat, n: nat)
    requires i + n <= |a|
    ensures (a + b)[i..i + n] == a[i..i + n]
  {
  }

  lemma SliceBehind<T>(a: seq<T>, b: seq<T>, i: nat, n: nat)
    requires i + n <= |b|
    ensures (a + b)[|a| + i..|a| + i + n] == b[i..i + n]
  {
  }

  // ----- masks -----

  lemma AndStep(x: nat, y: nat)
    ensures And(x, y) == 2 * And(x / 2, y / 2) + (if x % 2 == 1 && y % 2 == 1 then 1 else 0)
  {
  }

  /** `x & (2^k - 1)` keeps the low k bits. */
  lemma {:induction false} AndMask(x: nat, k: nat)
    ensures And(x, Pow2(k) - 1) == x % Pow2(k)
  {
    hide And;
    if k == 0 {
      AndNone(x);
    } else {
      var y := Pow2(k) - 1;
      assert y / 2 == Pow2(k - 1) - 1 && y % 2 == 1;
      AndStep(x, y);
      AndMask(x / 2, k - 1);
      ModDouble(x, Pow2(k - 1));
    }
  }

  lemma AndNone(x: nat)
    ensures And(x, 0) == 0
  {
  }

  lemma AndEven(x: nat, y: nat)
    ensures And(x, 2 * y) == 2 * And(x / 2, y)
  {
  }

  lemma AndClearStep(x: nat, y: nat, p: nat)
    requires p > 0 && And(x / 2, y) == x / 2 - x / 2 % p
    ensures And(x, 2 * y) == x - x % (2 * p)
  {
    AndEven(x, y);
    ModDouble(x, p);
  }

  /** `x & ~(2^k - 1)`, on n-bit words, clears the low k bits. */
  lemma {:induction false} AndClear(x: nat, k: nat, n: nat)
    requires k <= n && x < Pow2(n)
    ensures Pow2(k) <= Pow2(n)
    ensures And(x, Pow2(n) - Pow2(k)) == x - x % Pow2(k)
  {
    Pow2Monotone(k, n);
    if k == 0 {
      AndMask(x, n);
      DivModUnique(x, Pow2(n), 0, x);
      DivModUnique(x, 1, x, 0);
    } else {
      AndClear(x / 2, k - 1, n - 1);
      AndClearStep(x, Pow2(n - 1) - Pow2(k - 1), Pow2(k - 1));
    }
  }

  /** `x & (1 << k)` tests bit k. */
  lemma {:induction false} AndBit(x: nat, k: nat)
    ensures And(x, Pow2(k)) == if x / Pow2(k) % 2 == 1 then Pow2(k) else 0
  {
    if k > 0 {
      AndBit(x / 2, k - 1);
      ModDouble(x, Pow2(k - 1));
    } else {
      assert And(x / 2, 0) == 0;
    }
  }

  /** `a | b` is a sum when b only has bits below the lowest bit of a. */
  lemma {:induction false} OrDisjoint(a: nat, b: nat, k: nat)
    requires a % Pow2(k) == 0 && b < Pow2(k)
    ensures Or(a, b) == a + b
  {
    if k > 0 && a > 0 && b > 0 {
      ModDouble(a, Pow2(k - 1));
      OrDisjoint(a / 2, b / 2, k - 1);
    }
  }

  /** Bits above 2^k pass through `|`. */
  lemma {:induction false} OrHigh(h: nat, a: nat, b: nat, k: nat)
    requires h % Pow2(k) == 0 && a < Pow2(k) && b < Pow2(k)
    ensures Or(h + a, b) == h + Or(a, b)
  {
    if k > 0 && b > 0 {
      ModDouble(h, Pow2(k - 1));
      OrHigh(h / 2, a / 2, b / 2, k - 1);
      assert (h + a) / 2 == h / 2 + a / 2;
      assert (h + a) % 2 == a % 2;
      OrZero(a, b);
      OrZero(h + a, b);
    }
  }

  lemma OrZero(a: nat, b: nat)
    ensures Or(a, b) == 2 * Or(a / 2, b / 2) + (if a % 2 == 1 || b % 2 == 1 then 1 else 0)
  {
  }

  lemma OrCommutes(a: nat, b: nat)
    ensures Or(a, b) == Or(b, a)
  {
  }

  /** Below 2^k an `|` stays below 2^k. */
  lemma {:induction false} OrBound(a: nat, b: nat, k: nat)
    requires a < Pow2(k) && b < Pow2(k)
    ensures a <= Or(a, b) < Pow2(k)
  {
    if k > 0 && a > 0 && b > 0 {
      OrBound(a / 2, b / 2, k - 1);
    }
  }

  lemma {:induction false} OrBits(a: nat, b: nat, k: nat)
    ensures Or(a, b) / Pow2(k) % 2 == 1 <==> a / Pow2(k) % 2 == 1 || b / Pow2(k) % 2 == 1
  {
    if a == 0 || b == 0 {
    } else if k > 0 {
      OrBits(a / 2, b / 2, k - 1);
      ModDouble(a, Pow2(k - 1));
      ModDouble(b, Pow2(k - 1));
      ModDouble(Or(a, b), Pow2(k - 1));
    }
  }

  /** Bit k of a word. */
  predicate Bit(w: nat, k: nat) {
    w / Pow2(k) % 2 == 1
  }

  /** The low n bits do not depend on the others. */
  lemma {:induction false} LowBit(w: nat, n: nat, k: nat)
    requires k < n
    ensures Bit(w % Pow2(n), k) <==> Bit(w, k)
  {
    ModDouble(w, Pow2(n - 1));
    var v := w % Pow2(n);
    assert v / 2 == w / 2 % Pow2(n - 1) && v % 2 == w % 2;
    if k > 0 {
      LowBit(w / 2, n - 1, k - 1);
      ModDouble(v, Pow2(k - 1));
      ModDouble(w, Pow2(k - 1));
    }
  }

  lemma {:induction false} ShlBit(w: nat, c: nat, k: nat)
    ensures Bit(w * Pow2(c), k) <==> k >= c && Bit(w, k - c)
    decreases c
  {
    if c > 0 {
      var v := w * Pow2(c - 1);
      assert w * Pow2(c) == 2 * v;
      if k > 0 {
        ModDouble(2 * v, Pow2(k - 1));
        ShlBit(w, c - 1, k - 1);
      }
    }
  }

  lemma {:induction false} ShrBit(w: nat, c: nat, k: nat)
    ensures 0 <= w / Pow2(c) && (Bit(w / Pow2(c), k) <==> Bit(w, k + c))
    decreases c
  {
    if c > 0 {
      ModDouble(w, Pow2(c - 1));
      ShrBit(w / 2, c - 1, k);
      ModDouble(w, Pow2(k + c - 1));
    }
  }

  /** A word has no bits from its size on. */
  lemma NoBit(w: nat, n: nat, k: nat)
    requires w < Pow2(n) && n <= k
    ensures !Bit(w, k)
  {
    Pow2Monotone(n, k);
    DivModUnique(w, Pow2(k), 0, w);
  }

  /** Words with equal bits are equal. */
  lemma {:induction false} SameBits(a: nat, b: nat, n: nat)
    requires a < Pow2(n) && b < Pow2(n) && forall k :: 0 <= k < n ==> (Bit(a, k) <==> Bit(b, k))
    ensures a == b
  {
    if n > 0 {
      assert Bit(a, 0) <==> Bit(b, 0);
      forall k | 0 <= k < n - 1 ensures Bit(a / 2, k) <==> Bit(b / 2, k) {
        assert Bit(a, k + 1) <==> Bit(b, k + 1);
        ModDouble(a, Pow2(k));
        ModDouble(b, Pow2(k));
      }
      SameBits(a / 2, b / 2, n - 1);
    }
  }

  lemma XorHalf(a: nat, b: nat)
    ensures Xor(a, b) / 2 == Xor(a / 2, b / 2) && (Xor(a, b) % 2 == 1 <==> a % 2 != b % 2)
  {
    XorStep(a, b);
  }

  lemma {:induction false} XorBits(a: nat, b: nat, k: nat)
    ensures Bit(Xor(a, b), k) <==> Bit(a, k) != Bit(b, k)
  {
    hide Xor;
    XorHalf(a, b);
    if k > 0 {
      ModDouble(a, Pow2(k - 1));
      ModDouble(b, Pow2(k - 1));
      ModDouble(Xor(a, b), Pow2(k - 1));
      XorBits(a / 2, b / 2, k - 1);
    }
  }

  lemma {:induction false} XorUndone(a: nat, b: nat)
    ensures Xor(Xor(a, b), b) == a
  {
    if a != 0 && b != 0 {
      XorUndone(a / 2, b / 2);
      XorStep(a, b);
      XorStep(Xor(a, b), b);
    } else if b != 0 {
      XorSelf(b);
    }
  }

  lemma XorStep(a: nat, b: nat)
    ensures Xor(a, b) == 2 * Xor(a / 2, b / 2) + (if a % 2 != b % 2 then 1 else 0)
  {
  }

  lemma {:induction false} XorSelf(a: nat)
    ensures Xor(a, a) == 0
  {
    if a > 0 {
      XorSelf(a / 2);
    }
  }

  lemma {:induction false} XorCommutes(a: nat, b: nat)
    ensures Xor(a, b) == Xor(b, a)
  {
    if a != 0 && b != 0 {
      XorCommutes(a / 2, b / 2);
    }
  }

  lemma {:induction false} XorBound(a: nat, b: nat, k: nat)
    requires a < Pow2(k) && b < Pow2(k)
    ensures Xor(a, b) < Pow2(k)
  {
    if k > 0 && a > 0 && b > 0 {
      XorBound(a / 2, b / 2, k - 1);
    }
  }

  // ----- little-endian bytes -----

  function LeBytes(w: nat, n: nat): (b: seq<u8>)
    ensures |b| == n
  {
    if n == 0 then [] else [w % 256] + LeBytes(w / 256, n - 1)
  }

  function LeWord(b: seq<u8>): nat {
    if b == [] then 0 else b[0] + 256 * LeWord(b[1..])
  }

  lemma {:induction false} LeWordOfBytes(w: nat, n: nat)
    requires w < Pow2(8 * n)
    ensures LeWord(LeBytes(w, n)) == w
  {
    if n > 0 {
      Pow2Add(8, 8 * (n - 1));
      Literals();
      LeWordOfBytes(w / 256, n - 1);
      assert LeBytes(w, n)[1..] == LeBytes(w / 256, n - 1);
    }
  }

  lemma {:induction false} LeWordBound(b: seq<u8>)
    ensures LeWord(b) < Pow2(8 * |b|)
  {
    if b != [] {
      Pow2Add(8, 8 * (|b| - 1));
      Literals();
      LeWordBound(b[1..]);
    }
  }

  lemma {:induction false} LeBytesOfWord(b: seq<u8>)
    ensures LeBytes(LeWord(b), |b|) == b
  {
    if b != [] {
      LeBytesOfWord(b[1..]);
      DivModUnique(LeWord(b), 256, LeWord(b[1..]), b[0]);
      assert LeBytes(LeWord(b), |b|) == [b[0]] + LeBytes(LeWord(b[1..]), |b| - 1);
    }
  }

  lemma Literals()
    ensures Pow2(0) == 1 && Pow2(1) == 2 && Pow2(2) == 4 && Pow2(3) == 8
    ensures Pow2(5) == 32 && Pow2(8) == 256 && Pow2(9) == 512 && Pow2(10) == 1024 && Pow2(12) == 4096
    ensures Pow2(21) == 0x20_0000 && Pow2(30) == 0x4000_0000 && Pow2(38) == 0x40_0000_0000
    ensures Pow2(59) == 0x800_0000_0000_0000 && Pow2(64) == WORD
  {
    assert Pow2(10) == 1024;
    assert Pow2(21) == Pow2(11 + 10) by { Pow2Add(11, 10); }
    Pow2Add(10, 20);
    Pow2Add(10, 10);
    Pow2Add(8, 30);
    Pow2Add(21, 38);
    Pow2Add(5, 59);
  }

  /** `|` on 64-bit words. */
  function Or64(a: u64, b: u64): u64 {
    Literals();
    OrBound(a, b, 64);
    Or(a, b)
  }

  lemma DivBound(n: nat, d: nat)
    requires d > 0
    ensures 0 <= n / d <= n
  {
    var q, r := n / d, n % d;
    assert n == d * q + r;
    if q > 0 {
      MulAtLeast(q, d);
    } else if q < 0 {
      MulAtLeast(d, -q);
    }
  }

  /** `<<` and `>>` on uint64_t. */
  function Shl64(n: u64, k: nat): u64 {
    n * Pow2(k) % WORD
  }

  function Shr64(n: u64, k: nat): u64 {
    DivBound(n, Pow2(k));
    n / Pow2(k)
  }
}
