/**
  Bit-level arithmetic on natural numbers.

  The two C programs keep their field elements, masks and polynomials in `int`
  and `unsigned char` variables and manipulate them with `^`, `&`, shifts and
  8-bit rotations.  Here those values are `nat`s and the bit operations are
  defined arithmetically, one bit at a time, so that facts about them can be
  proved by induction instead of by bit-blasting.
*/
module Bits {

  function Pow2(n: nat): (r: nat)
    ensures r >= 1
  {
    if n == 0 then 1 else 2 * Pow2(n - 1)
  }

  /** Bit k of x; bit 0 is the least significant. */
  predicate Bit(x: nat, k: nat)
  {
    if k == 0 then x % 2 == 1 else Bit(x / 2, k - 1)
  }

  /** Bitwise exclusive or, the C operator `^` on non-negative values. */
  function Xor(a: nat, b: nat): nat
    decreases a + b
  {
    if a == 0 && b == 0 then 0
    else 2 * Xor(a / 2, b / 2) + (if a % 2 == b % 2 then 0 else 1)
  }

  /** Bitwise and, the C operator `&` on non-negative values. */
  function And(a: nat, b: nat): nat
    decreases a + b
  {
    if a == 0 && b == 0 then 0
    else 2 * And(a / 2, b / 2) + (if a % 2 == 1 && b % 2 == 1 then 1 else 0)
  }

  /** An unsigned char rotated left by one, written `x << 1 | x >> 7` in the source.
      The two shifted parts have no bit in common, so the OR is a sum. */
  function Rotl8(x: nat): nat
  {
    (2 * x) % 256 + x / 128
  }

  /** An unsigned char rotated right by one, written `x << 7 | x >> 1` in the source. */
  function Rotr8(x: nat): nat
  {
    (x % 2) * 128 + x / 2
  }

  /** x rotated left n times as an unsigned char. */
  function RotlN(x: nat, n: nat): nat
  {
    if n == 0 then x else Rotl8(RotlN(x, n - 1))
  }

  /** The exclusive or of the booleans f(0), ..., f(n-1). */
  function ParityOf(f: nat -> bool, n: nat): bool
  {
    if n == 0 then false else ParityOf(f, n - 1) != f(n - 1)
  }

  /** The number whose bit k is f(k) for k < n and whose other bits are clear. */
  function FromBits(f: nat -> bool, n: nat): (r: nat)
    ensures r < Pow2(n)
  {
    if n == 0 then 0 else FromBits(f, n - 1) + (if f(n - 1) then Pow2(n - 1) else 0)
  }

  /** Number of set bits among the n low bits of a, counted one bit per step
      the way the source's `odd` loop does. */
  function OnesCount(a: nat, n: nat): nat
  {
    if n == 0 then 0 else a % 2 + OnesCount(a / 2, n - 1)
  }

  /** The source's `odd` (both programs define the same one): whether the 8 low
      bits of a hold an odd number of ones. Every call site passes a value that
      is already masked to 0..255. */
  predicate Odd(a: nat)
  {
    OnesCount(a, 8) % 2 == 1
  }

  // ---------------------------------------------------------------------
  // Powers of two

  lemma {:induction false} Pow2Add(m: nat, n: nat)
    ensures Pow2(m + n) == Pow2(m) * Pow2(n)
  {
    if m > 0 {
      Pow2Add(m - 1, n);
      assert Pow2(m + n) == 2 * Pow2(m - 1 + n);
    }
  }

  lemma {:induction false} Pow2Monotone(m: nat, n: nat)
    requires m <= n
    ensures Pow2(m) <= Pow2(n)
  {
    if m < n {
      Pow2Monotone(m, n - 1);
    }
  }

  // ---------------------------------------------------------------------
  // Bits of a number

  lemma {:induction false} BitZero(k: nat)
    ensures !Bit(0, k)
  {
    if k > 0 {
      BitZero(k - 1);
    }
  }

  lemma BitDouble(x: nat, c: nat, k: nat)
    requires c < 2
    ensures Bit(2 * x + c, k) == if k == 0 then c == 1 else Bit(x, k - 1)
  {
  }

  /** A number is determined by its bits. */
  lemma {:induction false} BitsEqual(a: nat, b: nat)
    requires forall k: nat :: Bit(a, k) == Bit(b, k)
    ensures a == b
    decreases a + b
  {
    if a != 0 || b != 0 {
      assert Bit(a, 0) == Bit(b, 0);
      forall k: nat
        ensures Bit(a / 2, k) == Bit(b / 2, k)
      {
        assert Bit(a, k + 1) == Bit(b, k + 1);
      }
      BitsEqual(a / 2, b / 2);
    }
  }

  /** Below 2^n, every bit from n upwards is clear. */
  lemma {:induction false} BitsAbove(x: nat, n: nat, k: nat)
    requires x < Pow2(n) && n <= k
    ensures !Bit(x, k)
  {
    if n == 0 {
      assert x == 0;
      BitZero(k);
    } else {
      BitsAbove(x / 2, n - 1, k - 1);
    }
  }

  /** Conversely, a number whose bits from n upwards are clear is below 2^n. */
  lemma {:induction false} BoundFromBits(x: nat, n: nat)
    requires forall k: nat :: n <= k ==> !Bit(x, k)
    ensures x < Pow2(n)
    decreases x
  {
    if n == 0 {
      if x != 0 {
        forall k: nat
          ensures Bit(x, k) == Bit(0, k)
        {
          BitZero(k);
        }
        BitsEqual(x, 0);
      }
    } else if x > 0 {
      forall k: nat | n - 1 <= k
        ensures !Bit(x / 2, k)
      {
        assert !Bit(x, k + 1);
      }
      BoundFromBits(x / 2, n - 1);
    }
  }

  lemma {:induction false} BitPow2(m: nat, k: nat)
    ensures Bit(Pow2(m), k) == (k == m)
  {
    if m == 0 {
      if k > 0 {
        BitZero(k - 1);
      }
    } else if k > 0 {
      BitPow2(m - 1, k - 1);
    }
  }

  /** Adding 2^m to a number below 2^m sets exactly bit m. */
  lemma {:induction false} BitAddTop(y: nat, m: nat, c: bool, k: nat)
    requires y < Pow2(m)
    ensures Bit(y + (if c then Pow2(m) else 0), k) == ((k < m && Bit(y, k)) || (k == m && c))
  {
    if m == 0 {
      assert y == 0;
      if k > 0 {
        BitZero(k - 1);
      }
    } else {
      var v := y + (if c then Pow2(m) else 0);
      assert v / 2 == y / 2 + (if c then Pow2(m - 1) else 0);
      if k > 0 {
        BitAddTop(y / 2, m - 1, c, k - 1);
      }
    }
  }

  lemma {:induction false} BitFromBits(f: nat -> bool, n: nat, k: nat)
    ensures Bit(FromBits(f, n), k) == (k < n && f(k))
  {
    if n == 0 {
      BitZero(k);
    } else {
      BitAddTop(FromBits(f, n - 1), n - 1, f(n - 1), k);
      if k < n - 1 {
        BitFromBits(f, n - 1, k);
      }
    }
  }

  // ---------------------------------------------------------------------
  // Exclusive or and and

  lemma {:induction false} BitXor(a: nat, b: nat, k: nat)
    ensures Bit(Xor(a, b), k) == (Bit(a, k) != Bit(b, k))
    decreases k
  {
    if a == 0 && b == 0 {
      BitZero(k);
    } else if k > 0 {
      BitXor(a / 2, b / 2, k - 1);
    }
  }

  lemma {:induction false} BitAnd(a: nat, b: nat, k: nat)
    ensures Bit(And(a, b), k) == (Bit(a, k) && Bit(b, k))
    decreases k
  {
    if a == 0 && b == 0 {
      BitZero(k);
    } else if k > 0 {
      BitAnd(a / 2, b / 2, k - 1);
    }
  }

  lemma XorComm(a: nat, b: nat)
    ensures Xor(a, b) == Xor(b, a)
  {
    forall k: nat
      ensures Bit(Xor(a, b), k) == Bit(Xor(b, a), k)
    {
      BitXor(a, b, k);
      BitXor(b, a, k);
    }
    BitsEqual(Xor(a, b), Xor(b, a));
  }

  lemma XorAssoc(a: nat, b: nat, c: nat)
    ensures Xor(Xor(a, b), c) == Xor(a, Xor(b, c))
  {
    forall k: nat
      ensures Bit(Xor(Xor(a, b), c), k) == Bit(Xor(a, Xor(b, c)), k)
    {
      BitXor(Xor(a, b), c, k);
      BitXor(a, b, k);
      BitXor(a, Xor(b, c), k);
      BitXor(b, c, k);
    }
    BitsEqual(Xor(Xor(a, b), c), Xor(a, Xor(b, c)));
  }

  lemma XorZero(a: nat)
    ensures Xor(a, 0) == a && Xor(0, a) == a
  {
    forall k: nat
      ensures Bit(Xor(a, 0), k) == Bit(a, k) && Bit(Xor(0, a), k) == Bit(a, k)
    {
      BitXor(a, 0, k);
      BitXor(0, a, k);
      BitZero(k);
    }
    BitsEqual(Xor(a, 0), a);
    BitsEqual(Xor(0, a), a);
  }

  lemma XorSelf(a: nat)
    ensures Xor(a, a) == 0
  {
    forall k: nat
      ensures Bit(Xor(a, a), k) == Bit(0, k)
    {
      BitXor(a, a, k);
      BitZero(k);
    }
    BitsEqual(Xor(a, a), 0);
  }

  lemma XorBound(a: nat, b: nat, n: nat)
    requires a < Pow2(n) && b < Pow2(n)
    ensures Xor(a, b) < Pow2(n)
  {
    forall k: nat | n <= k
      ensures !Bit(Xor(a, b), k)
    {
      BitXor(a, b, k);
      BitsAbove(a, n, k);
      BitsAbove(b, n, k);
    }
    BoundFromBits(Xor(a, b), n);
  }

  lemma AndComm(a: nat, b: nat)
    ensures And(a, b) == And(b, a)
  {
    forall k: nat
      ensures Bit(And(a, b), k) == Bit(And(b, a), k)
    {
      BitAnd(a, b, k);
      BitAnd(b, a, k);
    }
    BitsEqual(And(a, b), And(b, a));
  }

  /** And distributes over exclusive or. */
  lemma AndXor(m: nat, x: nat, y: nat)
    ensures And(m, Xor(x, y)) == Xor(And(m, x), And(m, y))
  {
    forall k: nat
      ensures Bit(And(m, Xor(x, y)), k) == Bit(Xor(And(m, x), And(m, y)), k)
    {
      BitAnd(m, Xor(x, y), k);
      BitXor(x, y, k);
      BitXor(And(m, x), And(m, y), k);
      BitAnd(m, x, k);
      BitAnd(m, y, k);
    }
    BitsEqual(And(m, Xor(x, y)), Xor(And(m, x), And(m, y)));
  }

  lemma AndZero(a: nat)
    ensures And(a, 0) == 0
  {
    forall k: nat
      ensures Bit(And(a, 0), k) == Bit(0, k)
    {
      BitAnd(a, 0, k);
      BitZero(k);
    }
    BitsEqual(And(a, 0), 0);
  }

  lemma AndOne(a: nat)
    ensures And(a, 1) == a % 2
  {
    AndHalf(a, 1);
    AndZero(a / 2);
  }

  // ---------------------------------------------------------------------
  // Powers of two as the source's alignment markers

  /** n is a power of two (the marker `i` of the source's `modpoly`). */
  predicate IsPow2(n: nat)
    decreases n
  {
    if n <= 1 then n == 1 else n % 2 == 0 && IsPow2(n / 2)
  }

  lemma {:induction false} Pow2IsPow2(n: nat)
    ensures IsPow2(Pow2(n))
  {
    if n > 0 {
      Pow2IsPow2(n - 1);
    }
  }

  /** Between a power of two and the next one there is no other. */
  lemma {:induction false} IsPow2Gap(m: nat, i: nat)
    requires IsPow2(m) && IsPow2(i) && m < i
    ensures 2 * m <= i
    decreases m
  {
    if m > 1 {
      IsPow2Gap(m / 2, i / 2);
    }
  }

  /** Exclusive or of two numbers with the same leading bit clears it. */
  lemma {:induction false} XorSameTop(a: nat, b: nat, i: nat)
    requires IsPow2(i) && i <= a < 2 * i && i <= b < 2 * i
    ensures Xor(a, b) < i
    decreases i
  {
    XorHalf(a, b);
    if i == 1 {
      assert a == 1 && b == 1;
    } else {
      XorSameTop(a / 2, b / 2, i / 2);
    }
  }

  // ---------------------------------------------------------------------
  // Parity folds

  lemma {:induction false} ParityExt(f: nat -> bool, g: nat -> bool, n: nat)
    requires forall i: nat :: i < n ==> f(i) == g(i)
    ensures ParityOf(f, n) == ParityOf(g, n)
  {
    if n > 0 {
      ParityExt(f, g, n - 1);
    }
  }

  /** A fold whose terms are all false except perhaps term c is term c. */
  lemma {:induction false} ParitySingle(f: nat -> bool, n: nat, c: nat)
    requires forall i: nat :: i < n && i != c ==> !f(i)
    ensures ParityOf(f, n) == (c < n && f(c))
  {
    if n > 0 {
      ParitySingle(f, n - 1, c);
    }
  }

  /** Terms from m on that are all false do not change the fold. */
  lemma {:induction false} ParityTail(f: nat -> bool, m: nat, n: nat)
    requires m <= n
    requires forall i: nat :: m <= i < n ==> !f(i)
    ensures ParityOf(f, n) == ParityOf(f, m)
  {
    if m < n {
      ParityTail(f, m, n - 1);
    }
  }

  lemma {:induction false} ParityXor(f: nat -> bool, g: nat -> bool, n: nat)
    ensures ParityOf((i: nat) => f(i) != g(i), n) == (ParityOf(f, n) != ParityOf(g, n))
  {
    if n > 0 {
      ParityXor(f, g, n - 1);
    }
  }

  /** Peeling off the first term instead of the last. */
  lemma {:induction false} ParityFirst(f: nat -> bool, n: nat)
    requires n > 0
    ensures ParityOf(f, n) == (f(0) != ParityOf((i: nat) => f(i + 1), n - 1))
  {
    if n > 1 {
      ParityFirst(f, n - 1);
    }
  }

  /** The first n terms of f in reverse order. */
  function Reversed(f: nat -> bool, n: nat): nat -> bool
  {
    (i: nat) => i < n && f(n - 1 - i)
  }

  /** The order of the terms does not matter: the fold read backwards. */
  lemma {:induction false} ParityReverse(f: nat -> bool, n: nat)
    ensures ParityOf(Reversed(f, n), n) == ParityOf(f, n)
  {
    if n > 0 {
      var g := (i: nat) => f(i + 1);
      var rev := Reversed(f, n);
      var revG := Reversed(g, n - 1);
      ParityReverse(g, n - 1);
      ParityExt(rev, revG, n - 1);
      ParityFirst(f, n);
    }
  }

  /** The terms of f from position a on. */
  function Shift(f: nat -> bool, a: nat): nat -> bool
  {
    (j: nat) => f(a + j)
  }

  /** A fold of a prefix of length a + b is the fold of the first a terms
      followed by the fold of the next b. */
  lemma {:induction false} ParitySplit(f: nat -> bool, a: nat, b: nat)
    ensures ParityOf(f, a + b) == (ParityOf(f, a) != ParityOf(Shift(f, a), b))
  {
    if b > 0 {
      ParitySplit(f, a, b - 1);
    }
  }

  /** The fold of each row of 8 terms of f. */
  function RowParities(f: nat -> bool): nat -> bool
  {
    (i: nat) => ParityOf(Shift(f, 8 * i), 8)
  }

  /** A fold of 8 * m terms, grouped in rows of 8. */
  lemma {:induction false} ParityRows(f: nat -> bool, m: nat)
    ensures ParityOf(f, 8 * m) == ParityOf(RowParities(f), m)
  {
    if m > 0 {
      ParityRows(f, m - 1);
      assert 8 * m == 8 * (m - 1) + 8;
      ParitySplit(f, 8 * (m - 1), 8);
      assert RowParities(f)(m - 1) == ParityOf(Shift(f, 8 * (m - 1)), 8);
    }
  }

  // ---------------------------------------------------------------------
  // Rotations of an unsigned char

  lemma Pow2Seven()
    ensures Pow2(7) == 128 && Pow2(8) == 256
  {
    assert Pow2(2) == 4;
    assert Pow2(4) == 16;
    assert Pow2(6) == 64;
  }

  /** A byte is its low seven bits plus its top bit. */
  lemma ByteSplit(x: nat, k: nat)
    requires x < 256
    ensures Bit(x, k) == ((k < 7 && Bit(x % 128, k)) || (k == 7 && x / 128 == 1))
  {
    Pow2Seven();
    assert x == x % 128 + (if x / 128 == 1 then Pow2(7) else 0);
    BitAddTop(x % 128, 7, x / 128 == 1, k);
  }

  /** Position k - n counted modulo 8, for k < 8 and n <= 8. */
  function RotIndex(k: nat, n: nat): nat
    requires k < 8 && n <= 8
  {
    if n <= k then k - n else k + 8 - n
  }

  /** Bit k of a left rotation is bit k - 1 (mod 8) of the original. */
  lemma RotlBit(x: nat, k: nat)
    requires x < 256 && k < 8
    ensures Rotl8(x) < 256
    ensures Bit(Rotl8(x), k) == Bit(x, RotIndex(k, 1))
  {
    assert Rotl8(x) == 2 * (x % 128) + x / 128;
    BitDouble(x % 128, x / 128, k);
    ByteSplit(x, RotIndex(k, 1));
  }

  lemma {:induction false} RotlNBit(x: nat, n: nat, k: nat)
    requires x < 256 && n <= 8 && k < 8
    ensures Bit(RotlN(x, n), k) == Bit(x, RotIndex(k, n))
  {
    if n > 0 {
      var k' := RotIndex(k, 1);
      RotlNBit(x, n - 1, k');
      RotlNBound(x, n - 1);
      RotlBit(RotlN(x, n - 1), k);
      assert RotIndex(k', n - 1) == RotIndex(k, n);
    }
  }

  lemma {:induction false} RotlNBound(x: nat, n: nat)
    requires x < 256
    ensures RotlN(x, n) < 256
  {
    if n > 0 {
      RotlNBound(x, n - 1);
    }
  }

  /** Eight rotations give the byte back. */
  lemma RotlEight(x: nat)
    requires x < 256
    ensures RotlN(x, 8) == x
  {
    RotlNBound(x, 8);
    forall k: nat
      ensures Bit(RotlN(x, 8), k) == Bit(x, k)
    {
      if k < 8 {
        RotlNBit(x, 8, k);
      } else {
        BitsAbove(RotlN(x, 8), 8, k);
        BitsAbove(x, 8, k);
      }
    }
    BitsEqual(RotlN(x, 8), x);
  }

  /** The low bit after n rotations (1 <= n <= 8) is bit 8 - n of the original. */
  lemma RotlNLowBit(x: nat, n: nat)
    requires x < 256 && 1 <= n <= 8
    ensures RotlN(x, n) % 2 == (if Bit(x, 8 - n) then 1 else 0)
  {
    RotlNBit(x, n, 0);
  }

  // ---------------------------------------------------------------------
  // Parity of the low 8 bits

  lemma {:induction false} OnesCountBits(a: nat, n: nat)
    ensures (OnesCount(a, n) % 2 == 1) == ParityOf((k: nat) => Bit(a, k), n)
  {
    if n > 0 {
      var f := (k: nat) => Bit(a, k);
      OnesCountBits(a / 2, n - 1);
      ParityFirst(f, n);
      ParityExt((i: nat) => f(i + 1), (k: nat) => Bit(a / 2, k), n - 1);
    }
  }

  lemma {:induction false} OnesCountXor(x: nat, y: nat, n: nat)
    ensures OnesCount(Xor(x, y), n) % 2 == (OnesCount(x, n) + OnesCount(y, n)) % 2
  {
    if n > 0 {
      var z := Xor(x, y);
      XorHalf(x, y);
      OnesCountXor(x / 2, y / 2, n - 1);
      assert OnesCount(z, n) == z % 2 + OnesCount(z / 2, n - 1);
      assert OnesCount(x, n) == x % 2 + OnesCount(x / 2, n - 1);
      assert OnesCount(y, n) == y % 2 + OnesCount(y / 2, n - 1);
      ParityOfSums(z % 2, OnesCount(z / 2, n - 1), x % 2, OnesCount(x / 2, n - 1),
                   y % 2, OnesCount(y / 2, n - 1));
    }
  }

  /** Sums of numbers with matching parities have matching parities. */
  lemma ParityOfSums(p: nat, a: nat, q: nat, b: nat, r: nat, c: nat)
    requires p % 2 == (q + r) % 2 && a % 2 == (b + c) % 2
    ensures (p + a) % 2 == ((q + b) + (r + c)) % 2
  {
  }

  lemma ParitySum(a: nat, b: nat)
    ensures ((a + b) % 2 == 1) == ((a % 2 == 1) != (b % 2 == 1))
  {
  }

  lemma XorHalf(x: nat, y: nat)
    ensures Xor(x, y) % 2 == (x % 2 + y % 2) % 2
    ensures Xor(x, y) / 2 == Xor(x / 2, y / 2)
  {
    var h := Xor(x / 2, y / 2);
    var c := if x % 2 == y % 2 then 0 else 1;
    if x == 0 && y == 0 {
      assert h == 0;
    } else {
      assert Xor(x, y) == 2 * h + c;
      HalfOf(h, c);
    }
    BitSum(x % 2, y % 2);
  }

  /** The exclusive or of two bits is their sum modulo 2. */
  lemma BitSum(a: nat, b: nat)
    requires a < 2 && b < 2
    ensures (if a == b then 0 else 1) == (a + b) % 2
  {
  }

  lemma AndHalf(x: nat, y: nat)
    ensures And(x, y) % 2 == (if x % 2 == 1 && y % 2 == 1 then 1 else 0)
    ensures And(x, y) / 2 == And(x / 2, y / 2)
  {
    var h := And(x / 2, y / 2);
    var c := if x % 2 == 1 && y % 2 == 1 then 1 else 0;
    if x == 0 && y == 0 {
      assert h == 0;
    } else {
      assert And(x, y) == 2 * h + c;
      HalfOf(h, c);
    }
  }

  lemma HalfOf(h: nat, c: nat)
    requires c < 2
    ensures (2 * h + c) % 2 == c && (2 * h + c) / 2 == h
  {
  }
}
