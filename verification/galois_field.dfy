/**
  The GF(2^8) arithmetic of the S-box generator (AESsbox.c).

  A byte stands for a polynomial over GF(2): bit k is the coefficient of x^k.
  Polynomials are multiplied without carries (`multpoly`), reduced modulo a
  degree-8 polynomial (`modpoly`) and finally pushed through the affine
  transformation of the AES S-box (`afftrans`).
*/
module GaloisField {
  import opened Bits

  // ---------------------------------------------------------------------
  // Carry-less multiplication: the reference for `multpoly`

  /** The product of the GF(2) polynomials a and b. */
  function Clmul(a: nat, b: nat): nat
    decreases b
  {
    if b == 0 then 0
    else Xor(if b % 2 == 1 then a else 0, 2 * Clmul(a, b / 2))
  }

  /** Which pairs (p, k - p) of coefficients contribute to x^k of a * b. */
  function Convolution(a: nat, b: nat, k: nat): nat -> bool
  {
    (p: nat) => p <= k && Bit(a, p) && Bit(b, k - p)
  }

  /** Coefficient k of a product is the parity of the pairs of set
      coefficients whose degrees add up to k. */
  lemma {:induction false} ClmulBit(a: nat, b: nat, k: nat)
    ensures Bit(Clmul(a, b), k) == ParityOf(Convolution(a, b, k), k + 1)
    decreases b
  {
    var t := Convolution(a, b, k);
    if b == 0 {
      BitZero(k);
      forall p: nat | p < k + 1
        ensures !t(p)
      {
        BitZero(k - p);
      }
      ParityTail(t, 0, k + 1);
    } else {
      var c := if b % 2 == 1 then a else 0;
      var y := Clmul(a, b / 2);
      BitXor(c, 2 * y, k);
      BitDouble(y, 0, k);
      BitZero(k);
      assert t(k) == Bit(c, k);
      if k > 0 {
        ClmulBit(a, b / 2, k - 1);
        var u := Convolution(a, b / 2, k - 1);
        forall p: nat | p < k
          ensures t(p) == u(p)
        {
          assert Bit(b, k - p) == Bit(b / 2, k - 1 - p);
        }
        ParityExt(t, u, k);
      }
    }
  }

  lemma ClmulComm(a: nat, b: nat)
    ensures Clmul(a, b) == Clmul(b, a)
  {
    forall k: nat
      ensures Bit(Clmul(a, b), k) == Bit(Clmul(b, a), k)
    {
      ClmulBit(a, b, k);
      ClmulBit(b, a, k);
      var f := Convolution(b, a, k);
      ParityReverse(f, k + 1);
      ParityExt(Reversed(f, k + 1), Convolution(a, b, k), k + 1);
    }
    BitsEqual(Clmul(a, b), Clmul(b, a));
  }

  lemma ClmulIdentities(a: nat)
    ensures Clmul(a, 1) == a && Clmul(1, a) == a
    ensures Clmul(a, 0) == 0 && Clmul(0, a) == 0
  {
    XorZero(a);
    ClmulComm(a, 1);
    ClmulComm(a, 0);
  }

  /** The product of polynomials of degrees below n and m has degree below n + m - 1. */
  lemma ClmulBound(a: nat, b: nat, n: nat, m: nat)
    requires 1 <= n && 1 <= m && a < Pow2(n) && b < Pow2(m)
    ensures Clmul(a, b) < Pow2(n + m - 1)
  {
    forall k: nat | n + m - 1 <= k
      ensures !Bit(Clmul(a, b), k)
    {
      ClmulBit(a, b, k);
      var t := Convolution(a, b, k);
      forall p: nat | p < k + 1
        ensures !t(p)
      {
        if p < n {
          BitsAbove(b, m, k - p);
        } else {
          BitsAbove(a, n, p);
        }
      }
      ParityTail(t, 0, k + 1);
    }
    BoundFromBits(Clmul(a, b), n + m - 1);
  }

  lemma ClmulLinearBit(r: nat, q1: nat, q2: nat, k: nat)
    ensures Bit(Clmul(r, Xor(q1, q2)), k) == (Bit(Clmul(r, q1), k) != Bit(Clmul(r, q2), k))
  {
    ClmulBit(r, Xor(q1, q2), k);
    ClmulBit(r, q1, k);
    ClmulBit(r, q2, k);
    var f := Convolution(r, q1, k);
    var g := Convolution(r, q2, k);
    var h := Convolution(r, Xor(q1, q2), k);
    var fg := (i: nat) => f(i) != g(i);
    ParityXor(f, g, k + 1);
    forall p: nat | p < k + 1
      ensures h(p) == fg(p)
    {
      BitXor(q1, q2, k - p);
    }
    ParityExt(h, fg, k + 1);
  }

  /** Multiplication distributes over addition (exclusive or) of polynomials. */
  lemma ClmulLinear(r: nat, q1: nat, q2: nat)
    ensures Clmul(r, Xor(q1, q2)) == Xor(Clmul(r, q1), Clmul(r, q2))
  {
    forall k: nat
      ensures Bit(Clmul(r, Xor(q1, q2)), k) == Bit(Xor(Clmul(r, q1), Clmul(r, q2)), k)
    {
      ClmulLinearBit(r, q1, q2, k);
      BitXor(Clmul(r, q1), Clmul(r, q2), k);
    }
    BitsEqual(Clmul(r, Xor(q1, q2)), Xor(Clmul(r, q1), Clmul(r, q2)));
  }

  /** Multiplying by x^s is a shift by s places. */
  lemma {:induction false} ClmulPow2(r: nat, s: nat)
    ensures Clmul(r, Pow2(s)) == r * Pow2(s)
  {
    if s == 0 {
      XorZero(r);
    } else {
      var h := Pow2(s - 1);
      ClmulPow2(r, s - 1);
      assert Pow2(s) == 2 * h && Pow2(s) / 2 == h && Pow2(s) % 2 == 0;
      assert Clmul(r, Pow2(s)) == Xor(0, 2 * Clmul(r, h));
      XorComm(0, 2 * Clmul(r, h));
      XorZero(2 * Clmul(r, h));
      ScaleTwice(r, h, Pow2(s));
    }
  }

  lemma ScaleTwice(r: nat, h: nat, p: nat)
    requires p == 2 * h
    ensures r * p == 2 * (r * h)
  {
  }

  lemma ClmulDouble(a: nat, y: nat)
    ensures Clmul(a, 2 * y) == 2 * Clmul(a, y)
  {
    if y > 0 {
      assert (2 * y) / 2 == y && (2 * y) % 2 == 0;
      XorComm(0, 2 * Clmul(a, y));
      XorZero(2 * Clmul(a, y));
    }
  }

  lemma {:induction false} ClmulAssoc(a: nat, b: nat, c: nat)
    ensures Clmul(Clmul(a, b), c) == Clmul(a, Clmul(b, c))
    decreases c
  {
    if c > 0 {
      var x := Clmul(a, b);
      var low := if c % 2 == 1 then b else 0;
      var y := Clmul(b, c / 2);
      ClmulAssoc(a, b, c / 2);
      ClmulLinear(a, low, 2 * y);
      ClmulDouble(a, y);
      ClmulIdentities(a);
    }
  }

  /** Multiplication distributes over exclusive or on the left as well. */
  lemma ClmulLinearLeft(q1: nat, q2: nat, r: nat)
    ensures Clmul(Xor(q1, q2), r) == Xor(Clmul(q1, r), Clmul(q2, r))
  {
    ClmulComm(Xor(q1, q2), r);
    ClmulLinear(r, q1, q2);
    ClmulComm(q1, r);
    ClmulComm(q2, r);
  }

  // ---------------------------------------------------------------------
  // multpoly: 64 coefficient products folded with exclusive or

  /** The product of coefficient p of a with coefficient q of b, as a monomial. */
  function Monomial(a: nat, b: nat, p: nat, q: nat): nat
  {
    if Bit(a, p) && Bit(b, q) then Pow2(p + q) else 0
  }

  /** The exclusive or of all elements of s. */
  function XorAll(s: seq<nat>): nat
  {
    if |s| == 0 then 0 else Xor(XorAll(s[..|s| - 1]), s[|s| - 1])
  }

  lemma {:induction false} BitXorAll(s: seq<nat>, k: nat)
    ensures Bit(XorAll(s), k) == ParityOf((t: nat) => t < |s| && Bit(s[t], k), |s|)
  {
    if |s| == 0 {
      BitZero(k);
    } else {
      var s' := s[..|s| - 1];
      BitXor(XorAll(s'), s[|s| - 1], k);
      BitXorAll(s', k);
      ParityExt((t: nat) => t < |s| && Bit(s[t], k), (t: nat) => t < |s'| && Bit(s'[t], k), |s'|);
    }
  }

  /** The 64 products laid out the way `multpoly` stores them: entry 8 * i + j
      multiplies coefficient 7 - i of a with coefficient 7 - j of b. */
  predicate MonomialTable(a: nat, b: nat, s: seq<nat>)
  {
    |s| == 64 && forall t :: 0 <= t < 64 ==> s[t] == Monomial(a, b, 7 - t / 8, 7 - t % 8)
  }

  /** The part of coefficient k that row i of the table contributes. */
  lemma MonomialRow(a: nat, b: nat, k: nat, i: nat, row: nat -> bool)
    requires i < 8
    requires forall j: nat :: j < 8 ==> row(j) == (Bit(a, 7 - i) && Bit(b, 7 - j) && 7 - i + (7 - j) == k)
    ensures ParityOf(row, 8) == (7 - i <= k && k - (7 - i) < 8 && Bit(a, 7 - i) && Bit(b, k - (7 - i)))
  {
    if 7 - i <= k && k - (7 - i) < 8 {
      ParitySingle(row, 8, 7 - (k - (7 - i)));
    } else {
      ParitySingle(row, 8, 8);
    }
  }

  /** The pairs of coefficients of two bytes that contribute to x^k. */
  function ByteConvolution(a: nat, b: nat, k: nat): nat -> bool
  {
    (p: nat) => p <= k && k - p < 8 && Bit(a, p) && Bit(b, k - p)
  }

  /** Which entries of the table contribute to x^k. */
  function TableTerms(a: nat, b: nat, k: nat): nat -> bool
  {
    (t: nat) => t < 64 && Bit(a, 7 - t / 8) && Bit(b, 7 - t % 8) && 7 - t / 8 + (7 - t % 8) == k
  }

  lemma MonomialsTerms(a: nat, b: nat, s: seq<nat>, k: nat)
    requires MonomialTable(a, b, s)
    ensures Bit(XorAll(s), k) == ParityOf(TableTerms(a, b, k), 64)
  {
    BitXorAll(s, k);
    var f := (t: nat) => t < |s| && Bit(s[t], k);
    var g := TableTerms(a, b, k);
    forall t: nat | t < 64
      ensures f(t) == g(t)
    {
      MonomialBit(a, b, 7 - t / 8, 7 - t % 8, k);
    }
    ParityExt(f, g, 64);
  }

  lemma MonomialBit(a: nat, b: nat, p: nat, q: nat, k: nat)
    ensures Bit(Monomial(a, b, p, q), k) == (Bit(a, p) && Bit(b, q) && p + q == k)
  {
    BitPow2(p + q, k);
    BitZero(k);
  }

  lemma DivMod8(i: nat, j: nat)
    requires j < 8
    ensures (8 * i + j) / 8 == i && (8 * i + j) % 8 == j
  {
  }

  /** Row i of the table holds at most one contribution to x^k. */
  lemma TableRow(a: nat, b: nat, k: nat, i: nat)
    requires i < 8
    ensures ParityOf(Shift(TableTerms(a, b, k), 8 * i), 8) == ByteConvolution(a, b, k)(7 - i)
  {
    var row := Shift(TableTerms(a, b, k), 8 * i);
    forall j: nat | j < 8
      ensures row(j) == (Bit(a, 7 - i) && Bit(b, 7 - j) && 7 - i + (7 - j) == k)
    {
      TableEntry(a, b, k, i, j);
      assert row(j) == TableTerms(a, b, k)(8 * i + j);
    }
    MonomialRow(a, b, k, i, row);
  }

  lemma TableEntry(a: nat, b: nat, k: nat, i: nat, j: nat)
    requires i < 8 && j < 8
    ensures TableTerms(a, b, k)(8 * i + j) == (Bit(a, 7 - i) && Bit(b, 7 - j) && 7 - i + (7 - j) == k)
  {
    DivMod8(i, j);
  }

  /** Coefficient k of the fold of the table, row by row. */
  lemma MonomialsRows(a: nat, b: nat, k: nat)
    ensures ParityOf(TableTerms(a, b, k), 64) == ParityOf(ByteConvolution(a, b, k), 8)
  {
    var g := TableTerms(a, b, k);
    var h := ByteConvolution(a, b, k);
    ParityRows(g, 8);
    RowsReversed(a, b, k);
    ParityReverse(h, 8);
  }

  /** Row i of the table folds to coefficient 7 - i of the byte convolution,
      so the rows are the convolution read backwards. */
  lemma RowsReversed(a: nat, b: nat, k: nat)
    ensures ParityOf(RowParities(TableTerms(a, b, k)), 8)
            == ParityOf(Reversed(ByteConvolution(a, b, k), 8), 8)
  {
    var rows := RowParities(TableTerms(a, b, k));
    var reversed := Reversed(ByteConvolution(a, b, k), 8);
    forall i: nat | i < 8
      ensures rows(i) == reversed(i)
    {
      RowFold(a, b, k, i);
    }
    ParityExt(rows, reversed, 8);
  }

  lemma RowFold(a: nat, b: nat, k: nat, i: nat)
    requires i < 8
    ensures RowParities(TableTerms(a, b, k))(i) == ByteConvolution(a, b, k)(8 - 1 - i)
  {
    TableRow(a, b, k, i);
  }

  /** For bytes the pairs with k - p < 8 are all the pairs there are. */
  lemma ByteConvolutionBit(a: nat, b: nat, k: nat)
    requires a < 256 && b < 256
    ensures ParityOf(ByteConvolution(a, b, k), 8) == Bit(Clmul(a, b), k)
  {
    Pow2Seven();
    var h := ByteConvolution(a, b, k);
    ClmulBit(a, b, k);
    var c := Convolution(a, b, k);
    forall p: nat | p < k + 9
      ensures h(p) == c(p)
    {
      if p <= k && k - p >= 8 {
        BitsAbove(b, 8, k - p);
      }
    }
    forall p: nat | 8 <= p < k + 9
      ensures !h(p)
    {
      BitsAbove(a, 8, p);
    }
    ParityTail(h, 8, k + 9);
    ParityTail(c, k + 1, k + 9);
    ParityExt(h, c, k + 9);
  }

  /** Folding the 64 monomials with exclusive or gives the product. */
  lemma MonomialsFold(a: nat, b: nat, s: seq<nat>)
    requires a < 256 && b < 256 && MonomialTable(a, b, s)
    ensures XorAll(s) == Clmul(a, b)
  {
    forall k: nat
      ensures Bit(XorAll(s), k) == Bit(Clmul(a, b), k)
    {
      MonomialsTerms(a, b, s, k);
      MonomialsRows(a, b, k);
      ByteConvolutionBit(a, b, k);
    }
    BitsEqual(XorAll(s), Clmul(a, b));
  }

  /** One product of `multpoly`'s inner loop, after a has been rotated i + 1
      times and b j + 1 times, is entry 8 * i + j of the table. */
  lemma RotatedProduct(a: nat, b: nat, i: nat, j: nat)
    requires a < 256 && b < 256 && i < 8 && j < 8
    ensures (8 * i + j) / 8 == i && (8 * i + j) % 8 == j
    ensures (if RotlN(a, i + 1) % 2 == 1 then Pow2(7 - i) else 0)
          * (if RotlN(b, j + 1) % 2 == 1 then Pow2(7 - j) else 0)
         == Monomial(a, b, 7 - i, 7 - j)
  {
    DivMod8(i, j);
    RotlNLowBit(a, i + 1);
    RotlNLowBit(b, j + 1);
    var x := if RotlN(a, i + 1) % 2 == 1 then Pow2(7 - i) else 0;
    var y := if RotlN(b, j + 1) % 2 == 1 then Pow2(7 - j) else 0;
    if Bit(a, 7 - i) && Bit(b, 7 - j) {
      Pow2Add(7 - i, 7 - j);
    } else {
      MulZero(x, y);
    }
  }

  lemma MulZero(x: nat, y: nat)
    requires x == 0 || y == 0
    ensures x * y == 0
  {
  }

  /** The final loop of `multpoly`. */
  method XorFold(s: seq<nat>) returns (result: nat)
    ensures result == XorAll(s)
  {
    result := 0;
    for t := 0 to |s|
      invariant result == XorAll(s[..t])
    {
      assert s[..t + 1][..t] == s[..t];
      result := Xor(result, s[t]);
    }
    assert s[..|s|] == s;
  }

  /** The source's `multpoly`: the carry-less product of two bytes. */
  method MultPoly(a: nat, b: nat) returns (result: nat)
    requires a < 256 && b < 256
    ensures result == Clmul(a, b)
    ensures result < 0x8000
  {
    var x, y := a, b;
    var gf2s: seq<nat> := [];
    for i := 0 to 8
      invariant x == RotlN(a, i) && y == b
      invariant |gf2s| == 8 * i
      invariant forall t :: 0 <= t < |gf2s| ==> gf2s[t] == Monomial(a, b, 7 - t / 8, 7 - t % 8)
    {
      x := Rotl8(x);
      for j := 0 to 8
        invariant x == RotlN(a, i + 1) && y == RotlN(b, j)
        invariant |gf2s| == 8 * i + j
        invariant forall t :: 0 <= t < |gf2s| ==> gf2s[t] == Monomial(a, b, 7 - t / 8, 7 - t % 8)
      {
        y := Rotl8(y);
        RotatedProduct(a, b, i, j);
        gf2s := gf2s + [(if x % 2 == 1 then Pow2(7 - i) else 0) * (if y % 2 == 1 then Pow2(7 - j) else 0)];
      }
      RotlEight(b);
    }
    result := XorFold(gf2s);
    MonomialsFold(a, b, gf2s);
    ProductBound(a, b);
  }

  lemma ProductBound(a: nat, b: nat)
    requires a < 256 && b < 256
    ensures Clmul(a, b) < 0x8000
  {
    Pow2Seven();
    ClmulBound(a, b, 8, 8);
    Pow2Add(8, 7);
  }

  // ---------------------------------------------------------------------
  // modpoly: reduction modulo a degree-8 polynomial

  /** The first loop of `modpoly`: the divisor and its leading-term marker i are
      doubled until the marker is at least the dividend. Returns the pair
      (divisor, marker). */
  function AlignDivisor(poly: nat, irr: nat, i: nat): (res: (nat, nat))
    requires IsPow2(i) && i <= irr < 2 * i
    ensures IsPow2(res.1) && res.1 <= res.0 < 2 * res.1
    ensures poly <= res.1 && i <= res.1
    ensures res.1 == i || res.1 < 2 * poly
    decreases if i < poly then poly - i else 0
  {
    if i < poly then AlignDivisor(poly, 2 * irr, 2 * i) else (irr, i)
  }

  /** The second loop of `modpoly`: while the remainder has degree 8 or more,
      cancel its leading term whenever it lines up with the divisor, then shift
      the divisor down one place. */
  function Divide(poly: nat, irr: nat, i: nat): (rem: nat)
    requires poly < 256 || (IsPow2(i) && i <= irr < 2 * i && poly < 2 * i)
    ensures rem < 256
    decreases i
  {
    if poly < 256 then poly
    else
      DivideStep(poly, irr, i);
      Divide(Cancel(poly, irr, i), irr / 2, i / 2)
  }

  /** The body of the division loop: cancel the leading term of poly when
      the divisor's leading term, marked by i, lines up with it. */
  function Cancel(poly: nat, irr: nat, i: nat): nat
  {
    if i <= poly < 2 * i then Xor(poly, irr) else poly
  }

  /** With the divisor lined up under the marker i, a step leaves poly below
      i when its leading term is i, and leaves it alone otherwise. */
  lemma CancelDrop(poly: nat, irr: nat, i: nat)
    requires IsPow2(i) && i <= irr < 2 * i
    ensures i <= poly < 2 * i ==> Cancel(poly, irr, i) < i
    ensures !(i <= poly < 2 * i) ==> Cancel(poly, irr, i) == poly
  {
    if i <= poly < 2 * i {
      XorSameTop(poly, irr, i);
    }
  }

  /** One step of the division keeps the remainder below the shifted marker. */
  lemma DivideStep(poly: nat, irr: nat, i: nat)
    requires IsPow2(i) && i <= irr < 2 * i && 256 <= poly < 2 * i
    ensures i >= 512 ==> IsPow2(i / 2) && i / 2 <= irr / 2 < i
    ensures Cancel(poly, irr, i) < i
    ensures i == 256 ==> Cancel(poly, irr, i) < 256
  {
    CancelDrop(poly, irr, i);
    assert IsPow2(256) by {
      assert IsPow2(2) && IsPow2(4) && IsPow2(8) && IsPow2(16) && IsPow2(32) && IsPow2(64) && IsPow2(128);
    }
    if i < 256 {
      IsPow2Gap(i, 256);
    }
    if i > 256 {
      IsPow2Gap(256, i);
    }
  }

  /** The remainder `modpoly` computes before comparing it with 1. The bound
      on poly is a safe one: up to it the source's `int` shifts and `i*2` stay
      within 32 bits (see ReduceFitsInt). The source first overflows at a
      dividend of 2^30, in `i*2`. */
  function Reduce(poly: nat, irrpoly: nat): (rem: nat)
    requires 0x100 <= irrpoly < 0x200
    requires poly <= 0x2000_0000
    ensures rem < 256
  {
    Pow2Seven();
    Pow2IsPow2(8);
    var aligned := AlignDivisor(poly, irrpoly, 256);
    Divide(poly, aligned.0, aligned.1)
  }

  /** The source's `modpoly`: whether poly is congruent to 1 modulo irrpoly. */
  predicate ModPoly(poly: nat, irrpoly: nat): (b: bool)
    requires 0x100 <= irrpoly < 0x200
    requires poly <= 0x2000_0000
    ensures poly < 256 ==> (b <==> poly == 1)
  {
    Reduce(poly, irrpoly) == 1
  }

  /** A polynomial of degree below 8 is its own remainder. */
  lemma ReduceSmall(poly: nat, irrpoly: nat)
    requires 0x100 <= irrpoly < 0x200 && poly < 256
    ensures Reduce(poly, irrpoly) == poly
    ensures ModPoly(poly, irrpoly) <==> poly == 1
  {
  }

  lemma MulTwice(x: nat, y: nat)
    ensures (2 * x) * y == x * (2 * y) == 2 * (x * y)
  {
  }

  /** The aligned divisor is the original shifted by some s places. */
  lemma {:induction false} AlignShift(poly: nat, irr: nat, i: nat) returns (s: nat)
    requires IsPow2(i) && i <= irr < 2 * i
    ensures AlignDivisor(poly, irr, i) == (irr * Pow2(s), i * Pow2(s))
    decreases if i < poly then poly - i else 0
  {
    if i < poly {
      var s' := AlignShift(poly, 2 * irr, 2 * i);
      s := s' + 1;
      assert Pow2(s) == 2 * Pow2(s');
      MulTwice(irr, Pow2(s'));
      MulTwice(i, Pow2(s'));
    } else {
      s := 0;
    }
  }

  lemma XorUndo(a: nat, b: nat)
    ensures Xor(Xor(a, b), b) == a
  {
    XorAssoc(a, b, b);
    XorSelf(b);
    XorZero(a);
  }

  lemma XorSwap(a: nat, b: nat, c: nat)
    ensures Xor(Xor(a, b), c) == Xor(Xor(a, c), b)
  {
    XorAssoc(a, b, c);
    XorComm(b, c);
    XorAssoc(a, c, b);
  }

  /** Shifting r * x^s down one place gives r * x^(s-1). */
  lemma ClmulHalf(r: nat, s: nat)
    requires s > 0
    ensures Clmul(r, Pow2(s)) == 2 * Clmul(r, Pow2(s - 1))
  {
    assert Pow2(s) / 2 == Pow2(s - 1);
    XorZero(2 * Clmul(r, Pow2(s - 1)));
  }

  /** The last division step, where the divisor is r itself. */
  lemma LastStep(poly: nat, r: nat)
    requires 256 <= poly < 512 && 256 <= r < 512
    ensures Divide(poly, r, 256) == Xor(poly, r)
    ensures Xor(poly, Divide(poly, r, 256)) == Clmul(r, 1)
  {
    Pow2Seven();
    Pow2IsPow2(8);
    DivideStep(poly, r, 256);
    assert Divide(poly, r, 256) == Divide(Xor(poly, r), r / 2, 128);
    XorComm(poly, r);
    XorComm(poly, Xor(poly, r));
    XorUndo(r, poly);
    ClmulIdentities(r);
  }

  /** Cancelling a leading term with irr = r * m adds m to the quotient. */
  lemma CancelStep(poly: nat, irr: nat, rem: nat, r: nat, q: nat, m: nat) returns (q': nat)
    requires irr == Clmul(r, m) && Xor(Xor(poly, irr), rem) == Clmul(r, q)
    ensures Xor(poly, rem) == Clmul(r, q') && q' == Xor(q, m)
  {
    XorUndo(poly, irr);
    XorSwap(Xor(poly, irr), irr, rem);
    ClmulLinear(r, q, m);
    q' := Xor(q, m);
  }

  /** Every step of the division adds a multiple of r to the remainder; q is
      the quotient collected on the way. */
  lemma {:induction false} DivideCongruent(poly: nat, irr: nat, i: nat, r: nat, s: nat) returns (q: nat)
    requires poly < 256 || (IsPow2(i) && i <= irr < 2 * i && poly < 2 * i)
    requires 256 <= poly ==> irr == Clmul(r, Pow2(s)) && i == 256 * Pow2(s)
    ensures Xor(poly, Divide(poly, irr, i)) == Clmul(r, q)
    decreases i
  {
    if poly < 256 {
      XorSelf(poly);
      ClmulIdentities(r);
      q := 0;
    } else if s == 0 {
      ClmulIdentities(r);
      LastStep(poly, r);
      q := 1;
    } else {
      DivideStep(poly, irr, i);
      var p := Cancel(poly, irr, i);
      var rem := Divide(poly, irr, i);
      assert rem == Divide(p, irr / 2, i / 2);
      HalveDivisor(irr, i, r, s);
      var q' := DivideCongruent(p, irr / 2, i / 2, r, s - 1);
      q := CancelCongruent(poly, irr, i, rem, r, q', Pow2(s));
    }
  }

  /** Halving the aligned divisor aligns r one degree lower. */
  lemma HalveDivisor(irr: nat, i: nat, r: nat, s: nat)
    requires s > 0 && irr == Clmul(r, Pow2(s)) && i == 256 * Pow2(s)
    ensures irr / 2 == Clmul(r, Pow2(s - 1)) && i / 2 == 256 * Pow2(s - 1)
  {
    ClmulHalf(r, s);
  }

  /** One step of the division keeps poly's distance to the remainder a
      multiple of r, whether or not the step cancels a term. */
  lemma CancelCongruent(poly: nat, irr: nat, i: nat, rem: nat, r: nat, q: nat, m: nat) returns (q': nat)
    requires irr == Clmul(r, m) && Xor(Cancel(poly, irr, i), rem) == Clmul(r, q)
    ensures Xor(poly, rem) == Clmul(r, q')
  {
    if i <= poly < 2 * i {
      q' := CancelStep(poly, irr, rem, r, q, m);
    } else {
      q' := q;
    }
  }

  /** `modpoly` computes a remainder: poly and the result differ by a multiple
      of the modulus. */
  lemma ReduceCongruent(poly: nat, r: nat)
    requires 0x100 <= r < 0x200 && poly <= 0x2000_0000
    ensures exists q: nat :: Xor(poly, Reduce(poly, r)) == Clmul(r, q)
  {
    Pow2Seven();
    Pow2IsPow2(8);
    var s := AlignShift(poly, r, 256);
    var aligned := AlignDivisor(poly, r, 256);
    ClmulPow2(r, s);
    var q := DivideCongruent(poly, aligned.0, aligned.1, r, s);
  }

  /** The leading coefficient of a non-zero polynomial. */
  lemma {:induction false} TopBit(q: nat) returns (d: nat)
    requires q > 0
    ensures Bit(q, d) && q < Pow2(d + 1)
  {
    if q == 1 {
      d := 0;
    } else {
      var d' := TopBit(q / 2);
      d := d' + 1;
    }
  }

  /** A non-zero multiple of a polynomial of degree 8 has degree 8 or more. */
  lemma SmallMultiple(r: nat, q: nat)
    requires 256 <= r < 512 && Clmul(r, q) < 256
    ensures q == 0
  {
    if q > 0 {
      var k := LeadingBit(r, q);
      ByteHighBits(Clmul(r, q), k);
    }
  }

  lemma ByteHighBits(x: nat, k: nat)
    requires x < 256 && 8 <= k
    ensures !Bit(x, k)
  {
    Pow2Seven();
    BitsAbove(x, 8, k);
  }

  /** The product of r (degree 8) and a non-zero q (degree d) has degree
      8 + d. */
  lemma LeadingBit(r: nat, q: nat) returns (k: nat)
    requires 256 <= r < 512 && q > 0
    ensures 8 <= k && Bit(Clmul(r, q), k)
  {
    var d := TopBit(q);
    k := 8 + d;
    ClmulBit(r, q, k);
    DegreeEight(r);
    LeadingTerm(r, q, d, k);
    ParitySingle(Convolution(r, q, k), k + 1, 8);
  }

  lemma DegreeEight(r: nat)
    requires 256 <= r < 512
    ensures Bit(r, 8) && r < Pow2(9)
  {
    Pow2Seven();
    ByteSplit(r - 256, 8);
    BitAddTop(r - 256, 8, true, 8);
  }

  /** In the product of r (degree 8) and q (degree d), coefficient 8 + d has
      the single term r_8 * q_d. */
  lemma LeadingTerm(r: nat, q: nat, d: nat, k: nat)
    requires r < Pow2(9) && q < Pow2(d + 1) && k == 8 + d
    ensures forall p: nat :: p < k + 1 && p != 8 ==> !Convolution(r, q, k)(p)
  {
    forall p: nat | p < k + 1 && p != 8
      ensures !Convolution(r, q, k)(p)
    {
      if p > 8 {
        Pow2Monotone(9, p);
        BitsAbove(r, 9, p);
      } else {
        Pow2Monotone(d + 1, k - p);
        BitsAbove(q, d + 1, k - p);
      }
    }
  }

  lemma XorEqZero(a: nat, b: nat)
    requires Xor(a, b) == 0
    ensures a == b
  {
    XorUndo(a, b);
    XorZero(b);
    XorComm(0, b);
  }

  /** `modpoly` is the test "poly is congruent to 1 modulo irrpoly" of the
      polynomial ring GF(2)[x], both ways round. */
  lemma ModPolyMeaning(poly: nat, r: nat)
    requires 0x100 <= r < 0x200 && poly <= 0x2000_0000
    ensures ModPoly(poly, r) <==> exists q: nat :: Xor(poly, 1) == Clmul(r, q)
  {
    ReduceCongruent(poly, r);
    var rem := Reduce(poly, r);
    var q': nat :| Xor(poly, rem) == Clmul(r, q');
    if q: nat :| Xor(poly, 1) == Clmul(r, q) {
      ClmulLinear(r, q, q');
      XorCancel(poly, 1, rem);
      Pow2Seven();
      XorBound(1, rem, 8);
      SmallMultiple(r, Xor(q, q'));
      ClmulIdentities(r);
      XorEqZero(1, rem);
    }
  }

  /** (p ^ a) ^ (p ^ b) == a ^ b */
  lemma XorCancel(p: nat, a: nat, b: nat)
    ensures Xor(Xor(p, a), Xor(p, b)) == Xor(a, b)
  {
    XorAssoc(Xor(p, a), p, b);
    XorSwap(p, a, p);
    XorSelf(p);
    XorComm(0, a);
    XorZero(a);
  }

  /** With the dividend bounded as Reduce requires, the marker never exceeds
      2^29 and the shifted divisor stays below 2^30, so neither `irrpoly << 1`,
      `i << 1` nor `i*2` leaves the range of a 32-bit `int`. */
  lemma ReduceFitsInt(poly: nat, r: nat)
    requires 0x100 <= r < 0x200 && poly <= 0x2000_0000
    ensures AlignDivisor(poly, r, 256).1 <= 0x2000_0000
    ensures AlignDivisor(poly, r, 256).0 < 0x4000_0000
  {
    Pow2Seven();
    Pow2IsPow2(8);
    var aligned := AlignDivisor(poly, r, 256);
    var i := aligned.1;
    Pow2Add(8, 8);
    Pow2Add(16, 8);
    Pow2Add(24, 5);
    assert Pow2(5) == 32;
    assert Pow2(29) == 0x2000_0000;
    Pow2IsPow2(29);
    if 0x2000_0000 < i {
      IsPow2Gap(0x2000_0000, i);
    }
  }

  // ---------------------------------------------------------------------
  // odd: parity of the low byte

  lemma OddZero()
    ensures !Odd(0)
  {
    assert OnesCount(0, 8) == 0;
  }

  /** Parity is additive: the parity of x ^ y is the exclusive or of the parities. */
  lemma OddXor(x: nat, y: nat)
    ensures Odd(Xor(x, y)) == (Odd(x) != Odd(y))
  {
    OnesCountXor(x, y, 8);
    ParitySum(OnesCount(x, 8), OnesCount(y, 8));
  }

  /** `odd` agrees with the parity of the eight low bits taken one at a time. */
  lemma OddBits(x: nat)
    ensures Odd(x) == ParityOf((k: nat) => Bit(x, k), 8)
  {
    OnesCountBits(x, 8);
  }

  // ---------------------------------------------------------------------
  // afftrans: the affine transformation of the AES S-box

  /** The additive constant of the transformation. */
  const AffineConstant: nat := 0x63

  /** Row j of the 8x8 bit matrix, least significant bit for column 0: the
      first row 0xF1 rotated left j times, which is what `afftrans` keeps in
      its variable `aff`. */
  function AffineRow(j: nat): nat
  {
    RotlN(0xF1, j)
  }

  /** Bit j of the matrix product: the parity of row j masked with x. */
  function AffineParities(x: nat): nat -> bool
  {
    (j: nat) => Odd(And(AffineRow(j), x))
  }

  /** The affine transformation of one byte: the matrix product plus 0x63. */
  function Affine(x: nat): nat
  {
    Xor(MatrixProduct(x), AffineConstant)
  }

  /** The linear part of the transformation: the matrix times x. */
  function MatrixProduct(x: nat): nat
  {
    FromBits(AffineParities(x), 8)
  }

  /** The rows are the circulant matrix drawn in the comment of AESsbox.c. */
  lemma AffineMatrix()
    ensures AffineRow(0) == 0xF1 && AffineRow(1) == 0xE3 && AffineRow(2) == 0xC7 && AffineRow(3) == 0x8F
    ensures AffineRow(4) == 0x1F && AffineRow(5) == 0x3E && AffineRow(6) == 0x7C && AffineRow(7) == 0xF8
    ensures AffineRow(8) == 0xF1
  {
    assert RotlN(0xF1, 1) == 0xE3;
    assert RotlN(0xF1, 2) == 0xC7;
    assert RotlN(0xF1, 3) == 0x8F;
    assert RotlN(0xF1, 4) == 0x1F;
    assert RotlN(0xF1, 5) == 0x3E;
    assert RotlN(0xF1, 6) == 0x7C;
    assert RotlN(0xF1, 7) == 0xF8;
  }

  /** Bit j of the result is the parity of row j with x, flipped where the
      constant has a one. */
  lemma AffineBit(x: nat, j: nat)
    ensures Bit(Affine(x), j) == ((j < 8 && Odd(And(AffineRow(j), x))) != Bit(AffineConstant, j))
  {
    BitXor(FromBits(AffineParities(x), 8), AffineConstant, j);
    BitFromBits(AffineParities(x), 8, j);
  }

  lemma AffineByte(x: nat)
    ensures Affine(x) < 256
  {
    Pow2Seven();
    XorBound(FromBits(AffineParities(x), 8), AffineConstant, 8);
  }

  /** The map is affine: the linear part distributes over exclusive or. */
  lemma AffineLinear(x: nat, y: nat)
    ensures Affine(Xor(x, y)) == Xor(Xor(Affine(x), Affine(y)), AffineConstant)
  {
    forall j: nat
      ensures Bit(Affine(Xor(x, y)), j) == Bit(Xor(Xor(Affine(x), Affine(y)), AffineConstant), j)
    {
      AffineBit(Xor(x, y), j);
      AffineBit(x, j);
      AffineBit(y, j);
      AndXor(AffineRow(j), x, y);
      OddXor(And(AffineRow(j), x), And(AffineRow(j), y));
      BitXor(Xor(Affine(x), Affine(y)), AffineConstant, j);
      BitXor(Affine(x), Affine(y), j);
    }
    BitsEqual(Affine(Xor(x, y)), Xor(Xor(Affine(x), Affine(y)), AffineConstant));
  }

  lemma AffineZero()
    ensures Affine(0) == 0x63
  {
    OddZero();
    var f := AffineParities(0);
    forall j: nat
      ensures !f(j)
    {
      AndComm(AffineRow(j), 0);
      AndZero(AffineRow(j));
    }
    assert FromBits(f, 8) == 0;
    XorComm(0, AffineConstant);
    XorZero(AffineConstant);
  }

  lemma AffineParityOne(j: nat)
    requires j < 8
    ensures AffineParities(1)(j) == (j < 5)
  {
    AffineMatrix();
    AndOne(AffineRow(j));
    OddZero();
    assert OnesCount(1, 8) == 1;
    assert AffineRow(j) % 2 == if j < 5 then 1 else 0;
  }

  /** Eight bits of which exactly the five lowest are set. */
  lemma LowFive(f: nat -> bool)
    requires forall j: nat :: j < 8 ==> f(j) == (j < 5)
    ensures FromBits(f, 8) == 0x1F
  {
    assert FromBits(f, 1) == 1;
    assert FromBits(f, 2) == 3;
    assert FromBits(f, 3) == 7;
    assert FromBits(f, 4) == 15;
    assert FromBits(f, 5) == 31;
    assert FromBits(f, 6) == 31;
    assert FromBits(f, 7) == 31;
  }

  /** The linear part maps the unit polynomial to 0x1F: the first five rows
      have their lowest bit set and the last three do not. */
  lemma MatrixOne()
    ensures MatrixProduct(1) == 0x1F
  {
    forall j: nat | j < 8
      ensures AffineParities(1)(j) == (j < 5)
    {
      AffineParityOne(j);
    }
    LowFive(AffineParities(1));
  }

  lemma XorOneF()
    ensures Xor(0x1F, AffineConstant) == 0x7C
  {
    assert Xor(0, 1) == 1;
    assert Xor(0, 3) == 3;
    assert Xor(1, 6) == 7;
    assert Xor(3, 12) == 15;
    assert Xor(7, 24) == 31;
    assert Xor(15, 49) == 62;
  }

  lemma AffineOne()
    ensures Affine(1) == 0x7C
  {
    MatrixOne();
    XorOneF();
  }

  lemma ScaleFacts(acc: nat, p: nat, q: nat)
    requires acc < q && q * p == 128
    ensures acc * p <= 127 && acc * (2 * p) == 2 * (acc * p) && (acc + q) * p == acc * p + 128
  {
    assert acc * p <= (q - 1) * p;
  }

  /** One column of `afftrans`'s inner loop. bprime holds the parities found
      so far, shifted up so that after eight steps parity j is bit j; it is
      incremented (as an unsigned char) when the next parity is one and then
      rotated right. */
  lemma AccumulateStep(f: nat -> bool, j: nat, bprime: nat)
    requires j < 8 && bprime == FromBits(f, j) * Pow2(8 - j)
    ensures f(j) ==> Rotr8((bprime + 1) % 256) == FromBits(f, j + 1) * Pow2(8 - (j + 1))
    ensures !f(j) ==> Rotr8(bprime) == FromBits(f, j + 1) * Pow2(8 - (j + 1))
  {
    var acc := FromBits(f, j);
    var p := Pow2(7 - j);
    var q := Pow2(j);
    Pow2Seven();
    Pow2Add(j, 7 - j);
    assert Pow2(8 - j) == 2 * p;
    RotrStep(acc, p, q, bprime, f(j));
    assert FromBits(f, j + 1) == acc + (if f(j) then q else 0);
  }

  /** The byte arithmetic of one column: incrementing and rotating right
      moves the accumulated parities down one place and adds the new one
      at the top. */
  lemma RotrStep(acc: nat, p: nat, q: nat, bprime: nat, c: bool)
    requires acc < q && q * p == 128 && bprime == acc * (2 * p)
    ensures Rotr8(if c then (bprime + 1) % 256 else bprime) == (acc + (if c then q else 0)) * p
  {
    ScaleFacts(acc, p, q);
    var low := acc * p;
    var b1 := if c then (bprime + 1) % 256 else bprime;
    assert b1 == 2 * low + (if c then 1 else 0);
    assert Rotr8(b1) == low + (if c then 128 else 0);
  }

  /** The inner loop of `afftrans` for one entry x. It starts from the matrix
      row `aff` left by the previous entry, which is the first row, and after
      eight rows hands the first row on to the next entry. */
  method AffineEntry(aff: nat, x: nat) returns (aff': nat, bprime: nat)
    requires aff == 0xF1
    ensures aff' == 0xF1
    ensures bprime == MatrixProduct(x)
  {
    aff' := aff;
    bprime := 0;
    var j := 0;
    while j < 8
      invariant 0 <= j <= 8
      invariant aff' == AffineRow(j)
      invariant bprime == FromBits(AffineParities(x), j) * Pow2(8 - j)
    {
      AccumulateStep(AffineParities(x), j, bprime);
      if Odd(And(aff', x)) {
        bprime := (bprime + 1) % 256;
      }
      bprime := Rotr8(bprime);
      aff' := Rotl8(aff');
      j := j + 1;
    }
    Unscaled(FromBits(AffineParities(x), j));
    AffineMatrix();
  }

  /** Once all eight columns are in, nothing is left shifted. */
  lemma Unscaled(a: nat)
    ensures a * Pow2(0) == a
  {
  }

  /** The source's `afftrans`: the affine transformation of every entry of the
      table of inverses. `aff` is carried from one entry to the next; every
      entry returns it to the first row. */
  method AffTrans(invs: seq<nat>) returns (sbox: seq<nat>)
    requires |invs| == 256
    ensures |sbox| == 256
    ensures forall i :: 0 <= i < 256 ==> sbox[i] == Affine(invs[i])
  {
    sbox := [];
    var aff: nat := 0xF1;
    var i := 0;
    while i < 256
      invariant 0 <= i <= 256
      invariant |sbox| == i
      invariant aff == 0xF1
      invariant forall t :: 0 <= t < i ==> sbox[t] == Affine(invs[t])
    {
      var bprime;
      aff, bprime := AffineEntry(aff, invs[i]);
      sbox := sbox + [Xor(bprime, AffineConstant)];
      i := i + 1;
    }
  }
}
