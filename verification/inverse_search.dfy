/**
  The brute-force search for multiplicative inverses in AESsbox.c, as run by
  `main` for one reduction polynomial and by `irrpolylist` for every odd
  candidate polynomial of degree 8.

  Row i of the search tries j = i, i+1, ..., 255 until i * j reduces to 1
  modulo the polynomial, skipping rows whose inverse was already found as the
  partner of an earlier row.
*/
module InverseSearch {
  import opened Bits
  import opened GaloisField

  /** A reduction polynomial of degree exactly 8, the only ones for which
      `modpoly` terminates. */
  predicate Degree8(r: nat)
  {
    0x100 <= r < 0x200
  }

  /** The test of the search, `modpoly(multpoly(x, y), irrpoly)`: y is an
      inverse of x modulo r. */
  predicate Inverse(r: nat, x: nat, y: nat)
    requires Degree8(r)
  {
    x < 256 && y < 256 && (ProductBound(x, y); ModPoly(Clmul(x, y), r))
  }

  /** x has an inverse among the bytes. */
  predicate Invertible(r: nat, x: nat)
    requires Degree8(r)
  {
    exists y :: 0 <= y < 256 && Inverse(r, x, y)
  }

  // ---------------------------------------------------------------------
  // The ring GF(2)[x] / (r)

  lemma InverseComm(r: nat, x: nat, y: nat)
    requires Degree8(r)
    ensures Inverse(r, x, y) == Inverse(r, y, x)
  {
    ClmulComm(x, y);
  }

  /** Zero has no inverse, and the only inverse of one is one. */
  lemma InverseZeroOne(r: nat, y: nat)
    requires Degree8(r)
    ensures !Inverse(r, 0, y)
    ensures Inverse(r, 1, y) <==> y == 1
  {
    ClmulIdentities(y);
    if y < 256 {
      ProductBound(0, y);
      ReduceSmall(0, r);
      ReduceSmall(y, r);
    }
  }

  /** If x * y is congruent to 1, multiplying by x * y changes w only by a
      multiple of r. */
  lemma TimesInverse(r: nat, x: nat, y: nat, w: nat) returns (m: nat)
    requires Degree8(r) && Inverse(r, x, y)
    ensures Clmul(Clmul(x, y), w) == Xor(w, Clmul(r, m))
  {
    var p := Clmul(x, y);
    ProductBound(x, y);
    ModPolyMeaning(p, r);
    var q: nat :| Xor(p, 1) == Clmul(r, q);
    XorUndo(p, 1);
    ClmulLinearLeft(Clmul(r, q), 1, w);
    ClmulAssoc(r, q, w);
    ClmulIdentities(w);
    XorComm(Clmul(r, Clmul(q, w)), w);
    m := Clmul(q, w);
  }

  /** Inverses modulo r are unique among the bytes. */
  lemma InverseUnique(r: nat, x: nat, y: nat, z: nat)
    requires Degree8(r) && Inverse(r, x, y) && Inverse(r, x, z)
    ensures y == z
  {
    var m1 := TimesInverse(r, x, y, z);
    var m2 := TimesInverse(r, x, z, y);
    // (x * y) * z == (x * z) * y
    ClmulAssoc(x, y, z);
    ClmulComm(y, z);
    ClmulAssoc(x, z, y);
    // so z + r * m1 == y + r * m2, and y + z is a multiple of r below 256
    XorCancelRight(z, Clmul(r, m1), y, Clmul(r, m2));
    ClmulLinear(r, m2, m1);
    Pow2Seven();
    XorBound(y, z, 8);
    SmallMultiple(r, Xor(m2, m1));
    ClmulIdentities(r);
    XorEqZero(y, z);
  }

  /** From z + a == y + b it follows that y + z == b + a. */
  lemma XorCancelRight(z: nat, a: nat, y: nat, b: nat)
    requires Xor(z, a) == Xor(y, b)
    ensures Xor(y, z) == Xor(b, a)
  {
    // y ^ z == y ^ ((z ^ a) ^ a) == (y ^ (y ^ b)) ^ a == b ^ a
    XorUndo(z, a);
    XorAssoc(y, Xor(z, a), a);
    XorAssoc(y, y, b);
    XorSelf(y);
    XorComm(0, b);
    XorZero(b);
  }

  // ---------------------------------------------------------------------
  // One row of the search

  /** The inner `while` of the search for row i: try j = i, i+1, ... until a
      product reduces to 1, marking both factors as found. A row already found
      as an earlier row's partner is not searched at all. Returns the flags
      and the final value of j (one past the partner on success). */
  method ScanRow(r: nat, i: nat, found: seq<bool>) returns (found': seq<bool>, j: nat)
    requires Degree8(r) && 2 <= i < 256 && |found| == 256
    ensures |found'| == 256 && i <= j <= 256
    ensures found[i] ==> found' == found && j == i
    ensures !found[i] && !found'[i] ==>
              found' == found && j == 256 && forall y :: i <= y < 256 ==> !Inverse(r, i, y)
    ensures !found[i] && found'[i] ==>
              i < j && Inverse(r, i, j - 1) && found' == found[i := true][j - 1 := true]
              && forall y :: i <= y < j - 1 ==> !Inverse(r, i, y)
  {
    found' := found;
    j := i;
    while !found'[i] && j < 256
      invariant i <= j <= 256 && |found'| == 256
      invariant found[i] ==> found' == found && j == i
      invariant !found'[i] ==> found' == found && forall y :: i <= y < j ==> !Inverse(r, i, y)
      invariant !found[i] && found'[i] ==>
                  i < j && Inverse(r, i, j - 1) && found' == found[i := true][j - 1 := true]
                  && forall y :: i <= y < j - 1 ==> !Inverse(r, i, y)
    {
      var product := MultPoly(i, j);
      if ModPoly(product, r) {
        found' := found'[i := true][j := true];
      }
      j := j + 1;
    }
  }

  // ---------------------------------------------------------------------
  // The state between rows

  /** Every found index is paired with a found inverse of at least 2. */
  predicate Paired(r: nat, found: seq<bool>, invs: seq<nat>)
    requires Degree8(r)
  {
    |found| == 256 && |invs| == 256 &&
    forall x :: 0 <= x < 256 && found[x] ==>
      2 <= x && 2 <= invs[x] < 256 && Inverse(r, x, invs[x]) && found[invs[x]]
  }

  /** Rows before i that found nothing hold 0 and have no inverse at all. */
  predicate Settled(r: nat, i: nat, found: seq<bool>, invs: seq<nat>)
    requires Degree8(r) && |found| == 256 && |invs| == 256 && i <= 256
  {
    forall x :: 2 <= x < i && !found[x] ==>
      invs[x] == 0 && forall y :: 0 <= y < 256 ==> !Inverse(r, x, y)
  }

  /** An index from i on that is not found has no inverse below i. */
  predicate Fresh(r: nat, i: nat, found: seq<bool>)
    requires Degree8(r) && |found| == 256
  {
    forall x, y :: i <= x < 256 && 0 <= y < i && !found[x] ==> !Inverse(r, x, y)
  }

  predicate SearchState(r: nat, i: nat, found: seq<bool>, invs: seq<nat>)
    requires Degree8(r)
  {
    2 <= i <= 256 && Paired(r, found, invs) && invs[0] == 0 && invs[1] == 1 &&
    Settled(r, i, found, invs) && Fresh(r, i, found)
  }

  /** The entries `main` writes after row i: both halves of a pair found in
      the row, or 0 when the row found nothing. */
  function RowWrites(i: nat, found: seq<bool>, found': seq<bool>, j: nat, invs: seq<nat>): (invs': seq<nat>)
    requires 2 <= i < 256 && i <= j <= 256 && |found| == 256 && |found'| == 256 && |invs| == 256
    ensures |invs'| == 256
    ensures !found[i] && found'[i] && i < j ==> invs'[i] == j - 1 && invs'[j - 1] == i
    ensures j == 256 && !found'[i] ==> invs'[i] == 0
    ensures forall x :: 0 <= x < 256 && x != i && x != j - 1 ==> invs'[x] == invs[x]
  {
    if !found[i] && found'[i] && i < j then invs[i := j - 1][j - 1 := i]
    else if j == 256 && !found'[i] then invs[i := 0]
    else invs
  }

  /** The search state is kept from one row to the next. */
  lemma RowStep(r: nat, i: nat, found: seq<bool>, invs: seq<nat>, found': seq<bool>, j: nat)
    requires Degree8(r) && i < 256 && SearchState(r, i, found, invs)
    requires |found'| == 256 && i <= j <= 256
    requires found[i] ==> found' == found && j == i
    requires !found[i] && !found'[i] ==>
               found' == found && j == 256 && forall y :: i <= y < 256 ==> !Inverse(r, i, y)
    requires !found[i] && found'[i] ==>
               i < j && Inverse(r, i, j - 1) && found' == found[i := true][j - 1 := true]
               && forall y :: i <= y < j - 1 ==> !Inverse(r, i, y)
    ensures SearchState(r, i + 1, found', RowWrites(i, found, found', j, invs))
    ensures forall x :: 0 <= x < 256 && found[x] ==> found'[x]
    ensures found'[i] || (j == 256 && !Invertible(r, i))
  {
    if found[i] {
      assert RowWrites(i, found, found', j, invs) == invs;
      RowAlreadyFound(r, i, found, invs);
    } else if found'[i] {
      assert RowWrites(i, found, found', j, invs) == invs[i := j - 1][j - 1 := i];
      RowHit(r, i, found, invs, j);
    } else {
      assert RowWrites(i, found, found', j, invs) == invs[i := 0];
      RowMiss(r, i, found, invs);
    }
  }

  lemma RowAlreadyFound(r: nat, i: nat, found: seq<bool>, invs: seq<nat>)
    requires Degree8(r) && i < 256 && SearchState(r, i, found, invs) && found[i]
    ensures SearchState(r, i + 1, found, invs)
  {
    SettledPastFound(r, i, found, invs);
    FreshPastFound(r, i, found, invs);
  }

  lemma SettledPastFound(r: nat, i: nat, found: seq<bool>, invs: seq<nat>)
    requires Degree8(r) && 2 <= i < 256 && |found| == 256 && |invs| == 256 && found[i]
    requires Settled(r, i, found, invs)
    ensures Settled(r, i + 1, found, invs)
  {
    forall x | 2 <= x < i + 1 && !found[x]
      ensures invs[x] == 0 && forall y :: 0 <= y < 256 ==> !Inverse(r, x, y)
    {
      assert x < i;
    }
  }

  /** No later unfound index is an inverse of a found row: the row's inverse
      is its recorded partner, which is found. */
  lemma FreshPastFound(r: nat, i: nat, found: seq<bool>, invs: seq<nat>)
    requires Degree8(r) && 2 <= i < 256 && Paired(r, found, invs) && found[i]
    requires Fresh(r, i, found)
    ensures Fresh(r, i + 1, found)
  {
    forall x, y | i + 1 <= x < 256 && 0 <= y < i + 1 && !found[x]
      ensures !Inverse(r, x, y)
    {
      if y == i && Inverse(r, x, y) {
        InverseComm(r, x, i);
        InverseUnique(r, i, x, invs[i]);
      }
    }
  }

  lemma RowMiss(r: nat, i: nat, found: seq<bool>, invs: seq<nat>)
    requires Degree8(r) && i < 256 && SearchState(r, i, found, invs) && !found[i]
    requires forall y :: i <= y < 256 ==> !Inverse(r, i, y)
    ensures SearchState(r, i + 1, found, invs[i := 0])
    ensures !Invertible(r, i)
  {
    var invs' := invs[i := 0];
    assert forall y :: 0 <= y < 256 ==> !Inverse(r, i, y);
    forall x, y | i + 1 <= x < 256 && 0 <= y < i + 1 && !found[x]
      ensures !Inverse(r, x, y)
    {
      if y == i {
        InverseComm(r, x, i);
      }
    }
  }

  lemma RowHit(r: nat, i: nat, found: seq<bool>, invs: seq<nat>, j: nat)
    requires Degree8(r) && i < j <= 256 && SearchState(r, i, found, invs) && !found[i]
    requires Inverse(r, i, j - 1)
    ensures SearchState(r, i + 1, found[i := true][j - 1 := true], invs[i := j - 1][j - 1 := i])
  {
    PartnerFresh(r, i, found, invs, j - 1);
    PairedAfterHit(r, i, found, invs, j - 1);
    SettledAfterHit(r, i, found, invs, j - 1);
    FreshAfterHit(r, i, found, j - 1);
  }

  lemma SettledAfterHit(r: nat, i: nat, found: seq<bool>, invs: seq<nat>, p: nat)
    requires Degree8(r) && 2 <= i <= p < 256 && |found| == 256 && |invs| == 256
    requires Settled(r, i, found, invs)
    ensures Settled(r, i + 1, found[i := true][p := true], invs[i := p][p := i])
  {
    var found' := found[i := true][p := true];
    var invs' := invs[i := p][p := i];
    forall x | 2 <= x < i + 1 && !found'[x]
      ensures invs'[x] == 0 && forall y :: 0 <= y < 256 ==> !Inverse(r, x, y)
    {
      assert x < i && !found[x] && invs'[x] == invs[x];
    }
  }

  /** The partner of a row that was not yet found was not found either: its
      inverse would be the row itself. */
  lemma PartnerFresh(r: nat, i: nat, found: seq<bool>, invs: seq<nat>, p: nat)
    requires Degree8(r) && 2 <= i <= p < 256 && Paired(r, found, invs) && !found[i]
    requires Inverse(r, i, p)
    ensures !found[p]
  {
    if found[p] {
      InverseComm(r, i, p);
      InverseUnique(r, p, invs[p], i);
    }
  }

  lemma PairedAfterHit(r: nat, i: nat, found: seq<bool>, invs: seq<nat>, p: nat)
    requires Degree8(r) && 2 <= i <= p < 256 && Paired(r, found, invs)
    requires Inverse(r, i, p) && !found[p]
    ensures Paired(r, found[i := true][p := true], invs[i := p][p := i])
  {
    var found' := found[i := true][p := true];
    var invs' := invs[i := p][p := i];
    InverseComm(r, i, p);
    forall x | 0 <= x < 256 && found'[x]
      ensures 2 <= x && 2 <= invs'[x] < 256 && Inverse(r, x, invs'[x]) && found'[invs'[x]]
    {
      if x != i && x != p {
        assert found[x] && invs'[x] == invs[x];
      }
    }
  }

  lemma FreshAfterHit(r: nat, i: nat, found: seq<bool>, p: nat)
    requires Degree8(r) && 2 <= i <= p < 256 && |found| == 256 && Fresh(r, i, found)
    requires Inverse(r, i, p)
    ensures Fresh(r, i + 1, found[i := true][p := true])
  {
    var found' := found[i := true][p := true];
    forall x, y | i + 1 <= x < 256 && 0 <= y < i + 1 && !found'[x]
      ensures !Inverse(r, x, y)
    {
      if y == i && Inverse(r, x, y) {
        InverseComm(r, x, i);
        InverseUnique(r, i, x, p);
      }
    }
  }

  /** Before row 2: nothing is found, and no byte has 0 or 1 as an inverse
      except 1 itself. */
  lemma SearchStart(r: nat)
    requires Degree8(r)
    ensures SearchState(r, 2, seq(256, _ => false), seq(256, x => if x == 1 then 1 else 0))
  {
    forall x, y | 2 <= x < 256 && 0 <= y < 2
      ensures !Inverse(r, x, y)
    {
      InverseComm(r, x, y);
      InverseZeroOne(r, x);
    }
  }

  // ---------------------------------------------------------------------
  // main: the table of inverses

  /** The search of `main` (AESsbox.c) for one polynomial of degree 8. The
      writes to `invs` that the source makes inside the row loop are made
      right after it; nothing reads `invs` in between. */
  method FindInverses(r: nat) returns (invs: seq<nat>, found: seq<bool>)
    requires Degree8(r)
    ensures |invs| == 256 && |found| == 256
    ensures invs[0] == 0 && invs[1] == 1
    ensures forall x :: 0 <= x < 256 ==> invs[x] < 256
    ensures forall x :: 0 <= x < 256 ==> (found[x] <==> 2 <= x && invs[x] != 0)
    ensures forall x :: 2 <= x < 256 ==> (found[x] <==> Invertible(r, x))
    ensures forall x, y :: 0 <= x < 256 && 0 <= y < 256 ==>
              (Inverse(r, x, y) <==> y == invs[x] && y != 0)
    ensures forall x :: 0 <= x < 256 && invs[x] != 0 ==> invs[invs[x]] == x
  {
    found := seq(256, _ => false);
    invs := seq(256, x => if x == 1 then 1 else 0);
    var i := 2;
    SearchStart(r);
    while i < 256
      invariant SearchState(r, i, found, invs)
    {
      var found', j := ScanRow(r, i, found);
      RowStep(r, i, found, invs, found', j);
      invs := RowWrites(i, found, found', j, invs);
      found := found';
      i := i + 1;
    }
    SearchDone(r, found, invs);
    TableInvolution(r, invs);
  }

  /** What the state says once every row has been searched. */
  lemma SearchDone(r: nat, found: seq<bool>, invs: seq<nat>)
    requires Degree8(r) && SearchState(r, 256, found, invs)
    ensures forall x :: 0 <= x < 256 ==> invs[x] < 256
    ensures forall x :: 0 <= x < 256 ==> (found[x] <==> 2 <= x && invs[x] != 0)
    ensures forall x :: 2 <= x < 256 ==> (found[x] <==> Invertible(r, x))
    ensures forall x, y :: 0 <= x < 256 && 0 <= y < 256 ==>
              (Inverse(r, x, y) <==> y == invs[x] && y != 0)
  {
    forall x, y | 0 <= x < 256 && 0 <= y < 256
      ensures Inverse(r, x, y) <==> y == invs[x] && y != 0
    {
      InverseZeroOne(r, y);
      if found[x] && Inverse(r, x, y) {
        InverseUnique(r, x, y, invs[x]);
      }
    }
  }

  /** Each pair is written both ways round, so the table is an involution on
      the bytes that have an inverse. */
  lemma TableInvolution(r: nat, invs: seq<nat>)
    requires Degree8(r) && |invs| == 256
    requires forall x :: 0 <= x < 256 ==> invs[x] < 256
    requires forall x, y :: 0 <= x < 256 && 0 <= y < 256 ==>
               (Inverse(r, x, y) <==> y == invs[x] && y != 0)
    ensures forall x :: 0 <= x < 256 && invs[x] != 0 ==> invs[invs[x]] == x
  {
    forall x | 0 <= x < 256 && invs[x] != 0
      ensures invs[invs[x]] == x
    {
      var y := invs[x];
      assert Inverse(r, x, y);
      InverseComm(r, x, y);
    }
  }

  /** `main` without the -i flag: the inverses pushed through the affine
      transformation. */
  method DeriveSBox(r: nat) returns (invs: seq<nat>, sbox: seq<nat>)
    requires Degree8(r)
    ensures |invs| == 256 && |sbox| == 256
    ensures forall x, y :: 0 <= x < 256 && 0 <= y < 256 ==>
              (Inverse(r, x, y) <==> y == invs[x] && y != 0)
    ensures forall x :: 0 <= x < 256 ==> sbox[x] == Affine(invs[x]) && sbox[x] < 256
    ensures sbox[0] == 0x63 && sbox[1] == 0x7C
  {
    var found;
    invs, found := FindInverses(r);
    sbox := AffTrans(invs);
    AffineZero();
    AffineOne();
    forall x | 0 <= x < 256
      ensures sbox[x] < 256
    {
      AffineByte(invs[x]);
    }
  }

  // ---------------------------------------------------------------------
  // irrpolylist: which polynomials give every byte an inverse

  /** Every byte from 2 to 255 has an inverse modulo r. */
  predicate AllInvertible(r: nat)
    requires Degree8(r)
  {
    forall x :: 2 <= x < 256 ==> Invertible(r, x)
  }

  /** The body of `irrpolylist`'s outer loop for one candidate: search row by
      row, give up at the first row that finds nothing, and accept when row
      255 is passed. */
  method Candidate(r: nat) returns (listed: bool)
    requires Degree8(r)
    ensures listed <==> AllInvertible(r)
  {
    var found := seq(256, _ => false);
    ghost var invs := seq(256, x => if x == 1 then 1 else 0);
    ghost var missing: nat := 0;
    listed := false;
    var i := 2;
    SearchStart(r);
    while i < 256
      invariant SearchState(r, i, found, invs)
      invariant forall x :: 2 <= x < i ==> found[x]
      invariant listed <==> i == 256
    {
      var found', j := ScanRow(r, i, found);
      RowStep(r, i, found, invs, found', j);
      invs := RowWrites(i, found, found', j, invs);
      if j == 256 && !found'[i] {
        missing := i;
        break;
      }
      if i == 255 {
        listed := true;
      }
      AllFoundBelow(i, found, found');
      found := found';
      i := i + 1;
    }
    if listed {
      SearchDone(r, found, invs);
    } else {
      assert 2 <= missing < 256 && !Invertible(r, missing);
    }
  }

  lemma AllFoundBelow(i: nat, found: seq<bool>, found': seq<bool>)
    requires i < 256 && |found| == 256 && |found'| == 256 && found'[i]
    requires forall x :: 2 <= x < i ==> found[x]
    requires forall x :: 0 <= x < 256 && found[x] ==> found'[x]
    ensures forall x :: 2 <= x < i + 1 ==> found'[x]
  {
  }

  predicate StrictlyIncreasing(s: seq<nat>)
  {
    forall a, b :: 0 <= a < b < |s| ==> s[a] < s[b]
  }

  /** The selection made by `irrpolylist`: every odd polynomial from 0x101 to
      0x1FF that passes Candidate, in increasing order. At most 128 can pass,
      which is the capacity of the source's `list`. */
  method IrrPolyList() returns (list: seq<nat>)
    ensures |list| <= 128
    ensures StrictlyIncreasing(list)
    ensures forall p :: p in list ==> 0x101 <= p < 0x200 && p % 2 == 1
    ensures forall p :: 0x101 <= p < 0x200 && p % 2 == 1 ==> (p in list <==> AllInvertible(p))
  {
    var irrpoly := 0x101;
    list := [];
    while irrpoly < 0x200
      invariant 0x101 <= irrpoly <= 0x201 && irrpoly % 2 == 1
      invariant |list| <= (irrpoly - 0x101) / 2
      invariant StrictlyIncreasing(list)
      invariant forall t :: 0 <= t < |list| ==> list[t] < irrpoly
      invariant forall p :: p in list ==> 0x101 <= p < irrpoly && p < 0x200 && p % 2 == 1
      invariant forall p :: 0x101 <= p < irrpoly && p < 0x200 && p % 2 == 1 ==> (p in list <==> AllInvertible(p))
    {
      var listed := Candidate(irrpoly);
      if listed {
        list := list + [irrpoly];
      }
      irrpoly := irrpoly + 2;
    }
  }
}
