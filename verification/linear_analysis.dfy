/**
  The linear-approximation table of an S-box, as computed by linearcrypt.c.

  For an output mask i in 1..255 and an input mask j in 0..255, the cell
  counts the inputs k selected by j (odd parity of j & k, or every k when
  j == 0). Among those it counts how many have odd parity of Sbox[k] & i
  (`equal`) and how many do not (`notequal`). The cell holds the deviation of
  that split from one half. Rows are then sorted, and the largest sorted
  entry of rows 1..255 is reported.

  Every count is an integer and the sum is 128 or 256, so the deviations are
  exact multiples of 1/256 and are modelled as `real`.
*/
module LinearAnalysis {
  import opened Bits
  import opened GaloisField
  import opened RowSort

  // ---------------------------------------------------------------------
  // Counting

  /** The number of k below n with f(k). */
  function Count(f: nat -> bool, n: nat): (c: nat)
    ensures c <= n
  {
    if n == 0 then 0 else Count(f, n - 1) + (if f(n - 1) then 1 else 0)
  }

  lemma {:induction false} CountExt(f: nat -> bool, g: nat -> bool, n: nat)
    requires forall k: nat :: k < n ==> f(k) == g(k)
    ensures Count(f, n) == Count(g, n)
  {
    if n > 0 {
      CountExt(f, g, n - 1);
    }
  }

  lemma {:induction false} CountSplit(f: nat -> bool, a: nat, b: nat)
    ensures Count(f, a + b) == Count(f, a) + Count(Shift(f, a), b)
  {
    if b > 0 {
      CountSplit(f, a, b - 1);
    }
  }

  /** Counting a negated property counts the rest. */
  lemma {:induction false} CountNot(f: nat -> bool, g: nat -> bool, n: nat)
    requires forall k: nat :: k < n ==> g(k) == !f(k)
    ensures Count(g, n) == n - Count(f, n)
  {
    if n > 0 {
      CountNot(f, g, n - 1);
    }
  }

  lemma {:induction false} CountAll(f: nat -> bool, n: nat)
    requires forall k: nat :: k < n ==> f(k)
    ensures Count(f, n) == n
  {
    if n > 0 {
      CountAll(f, n - 1);
    }
  }

  /** The number of elements of s with g, counted from the back. */
  function Occurrences(g: nat -> bool, s: seq<nat>): (c: nat)
    ensures c <= |s|
  {
    if s == [] then 0
    else Occurrences(g, s[..|s| - 1]) + (if g(s[|s| - 1]) then 1 else 0)
  }

  lemma {:induction false} OccurrencesConcat(g: nat -> bool, a: seq<nat>, b: seq<nat>)
    ensures Occurrences(g, a + b) == Occurrences(g, a) + Occurrences(g, b)
    decreases |b|
  {
    if b != [] {
      var b' := b[..|b| - 1];
      var x := b[|b| - 1];
      assert (a + b)[..|a + b| - 1] == a + b';
      assert (a + b)[|a + b| - 1] == x;
      assert Occurrences(g, a + b) == Occurrences(g, a + b') + (if g(x) then 1 else 0);
      assert Occurrences(g, b) == Occurrences(g, b') + (if g(x) then 1 else 0);
      OccurrencesConcat(g, a, b');
    } else {
      assert a + b == a;
    }
  }

  /** The count depends only on the multiset of elements. */
  lemma {:induction false} OccurrencesPermutation(g: nat -> bool, s: seq<nat>, t: seq<nat>)
    requires multiset(s) == multiset(t)
    ensures Occurrences(g, s) == Occurrences(g, t)
    decreases |s|
  {
    if s == [] {
      assert |t| == |multiset(t)| == 0;
    } else {
      var x := s[|s| - 1];
      var s' := s[..|s| - 1];
      assert s == s' + [x];
      assert x in multiset(t);
      var m :| 0 <= m < |t| && t[m] == x;
      var t' := RemoveAt(g, t, m);
      assert multiset(s) == multiset(s') + multiset{x};
      OccurrencesPermutation(g, s', t');
      OccurrencesConcat(g, s', [x]);
      assert Occurrences(g, [x]) == (if g(x) then 1 else 0) by {
        assert [x][..0] == [];
      }
    }
  }

  /** Removing the element at position m. */
  lemma RemoveAt(g: nat -> bool, t: seq<nat>, m: nat) returns (t': seq<nat>)
    requires m < |t|
    ensures multiset(t') == multiset(t) - multiset{t[m]}
    ensures Occurrences(g, t) == Occurrences(g, t') + (if g(t[m]) then 1 else 0)
  {
    var x := t[m];
    t' := t[..m] + t[m + 1..];
    assert t == t[..m] + [x] + t[m + 1..];
    assert multiset(t) == multiset(t[..m]) + multiset{x} + multiset(t[m + 1..]);
    assert multiset(t') == multiset(t[..m]) + multiset(t[m + 1..]);
    OccurrencesConcat(g, t[..m] + [x], t[m + 1..]);
    OccurrencesConcat(g, t[..m], [x]);
    OccurrencesConcat(g, t[..m], t[m + 1..]);
    assert Occurrences(g, [x]) == (if g(x) then 1 else 0) by {
      assert [x][..0] == [];
    }
  }

  /** Occurrences in a sequence as a count over its positions. */
  function AtPositions(g: nat -> bool, s: seq<nat>): nat -> bool
  {
    (k: nat) => k < |s| && g(s[k])
  }

  lemma {:induction false} OccurrencesCount(g: nat -> bool, s: seq<nat>)
    ensures Occurrences(g, s) == Count(AtPositions(g, s), |s|)
    decreases |s|
  {
    if s != [] {
      var s' := s[..|s| - 1];
      OccurrencesCount(g, s');
      CountExt(AtPositions(g, s'), AtPositions(g, s), |s'|);
    }
  }

  // ---------------------------------------------------------------------
  // Masked parities: half of all inputs have odd parity under a nonzero mask

  /** Bit b of j & k. */
  function MaskedBits(j: nat, k: nat): nat -> bool
  {
    (b: nat) => Bit(j, b) && Bit(k, b)
  }

  /** `odd(j & k)` is the parity of the low 8 bits that j and k share. */
  lemma OddMasked(j: nat, k: nat)
    ensures Odd(And(j, k)) == ParityOf(MaskedBits(j, k), 8)
  {
    OddBits(And(j, k));
    forall b: nat | b < 8
      ensures Bit(And(j, k), b) == MaskedBits(j, k)(b)
    {
      BitAnd(j, k, b);
    }
    ParityExt((b: nat) => Bit(And(j, k), b), MaskedBits(j, k), 8);
  }

  function MaskedParities(j: nat, n: nat): nat -> bool
  {
    (k: nat) => ParityOf(MaskedBits(j, k), n)
  }

  /** Setting bit n - 1 of k flips the parity exactly when j has that bit. */
  lemma MaskedTop(j: nat, n: nat, k: nat, c: bool)
    requires 1 <= n && k < Pow2(n - 1)
    ensures MaskedParities(j, n)((if c then Pow2(n - 1) else 0) + k)
            == (MaskedParities(j, n - 1)(k) != (Bit(j, n - 1) && c))
  {
    var k' := (if c then Pow2(n - 1) else 0) + k;
    forall b: nat | b < n
      ensures Bit(k', b) == ((b < n - 1 && Bit(k, b)) || (b == n - 1 && c))
    {
      BitAddTop(k, n - 1, c, b);
    }
    ParityExt(MaskedBits(j, k'), MaskedBits(j, k), n - 1);
  }

  /** Under a mask with a set bit below n, exactly half of the k < 2^n have
      odd masked parity. */
  lemma {:induction false} MaskedHalf(j: nat, n: nat, b: nat)
    requires b < n && Bit(j, b)
    ensures Count(MaskedParities(j, n), Pow2(n)) == Pow2(n - 1)
  {
    var h := Pow2(n - 1);
    assert Pow2(n) == h + h;
    CountSplit(MaskedParities(j, n), h, h);
    MaskedHalves(j, n);
    if !Bit(j, n - 1) {
      MaskedHalf(j, n - 1, b);
    }
  }

  /** The lower half of the k < 2^n counts as under n - 1 bits; the upper
      half counts the same again, or the complement when j has bit n - 1. */
  lemma MaskedHalves(j: nat, n: nat)
    requires 1 <= n
    ensures Count(MaskedParities(j, n), Pow2(n - 1)) == Count(MaskedParities(j, n - 1), Pow2(n - 1))
    ensures Count(Shift(MaskedParities(j, n), Pow2(n - 1)), Pow2(n - 1))
            == if Bit(j, n - 1) then Pow2(n - 1) - Count(MaskedParities(j, n - 1), Pow2(n - 1))
               else Count(MaskedParities(j, n - 1), Pow2(n - 1))
  {
    var h := Pow2(n - 1);
    var f := MaskedParities(j, n);
    var g := MaskedParities(j, n - 1);
    forall k: nat | k < h
      ensures f(k) == g(k)
    {
      MaskedTop(j, n, k, false);
    }
    CountExt(f, g, h);
    var top := Shift(f, h);
    forall k: nat | k < h
      ensures top(k) == (g(k) != Bit(j, n - 1))
    {
      MaskedTop(j, n, k, true);
    }
    if Bit(j, n - 1) {
      CountNot(g, top, h);
    } else {
      CountExt(top, g, h);
    }
  }

  /** A nonzero byte has a set bit below 8. */
  lemma SetBit(j: nat) returns (b: nat)
    requires 0 < j < 256
    ensures b < 8 && Bit(j, b)
  {
    if forall c: nat :: c < 8 ==> !Bit(j, c) {
      Pow2Seven();
      forall c: nat
        ensures Bit(j, c) == Bit(0, c)
      {
        BitZero(c);
        if c >= 8 {
          BitsAbove(j, 8, c);
        }
      }
      BitsEqual(j, 0);
    }
    b :| b < 8 && Bit(j, b);
  }

  // ---------------------------------------------------------------------
  // One cell of findprobs

  /** Input k takes part in the cell for input mask j. */
  predicate Selected(j: nat, k: nat)
  {
    Odd(And(j, k)) || j == 0
  }

  function SelectedInputs(j: nat): nat -> bool
  {
    (k: nat) => Selected(j, k)
  }

  /** `sum` is 256 for the empty mask and 128 for every other mask. */
  lemma SelectedCount(j: nat)
    requires j < 256
    ensures Count(SelectedInputs(j), 256) == if j == 0 then 256 else 128
  {
    if j == 0 {
      CountAll(SelectedInputs(j), 256);
    } else {
      var b := SetBit(j);
      forall k: nat | k < 256
        ensures SelectedInputs(j)(k) == MaskedParities(j, 8)(k)
      {
        OddMasked(j, k);
      }
      CountExt(SelectedInputs(j), MaskedParities(j, 8), 256);
      Pow2Seven();
      MaskedHalf(j, 8, b);
    }
  }

  /** Input k is selected and its output has odd parity under i. */
  function OddOutputs(sbox: seq<nat>, i: nat, j: nat): nat -> bool
  {
    (k: nat) => k < |sbox| && Selected(j, k) && Odd(And(sbox[k], i))
  }

  datatype Tally = Tally(equal: nat, notequal: nat, sum: nat)

  /** The counters of the cell (i, j) after the inputs k < n. */
  function CellTally(sbox: seq<nat>, i: nat, j: nat, n: nat): (t: Tally)
    requires n <= |sbox|
    ensures t.equal + t.notequal == t.sum
    ensures t.sum == Count(SelectedInputs(j), n)
    ensures t.equal == Count(OddOutputs(sbox, i, j), n)
  {
    if n == 0 then Tally(0, 0, 0)
    else
      var t := CellTally(sbox, i, j, n - 1);
      if !Selected(j, n - 1) then t
      else if Odd(And(sbox[n - 1], i)) then Tally(t.equal + 1, t.notequal, t.sum + 1)
      else Tally(t.equal, t.notequal + 1, t.sum + 1)
  }

  function Abs(x: int): nat
  {
    if x < 0 then -x else x
  }

  /** The deviation from one half: one half minus the smaller share. */
  function Deviation(t: Tally): (d: real)
    requires t.sum > 0 && t.equal + t.notequal == t.sum
    ensures 0.0 <= d <= 0.5
  {
    var s := t.sum as real;
    if t.equal > t.notequal then
      SmallerShare(t.notequal as real, s);
      0.5 - t.notequal as real / s
    else
      SmallerShare(t.equal as real, s);
      0.5 - t.equal as real / s
  }

  /** The smaller of two shares is at most one half. */
  lemma SmallerShare(b: real, s: real)
    requires s > 0.0 && 0.0 <= b && 2.0 * b <= s
    ensures 0.0 <= b / s <= 0.5
  {
    var q := b / s;
    assert q * s == b;
  }

  /** The deviation is the imbalance between the two counts relative to twice
      the total: 0 exactly when the counts are equal and 1/2 exactly when one
      of them is 0. */
  lemma DeviationBias(t: Tally)
    requires t.sum > 0 && t.equal + t.notequal == t.sum
    ensures Deviation(t) * (2 * t.sum) as real == Abs(t.equal - t.notequal) as real
    ensures Deviation(t) == 0.0 <==> t.equal == t.notequal
    ensures Deviation(t) == 0.5 <==> t.equal == 0 || t.notequal == 0
  {
    var s := t.sum as real;
    var e := t.equal as real;
    var ne := t.notequal as real;
    if t.equal > t.notequal {
      HalfMinusShare(e, ne, s);
    } else {
      HalfMinusShare(ne, e, s);
    }
  }

  /** One half minus the share b of a + b, times twice the total, is the
      difference a - b. */
  lemma HalfMinusShare(a: real, b: real, s: real)
    requires s > 0.0 && a + b == s && 0.0 <= b
    ensures (0.5 - b / s) * (2.0 * s) == a - b
  {
    var q := b / s;
    assert q * s == b;
    assert (0.5 - q) * (2.0 * s) == a - b;
  }

  /** The entry `probs[i][j]` that findprobs computes. */
  function Cell(sbox: seq<nat>, i: nat, j: nat): (d: real)
    requires |sbox| == 256 && j < 256
    ensures 0.0 <= d <= 0.5
  {
    SelectedCount(j);
    Deviation(CellTally(sbox, i, j, 256))
  }

  /** The counting loop of findprobs for one cell. */
  method TallyCell(sbox: seq<nat>, i: nat, j: nat) returns (t: Tally)
    requires |sbox| == 256
    ensures t == CellTally(sbox, i, j, 256)
  {
    var equal, notequal, sum := 0, 0, 0;
    var k := 0;
    while k < 256
      invariant 0 <= k <= 256
      invariant equal == CellTally(sbox, i, j, k).equal
      invariant notequal == CellTally(sbox, i, j, k).notequal
      invariant sum == CellTally(sbox, i, j, k).sum
    {
      TallyStep(sbox, i, j, k);
      var selected := Odd(And(j, k)) || j == 0;
      var oddOutput := Odd(And(sbox[k], i));
      if selected {
        if oddOutput {
          equal := equal + 1;
        } else {
          notequal := notequal + 1;
        }
        sum := sum + 1;
      }
      k := k + 1;
    }
    t := Tally(equal, notequal, sum);
  }

  /** Input k moves exactly one counter, and only when it is selected. */
  lemma TallyStep(sbox: seq<nat>, i: nat, j: nat, k: nat)
    requires k < |sbox|
    ensures var t := CellTally(sbox, i, j, k);
            var t' := CellTally(sbox, i, j, k + 1);
            t'.sum == t.sum + (if Selected(j, k) then 1 else 0) &&
            t'.equal == t.equal + (if Selected(j, k) && Odd(And(sbox[k], i)) then 1 else 0) &&
            t'.notequal == t.notequal + (if Selected(j, k) && !Odd(And(sbox[k], i)) then 1 else 0)
  {
  }

  // ---------------------------------------------------------------------
  // Properties of the cells

  /** A cell's counts split the selected inputs, and there are 256 or 128 of
      them. */
  lemma CellCounts(sbox: seq<nat>, i: nat, j: nat)
    requires |sbox| == 256 && j < 256
    ensures CellTally(sbox, i, j, 256).equal + CellTally(sbox, i, j, 256).notequal
            == CellTally(sbox, i, j, 256).sum
    ensures CellTally(sbox, i, j, 256).sum == if j == 0 then 256 else 128
  {
    SelectedCount(j);
  }

  /** The bytes 0..255 in order; also the identity S-box. */
  function Identity(): (s: seq<nat>)
    ensures |s| == 256 && forall v :: 0 <= v < 256 ==> s[v] == v
  {
    seq(256, (v: int) requires 0 <= v => v as nat)
  }

  /** The S-box is a bijection of the bytes. */
  predicate IsPermutation(sbox: seq<nat>)
  {
    multiset(sbox) == multiset(Identity())
  }

  function OddUnder(i: nat): nat -> bool
  {
    (v: nat) => Odd(And(v, i))
  }

  /** For a bijective S-box the empty input mask has deviation 0 under every
      output mask: exactly 128 outputs have odd masked parity. */
  lemma PermutationColumnZero(sbox: seq<nat>, i: nat)
    requires |sbox| == 256 && IsPermutation(sbox) && 1 <= i < 256
    ensures CellTally(sbox, i, 0, 256) == Tally(128, 128, 256)
    ensures Cell(sbox, i, 0) == 0.0
  {
    var ident := Identity();
    var g := OddUnder(i);
    OccurrencesPermutation(g, sbox, ident);
    OccurrencesCount(g, sbox);
    OccurrencesCount(g, ident);
    CountExt(OddOutputs(sbox, i, 0), AtPositions(g, sbox), 256);
    forall v: nat | v < 256
      ensures AtPositions(g, ident)(v) == SelectedInputs(i)(v)
    {
      AndComm(v, i);
    }
    CountExt(AtPositions(g, ident), SelectedInputs(i), 256);
    SelectedCount(i);
    SelectedCount(0);
    DeviationBias(CellTally(sbox, i, 0, 256));
  }

  /** For the identity S-box and equal masks, every selected input has odd
      output parity: notequal is 0 and the deviation is the largest, 1/2. */
  lemma IdentityDiagonal(i: nat)
    requires 1 <= i < 256
    ensures CellTally(Identity(), i, i, 256).notequal == 0
    ensures Cell(Identity(), i, i) == 0.5
  {
    forall k: nat | k < 256
      ensures OddOutputs(Identity(), i, i)(k) == SelectedInputs(i)(k)
    {
      AndComm(k, i);
    }
    CountExt(OddOutputs(Identity(), i, i), SelectedInputs(i), 256);
    SelectedCount(i);
    DeviationBias(CellTally(Identity(), i, i, 256));
  }

  // ---------------------------------------------------------------------
  // The table, the sort and the maximum

  predicate IsTable(probs: seq<seq<real>>)
  {
    |probs| == 256 && forall i :: 0 <= i < 256 ==> |probs[i]| == 256
  }

  /** One row of findprobs. */
  method FindRow(sbox: seq<nat>, i: nat) returns (row: seq<real>)
    requires |sbox| == 256
    ensures |row| == 256
    ensures forall j :: 0 <= j < 256 ==> row[j] == Cell(sbox, i, j)
  {
    row := [];
    var j := 0;
    while j < 256
      invariant 0 <= j <= 256 && |row| == j
      invariant forall c :: 0 <= c < j ==> row[c] == Cell(sbox, i, c)
    {
      var t := TallyCell(sbox, i, j);
      CellCounts(sbox, i, j);
      row := row + [Deviation(t)];
      j := j + 1;
    }
  }

  /** findprobs: rows 1..255 of the table. Row 0 is never written by the
      source and never read; it is zero here. */
  method FindProbs(sbox: seq<nat>) returns (probs: seq<seq<real>>)
    requires |sbox| == 256
    ensures IsTable(probs)
    ensures forall j :: 0 <= j < 256 ==> probs[0][j] == 0.0
    ensures forall i, j :: 1 <= i < 256 && 0 <= j < 256 ==> probs[i][j] == Cell(sbox, i, j)
  {
    probs := [seq(256, _ => 0.0)];
    var i := 1;
    while i < 256
      invariant 1 <= i <= 256 && |probs| == i
      invariant forall r :: 0 <= r < i ==> |probs[r]| == 256
      invariant forall j :: 0 <= j < 256 ==> probs[0][j] == 0.0
      invariant forall r, j :: 1 <= r < i && 0 <= j < 256 ==> probs[r][j] == Cell(sbox, r, j)
    {
      var row := FindRow(sbox, i);
      probs := probs + [row];
      i := i + 1;
    }
  }

  /** sortprobs: every row except row 0 sorted into non-decreasing order. */
  method SortProbs(probs: seq<seq<real>>) returns (sorted: seq<seq<real>>)
    requires IsTable(probs)
    ensures IsTable(sorted)
    ensures sorted[0] == probs[0]
    ensures forall i :: 1 <= i < 256 ==>
              Sorted(sorted[i]) && multiset(sorted[i]) == multiset(probs[i])
  {
    sorted := [probs[0]];
    var i := 1;
    while i < 256
      invariant 1 <= i <= 256 && |sorted| == i
      invariant sorted[0] == probs[0]
      invariant forall r :: 0 <= r < i ==> |sorted[r]| == 256
      invariant forall r :: 1 <= r < i ==>
                  Sorted(sorted[r]) && multiset(sorted[r]) == multiset(probs[r])
    {
      var row := SortRow(probs[i]);
      sorted := sorted + [row];
      i := i + 1;
    }
  }

  /** The scan at the end of main: the largest last entry of rows 1..255,
      starting from 0. */
  method MaxDeviation(probs: seq<seq<real>>) returns (max: real)
    requires IsTable(probs)
    ensures max >= 0.0
    ensures forall i :: 1 <= i < 256 ==> probs[i][255] <= max
    ensures max == 0.0 || exists i :: 1 <= i < 256 && max == probs[i][255]
  {
    max := 0.0;
    var i := 1;
    while i < 256
      invariant 1 <= i <= 256
      invariant max >= 0.0
      invariant forall r :: 1 <= r < i ==> probs[r][255] <= max
      invariant max == 0.0 || exists r :: 1 <= r < i && max == probs[r][255]
    {
      if probs[i][255] > max {
        max := probs[i][255];
      }
      i := i + 1;
    }
  }

  /** Row i of the table as findprobs computes it. */
  function CellRow(sbox: seq<nat>, i: nat): (row: seq<real>)
    requires |sbox| == 256
    ensures |row| == 256
  {
    seq(256, (j: int) requires 0 <= j < 256 => Cell(sbox, i, j))
  }

  /** Every entry of a row is at most the last entry of its sorted copy. */
  lemma BelowMax(row: seq<real>, sorted: seq<real>, max: real)
    requires |sorted| == 256 && Sorted(sorted) && multiset(sorted) == multiset(row)
    requires sorted[255] <= max
    ensures forall j :: 0 <= j < |row| ==> row[j] <= max
  {
    forall j | 0 <= j < |row|
      ensures row[j] <= max
    {
      assert row[j] in multiset(sorted);
      var a :| 0 <= a < 256 && sorted[a] == row[j];
      SortedLast(sorted, a);
    }
  }

  /** The last entry of the sorted copy occurs in the row. */
  lemma MaxAttained(row: seq<real>, sorted: seq<real>) returns (j: nat)
    requires |sorted| == 256 && multiset(sorted) == multiset(row)
    ensures j < |row| && row[j] == sorted[255]
  {
    assert sorted[255] in multiset(row);
    j :| 0 <= j < |row| && row[j] == sorted[255];
  }

  /** The whole analysis of main: table, sort and maximum. The reported
      maximum is the largest deviation of any cell with a nonzero output
      mask. */
  method Analyze(sbox: seq<nat>) returns (probs: seq<seq<real>>, max: real)
    requires |sbox| == 256
    ensures IsTable(probs)
    ensures forall i :: 1 <= i < 256 ==>
              Sorted(probs[i]) && multiset(probs[i]) == multiset(CellRow(sbox, i))
    ensures forall i, j :: 1 <= i < 256 && 0 <= j < 256 ==> Cell(sbox, i, j) <= max
    ensures exists i, j :: 1 <= i < 256 && 0 <= j < 256 && max == Cell(sbox, i, j)
  {
    var table := FindProbs(sbox);
    probs := SortProbs(table);
    max := MaxDeviation(probs);
    forall i | 1 <= i < 256
      ensures multiset(probs[i]) == multiset(CellRow(sbox, i))
      ensures forall j :: 0 <= j < 256 ==> Cell(sbox, i, j) <= max
    {
      assert table[i] == CellRow(sbox, i);
      BelowMax(CellRow(sbox, i), probs[i], max);
    }
    if max == 0.0 {
      assert max == Cell(sbox, 1, 0);
    } else {
      var i :| 1 <= i < 256 && max == probs[i][255];
      assert table[i] == CellRow(sbox, i);
      var j := MaxAttained(CellRow(sbox, i), probs[i]);
    }
  }
}
