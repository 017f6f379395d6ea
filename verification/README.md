# AES S-box derivation and linear analysis, in Dafny

This project models two C programs and proves properties of the models.

`AESsbox.c` derives an S-box from a reduction polynomial of degree 8. It
finds the inverse of every byte in GF(2)[x] modulo that polynomial by brute
force, then applies the AES affine transformation: a circulant bit matrix
whose first row is 0xF1, plus the constant 0x63. With the `-l` flag it lists
every odd polynomial of degree 8 for which each byte from 2 to 255 finds an
inverse.

`linearcrypt.c` builds the linear-approximation table of an S-box. Cell
`probs[i][j]` looks only at the inputs whose parity under mask j is odd (all
256 inputs when j is 0). Among them it measures how far the share of outputs
with odd parity under mask i lies from 1/2. For a bijective S-box this equals
the usual distance from 1/2 of the agreement between input parity and output
parity over all inputs; that equivalence is not proved here. The program then
sorts each row and reports the largest deviation.

Modules:

- `Bits` (`bits.dfy`): bits of natural numbers, bitwise xor and and, 8-bit
  rotations, parity folds, and the 8-bit parity `odd` that both programs
  define.
- `GaloisField` (`galois_field.dfy`): the reference definitions and the
  algorithms of AESsbox.c.
  - `Clmul` is the carry-less product. `MultPoly` follows `multpoly`'s
    rotate-and-multiply loops.
  - `Reduce` and `ModPoly` follow the two loops of `modpoly`.
  - `Affine` is the matrix-plus-constant definition. `AffineEntry` and
    `AffTrans` follow `afftrans`, including the increment and right rotation
    of an `unsigned char`.
- `InverseSearch` (`inverse_search.dfy`): the inverse search of `main`, the
  S-box derivation, and the candidate filter of `irrpolylist`.
- `RowSort` (`row_sort.dfy`): sorting one row, specified as a non-decreasing
  permutation.
- `LinearAnalysis` (`linear_analysis.dfy`): `findprobs`, `sortprobs` and the
  maximum scan of linearcrypt.c's `main`.

Bytes and C `int`s are natural numbers. Bit operations are defined bit by
bit, so where a C operation truncates to 8 bits (the `unsigned char`
rotations and increment) the model writes the `% 256` out. Deviations are
exact `real`s. Every count is an integer and the divisor is 128 or 256, so
the C `double`s hold these values exactly.

Modelling choices:

- The search's writes to `invs` happen right after each row's scan rather
  than inside it (`RowWrites`). Nothing reads `invs` during a row.
- `invs` starts as zeros except `invs[1] == 1`. The source leaves it
  uninitialised, but the search writes every entry from 2 to 255 before
  anything reads it.
- Row 0 of the linear table is zero. The source never writes it and never
  reads it.

Two consequences of the code worth stating:

- On the identity S-box the diagonal cells (i == j != 0) have deviation 1/2:
  every selected input has odd output parity, so `notequal` is 0. See
  `IdentityDiagonal`.
- `irrpolylist` tries the 128 odd values from 0x101 to 0x1FF, which is
  exactly the capacity of its `list`. See `IrrPolyList`.

## Model

| member | source | states |
|---|---|---|
| GaloisField.ClmulBit | AESsbox.c:125-150 | coefficient k of the product is the parity of the pairs of set coefficients whose degrees add up to k |
| GaloisField.MultPoly | AESsbox.c:129-150 | `multpoly` on two bytes computes the carry-less product, and the product is below 2^15 |
| GaloisField.XorFold | AESsbox.c:147-148 | the last loop of `multpoly` leaves the exclusive or of all the table entries in `result` |
| GaloisField.ClmulComm | AESsbox.c:129-150 | the product is commutative, as the search assumes when it records i and j as each other's inverse |
| GaloisField.ClmulIdentities | AESsbox.c:129-150 | multiplying by 1 returns the other factor; multiplying by 0 gives 0 |
| GaloisField.AlignDivisor | AESsbox.c:109-114 | the first loop stops with the marker i a power of two at least the dividend, the divisor still lined up with it (i <= irrpoly < 2i), and i never more than doubled past the dividend |
| GaloisField.CancelDrop | AESsbox.c:117-118 | when poly and the aligned divisor share their leading term, the xor removes it and leaves a value below i; otherwise poly is unchanged |
| GaloisField.Divide | AESsbox.c:115-121 | the second loop terminates and leaves a remainder below 256 |
| GaloisField.ModPoly | AESsbox.c:122 | for a dividend below 256 the result is true exactly when the dividend is 1 |
| GaloisField.Reduce | AESsbox.c:107-121 | for a modulus of degree 8 both loops of `modpoly` terminate, and the remainder is below 256 |
| GaloisField.ReduceCongruent | AESsbox.c:107-121 | the dividend and the remainder differ by a GF(2)[x] multiple of the modulus |
| GaloisField.ModPolyMeaning | AESsbox.c:107-122 | `modpoly` returns true exactly when poly is congruent to 1 modulo irrpoly (both directions) |
| GaloisField.ReduceSmall | AESsbox.c:109-122 | a dividend below 256 is left untouched, so the test is then `poly == 1` |
| GaloisField.ReduceFitsInt | AESsbox.c:109-120 | the shifted divisor and the marker stay within a 32-bit `int` for every dividend the model admits |
| GaloisField.OddBits | AESsbox.c:171-182 | `odd` is the parity of the eight low bits |
| GaloisField.OddZero | AESsbox.c:171-182 | `odd(0)` is false |
| GaloisField.OddXor | AESsbox.c:171-182 | the parity of x ^ y is the exclusive or of the parities |
| GaloisField.AffineMatrix | AESsbox.c:15-25 | the rows `afftrans` obtains by rotating 0xF1 are the circulant matrix drawn in the comment, and the eighth rotation returns to the first row |
| GaloisField.AffineBit | AESsbox.c:15-25 | bit j of the transformed byte is the parity of row j masked with x, flipped where 0x63 has a one |
| GaloisField.AffineEntry | AESsbox.c:156-165 | started with `aff` at 0xF1, the inner loop of `afftrans` builds the matrix product bit by bit in `bprime`, and after eight rotations hands `aff` back at 0xF1 for the next entry |
| GaloisField.AffTrans | AESsbox.c:153-169 | every S-box entry is the affine transformation of the matching inverse |
| GaloisField.AffineByte | AESsbox.c:153-169 | the transformed value fits in a byte |
| GaloisField.AffineLinear | AESsbox.c:15-25 | the map is affine: f(x ^ y) == f(x) ^ f(y) ^ 0x63 |
| GaloisField.AffineZero | AESsbox.c:153-169 | f(0) == 0x63, the S-box entry of 0 |
| GaloisField.AffineOne | AESsbox.c:153-169 | f(1) == 0x7C, the S-box entry of 1 |
| InverseSearch.InverseComm | AESsbox.c:73-77 | y is an inverse of x exactly when x is an inverse of y |
| InverseSearch.InverseZeroOne | AESsbox.c:64-65 | 0 has no inverse, and 1 is the only inverse of 1 |
| InverseSearch.InverseUnique | AESsbox.c:9-13 | a byte has at most one inverse modulo a degree-8 polynomial |
| InverseSearch.ScanRow | AESsbox.c:69-80 | a row already found is skipped; otherwise the scan stops at the first j >= i that passes the test and marks exactly i and j, or it reaches 256 having rejected every j from i on |
| InverseSearch.RowWrites | AESsbox.c:75-82 | a row that finds its inverse j - 1 writes both invs[i] and invs[j - 1]; a row that reaches 256 without one writes invs[i] = 0; no other entry changes |
| InverseSearch.RowStep | AESsbox.c:67-83 | each row keeps the search invariant: flags only go from 0 to 1, every found index is paired with a found inverse, and every unresolved earlier row has no inverse at all |
| InverseSearch.FindInverses | AESsbox.c:58-83 | invs[0] == 0 and invs[1] == 1; entries are bytes; for x >= 2, found[x] holds exactly when x is invertible; y is an inverse of x exactly when y == invs[x] != 0; the table is an involution on non-zero entries |
| InverseSearch.TableInvolution | AESsbox.c:75-77 | because both halves of each pair are written, invs[invs[x]] == x whenever invs[x] != 0 |
| InverseSearch.DeriveSBox | AESsbox.c:58-87 | the S-box is the affine image of the inverse table, with entries 0x63 for 0 and 0x7C for 1 |
| InverseSearch.Candidate | AESsbox.c:250-270 | a polynomial is listed exactly when every byte from 2 to 255 has an inverse modulo it |
| InverseSearch.IrrPolyList | AESsbox.c:246-272 | the list is strictly increasing, holds at most 128 odd values from 0x101 to 0x1FF, and contains an odd candidate exactly when every byte from 2 to 255 is invertible modulo it |
| LinearAnalysis.OddMasked | linearcrypt.c:100-110 | `odd(j & k)` is the parity of the low-byte bits that j and k share |
| LinearAnalysis.MaskedHalf | linearcrypt.c:78 | under a mask with a set bit, exactly half of the inputs have odd masked parity |
| LinearAnalysis.SelectedCount | linearcrypt.c:75-86 | `sum` counts 256 inputs for the empty mask and 128 for every other mask |
| LinearAnalysis.CellTally | linearcrypt.c:73-87 | after any prefix of inputs, equal + notequal == sum; sum counts the selected inputs, and equal counts those whose output has odd masked parity |
| LinearAnalysis.TallyCell | linearcrypt.c:73-87 | the counting loop produces the tally of all 256 inputs |
| LinearAnalysis.CellCounts | linearcrypt.c:73-87 | a finished cell splits its 256 or 128 selected inputs into equal and notequal |
| LinearAnalysis.Deviation | linearcrypt.c:89-93 | the deviation lies between 0 and 1/2 |
| LinearAnalysis.DeviationBias | linearcrypt.c:89-93 | deviation * 2 * sum == abs(equal - notequal); the deviation is 0 exactly when the counts are equal, and 1/2 exactly when one of them is 0 |
| LinearAnalysis.PermutationColumnZero | linearcrypt.c:69-93 | for a bijective S-box, column 0 of every row counts 128 against 128, so its deviation is 0 |
| LinearAnalysis.IdentityDiagonal | linearcrypt.c:78-93 | for the identity S-box and i == j != 0, notequal is 0 and the deviation is 1/2 |
| LinearAnalysis.FindRow | linearcrypt.c:71-94 | one row of `findprobs` holds the deviation of every cell |
| LinearAnalysis.FindProbs | linearcrypt.c:66-96 | rows 1 to 255 of the table hold the deviation of every cell |
| RowSort.Insert | linearcrypt.c:113-130 | inserting into a sorted row keeps it sorted and adds exactly one element |
| RowSort.SortRow | linearcrypt.c:113-130 | the sorted row is non-decreasing and a permutation of the original |
| LinearAnalysis.SortProbs | linearcrypt.c:113-119 | rows 1 to 255 become non-decreasing permutations of themselves, and row 0 is untouched |
| LinearAnalysis.MaxDeviation | linearcrypt.c:57-61 | the scan returns a value of at least 0 that bounds the last entry of every row, and that is 0 or one of those entries |
| LinearAnalysis.BelowMax | linearcrypt.c:57-61 | a bound on the last entry of a sorted row bounds every entry of the unsorted row |
| LinearAnalysis.Analyze | linearcrypt.c:44-61 | the reported maximum is the largest deviation over all cells with output masks 1 to 255, and it is attained by one of them |

## Left out

- Console and file I/O is not modelled: the polynomial read with `scanf`, `printsbox`, `writesbox`, the `fopen`/`fscanf` reading of the S-box in linearcrypt.c, and the `totxt` and `topgm` exporters. The S-box is a parameter, and the results are return values.
- Argument handling is not modelled: `processargs`, the `pflag`/`wflag`/`iflag` globals and the `exit` calls. `DeriveSBox` returns both the inverse table (what `-i` prints) and the S-box.
- The printing part of `irrpolylist` (lines 274-281) is not modelled. `IrrPolyList` returns the list.
- randomsbox.c is not part of this model. It depends on `rand()` and the clock.
- Floating point is not modelled. Deviations are exact reals, which the `double`s hold exactly because every value is a multiple of 1/256. The greymap scaling `(int)(x*128)` is left out with the exporters.
- `qsort` and `cmpfunc` are replaced by an insertion sort specified by its result. `cmpfunc` never returns 0, so it is not a consistent comparator in the sense of section 7.22.5 of ISO C11. The model states only what a sort must deliver. Among equal reals the order cannot be observed.
- GaloisField.Reduce: requires a modulus from 0x100 to 0x1FF. For any other non-negative modulus, `modpoly` never terminates once the dividend has degree 8 or more, unless a large modulus first overflows the `int` shift at AESsbox.c:112: the remainder never drops below 256, so `poly >= 256` stays true while the marker shifts down to 0. Below 0x100 the xor cannot clear the dividend's leading bit. From 0x200 on, the xor sets a bit above the marker, which no later step can clear. The search in `main` always reaches such a product (2 times 128), so this is a requirement of the source itself.
- GaloisField.Reduce: negative moduli are not modelled, because the modulus is a `nat`. `scanf("%x")` at AESsbox.c:56 can store a negative `int`. For example, with irrpoly = -1 and poly = 256, the first xor makes poly negative, the loop ends, and `modpoly` returns false.
- GaloisField.Reduce: requires a dividend of at most 2^29. This is a safe bound, not the exact limit. The source first overflows at a dividend of 2^30, where `i*2` at AESsbox.c:117 reaches 2^31. Below 2^30 the test `poly>=i` fails first, so `i*2` is not evaluated. Every caller passes a product below 2^15.
- Negative C `int` values are not modelled: bytes are natural numbers. An S-box file holding negative numbers would make linearcrypt.c mask their two's-complement bits. The model takes S-box entries as natural numbers.
- No concrete table is evaluated: no inverse table for 0x11B, no S-box entries beyond f(0) and f(1), and no list of irreducible polynomials. Only general properties are proved.
