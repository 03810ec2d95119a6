# Register diffusion experiments, modelled in Dafny

This project models the arithmetic and boolean-matrix core of a set of
experiments on the diffusion of a modified additive generator (MAG) and of
the keyless Speck32 round. It covers five parts:

- **The MAG register** (`Mag`, file `mag.dfy`). The register state is one
  integer made of `n` cells of `r` bits each, with cell 0 in the low bits.
  One cycle reads the tapped cells, adds them modulo 2^r and applies the
  modifying function. It then shifts the register one cell toward cell 0
  and ORs the new value into cell `n-1`.
  - The class `MAG` keeps `r`, `n`, the taps and the modifying function as
    constants and `state` as its one mutable field.
  - The constructor's checks are modelled as `Validate`, in the order the
    constructor makes them.
- **The keyless Speck32 round** (`Speck`, file `speck.dfy`). The round
  rotates the high word right by 7 and adds the low word modulo 2^16. It
  then XORs the key (none in the r-round variant), rotates the low word
  left by 2 and XORs. The model proves that the source's shift-and-mask
  expressions are these rotations. It also relates the round to the round
  function of "The SIMON and SPECK Families of Lightweight Block Ciphers"
  (Beaulieu et al., section 4) and proves that the round is a permutation
  of 32-bit blocks.
- **Matrix helpers** (`MatrixUtils`, file `matrix_utils.dfy`). numpy
  matrices become `array2<int>` in methods. Their contents are specified as
  `seq<seq<int>>` values through `Snapshot`. The helpers are:
  - column reversal;
  - the 0/1 cast, both as written and as intended (`Saturate`);
  - the integer matrix product that stands for numpy's `@`;
  - the text rendering of a matrix.
- **Mixing matrices** (`MatrixGeneration`, file `matrix_generation.dfy`).
  These are the block matrices of the MMLR-style register and of one Speck
  round, and the saturated powers of the Speck matrix. `MixingProperties`
  (file `mixing_properties.dfy`) holds the matrix-power generator and the
  bounded search for the first power that is fully (or column-locally)
  nonzero.
  - The search is written once over a sequence of booleans (`FirstPassing`).
  - The powers are parameterized by the cast, so one definition serves both
    the code as written and the intended 0/1 cast.
- **The perfection test** (`PerfectionCheck`, file `perfection_check.dfy`).
  For every bit position `i` and every sample `x`, it builds the two
  neighbours of `x` that differ only in bit `i`. It starts a MAG register on
  each and advances all pairs in lock-step. A round is perfect when, for
  every bit position, the OR of the XORs of the pair states is `2^(n*r) - 1`.
  - The registers are `MAG` objects. `Separate` states that every
    generator is a distinct object.
  - `HeldBy` reads a pair's two states. `PairRun` is the specification of
    a pair after k rounds.
  - A rejected construction becomes a `Failure` carrying the constructor's
    error, and a negative width n*r fails in the sample draw. When no
    register is built (n*r = 0 or no samples) the rounds still run on empty
    lists.

Bits are handled as natural numbers. `Bits` (file `bits.dfy`) defines
`Pow2`, shifts and bitwise `And`/`Or`/`Xor` bit by bit, and the exact bit
length. `Wrappers` (file `wrappers.dfy`) holds `Option` and `Result`; a
`Failure` stands for a raised exception.

## Model

| member | source | states |
|---|---|---|
| Bits.BitsNumber | src/generators/mag.py:7-9 | the exact bit length b of a positive x: 2^(b-1) <= x < 2^b |
| Bits.BitsNumberExceeds | src/generators/mag.py:105-106 | the bit length of x exceeds w exactly when x >= 2^w, so the width check accepts exactly the states below 2^(n*r) |
| Mag.NumsAddMod | src/generators/mag.py:12-17 | on a non-empty list, the result is the sum of the list modulo 2^r |
| Mag.FormNumsList | src/generators/mag.py:20-41 | one value per requested position, in order; the value for position p is (state >> r*p) mod 2^r |
| Mag.CellByMask | src/generators/mag.py:29-37 | masking with r ones shifted to bit s and shifting back reads the r bits starting at bit s |
| Mag.ValidateAccepts | src/generators/mag.py:81-106 | the constructor's checks pass exactly when r > 0, n > 0, there are 1 to n taps, 0 is among them, every tap is in [0, n-1], and 0 <= init_state < 2^(n*r) |
| Mag.MAG.Create | src/generators/mag.py:56-107 | a failure carrying the first check that fails; otherwise a new register holding exactly the given r, n, taps, function and state |
| Mag.MAG.constructor | src/generators/mag.py:56-107 | on accepted arguments, the fields are the arguments and the state fits in n*r bits |
| Mag.MAG.FormPpNums | src/generators/mag.py:109-111 | the values of the tapped cells, one per tap, repeats included |
| Mag.MAG.DoShift | src/generators/mag.py:113-120 | the new state is the old state shifted one cell down with the new value ORed into cell n-1 |
| Mag.ShiftedValue | src/generators/mag.py:117-120 | on a state within n*r bits, the OR into the emptied top cell is an addition |
| Mag.ShiftedCells | src/generators/mag.py:113-120 | after the shift, cell k holds the old cell k+1, cell n-1 holds new_val mod 2^r, and a new_val below 2^r keeps the state within n*r bits |
| Mag.ShiftedBelow | src/generators/mag.py:117-120 | a state within n*r bits and a new value within r bits give a state within n*r bits |
| Mag.MAG.DoCycle | src/generators/mag.py:122-135 | exactly one cycle of the register; when mf maps r-bit values to r-bit values, the state stays within n*r bits |
| Mag.StepCells | src/generators/mag.py:122-135 | one cycle moves every cell one place toward cell 0 and puts mf(sum of taps mod 2^r) into cell n-1 (reduced mod 2^r unless mf keeps r-bit values in range) |
| Mag.RunBelow | src/generators/mag.py:152-166 | any number of cycles keeps a state within n*r bits when mf maps r-bit values to r-bit values |
| Mag.MAG.GetCurrentStateVal | src/generators/mag.py:137-139 | the whole state |
| Mag.MAG.GetCurrentOutputVal | src/generators/mag.py:141-143 | cell 0, the low r bits of the state |
| Mag.MAG.GetCurrentState | src/generators/mag.py:145-147 | exactly n cells, cell i at index i, and sum of cell_i * 2^(r*i) equals the state when it fits in n*r bits |
| Mag.CellsValueLow | src/generators/mag.py:145-147 | repacking the first m cells gives the state modulo 2^(r*m) |
| Mag.MAG.Next | src/generators/mag.py:152-154 | exactly one cycle, returning cell 0 and the whole new state |
| Mag.MAG.DoIdling | src/generators/mag.py:156-166 | a negative count is refused with the state unchanged; 0 runs n cycles and k > 0 runs k cycles |
| Speck.ModMaskIsLowMask | src/algorythms/speck.py:11-14 | the mask 2^16 - 1 is sixteen ones |
| Speck.RotateLeftRight | src/algorythms/speck.py:23-29 | rotating left by k undoes rotating right by k on w-bit words |
| Speck.RotateLeftIsRight | src/algorythms/speck.py:29 | rotating left by k is rotating right by w - k |
| Speck.ShiftsRotate | src/algorythms/speck.py:23 | for an (a+b)-bit x, (x << b) + (x >> a) has disjoint parts (the + is an OR) and masked to a+b bits it is x rotated right by a |
| Speck.RsXIsRotation | src/algorythms/speck.py:23 | rs_x is the 16-bit rotation right by 7, and its + never carries |
| Speck.LsYIsRotation | src/algorythms/speck.py:29 | ls_y is the 16-bit rotation left by 2, and its + never carries |
| Speck.SourceExpressions | src/algorythms/speck.py:23-29 | the masked sum is addition modulo 2^16 of the rotated x and y, and ls_y is the rotation |
| Speck.Words | src/algorythms/speck.py:20-21 | x and y are 16-bit words that recombine into the low 32 bits of the block |
| Speck.BlockWords | src/algorythms/speck.py:20-33 | a block joined from two 16-bit words is below 2^32 and splits back into the same words |
| Speck.WordsOfSpeckRound | src/algorythms/speck.py:25-31 | the new words of a round stay within 16 bits |
| Speck.OneRoundIsSpeckRound | src/algorythms/speck.py:39-61 | for a 16-bit key, one_round_SPECK_32 is the Speck round on the words (high = k XOR ((rotr7 x + y) mod 2^16), low = high XOR rotl2 y) and the result is below 2^32 |
| Speck.OneRoundKeyZero | src/algorythms/speck.py:27 | the round with key 0 is the keyless round and one round of enc_SPECK32_wt_key |
| Speck.RoundLow | src/algorythms/speck.py:20-33 | a round reads only the low 32 bits of its input and returns a 32-bit block |
| Speck.RoundOfWords | src/algorythms/speck.py:20-21 | two blocks with the same words give the same round |
| Speck.RoundsCompose | src/algorythms/speck.py:18-33 | r+1 rounds are one more round after r rounds |
| Speck.RoundsLow | src/algorythms/speck.py:18-35 | for r >= 1, the r-round result is below 2^32 and depends only on the low 32 bits of the plaintext |
| Speck.EncSpeck32WtKey | src/algorythms/speck.py:6-35 | fails exactly when r < 1; otherwise returns the keyless round applied r times |
| Speck.InverseRoundOfRound | src/algorythms/speck.py:18-33 | the inverse round recovers the low 32 bits of the input, so the round is a permutation of 32-bit blocks |
| Speck.InverseOfSpeckRound | src/algorythms/speck.py:25-31 | on the words, the inverse round undoes the keyless round |
| MatrixUtils.NewZeros | src/mixing_matrixes/utils.py:20 | a new rows x cols matrix of zeros |
| MatrixUtils.ChangeColumnOrder | src/mixing_matrixes/utils.py:5-14 | a new matrix of the same shape whose entry (i, j) is the argument's entry (i, cols-1-j) |
| MatrixUtils.ColumnReversedInvolution | src/mixing_matrixes/utils.py:10-12 | reversing the columns twice gives back the matrix |
| MatrixUtils.CastMatrixToIdentityFormat | src/mixing_matrixes/utils.py:17-27 | as written: the argument is saturated in place and the returned new matrix is all zeros of its shape |
| MatrixUtils.CastResultIsNotSaturation | src/mixing_matrixes/utils.py:17-27 | for any matrix with a positive entry, the zeros returned differ from the saturated matrix the docstring promises |
| MatrixUtils.CastAsWritten | src/mixing_matrixes/utils.py:17-27 | the value the cast returns: all zeros, of the argument's shape |
| MatrixUtils.SaturateEntries | src/mixing_matrixes/utils.py:22-25 | a saturated entry is at most 1, positive exactly when the original is, and unchanged when the original is not positive |
| MatrixUtils.SaturateIdempotent | src/mixing_matrixes/utils.py:24-25 | saturating twice is saturating once, and saturation leaves a matrix unchanged exactly when no entry exceeds 1, so casting an already cast argument again leaves it as it is |
| MatrixUtils.CastsKeepShape | src/mixing_matrixes/utils.py:19-20 | the as-written and the intended cast both keep a square matrix's shape |
| MatrixUtils.Copy | src/mixing_matrixes/mixing_properties.py:12 | a new matrix with the same shape and entries |
| MatrixUtils.Add | src/mixing_matrixes/matrixes_generation.py:80 | a new matrix whose entries are the entrywise sums |
| MatrixUtils.RowTimesColumn | src/mixing_matrixes/mixing_properties.py:16 | the dot product of a row of a with a column of b |
| MatrixUtils.MatMul | src/mixing_matrixes/mixing_properties.py:16 | a new matrix equal to the integer product of the two |
| MatrixUtils.DotSingle | src/mixing_matrixes/matrixes_generation.py:87-88 | a row with one nonzero entry c picks row c of the right factor |
| MatrixUtils.DotZero | src/mixing_matrixes/matrixes_generation.py:87-88 | a zero row gives zero |
| MatrixUtils.CopyBlock | src/mixing_matrixes/matrixes_generation.py:92-95 | slice assignment: the block takes the source's entries and every other entry is unchanged |
| MatrixUtils.DigitChar | src/mixing_matrixes/utils.py:36 | the decimal digit character of d |
| MatrixUtils.NatToString | src/mixing_matrixes/utils.py:36 | str of a natural number is a non-empty string of digits |
| MatrixUtils.IntToString | src/mixing_matrixes/utils.py:36 | str of an integer is a non-empty string of digits and a minus sign |
| MatrixUtils.ParseNatToString | src/mixing_matrixes/utils.py:36 | reading the digits back gives the number |
| MatrixUtils.IntToStringRoundTrip | src/mixing_matrixes/utils.py:36 | reading str(x) back gives x, so each entry's text is faithful |
| MatrixUtils.CountAppend | src/mixing_matrixes/utils.py:34-37 | character counts add over concatenation |
| MatrixUtils.CountNumber | src/mixing_matrixes/utils.py:36 | the text of a number holds no space and no newline |
| MatrixUtils.JoinedRowSeparators | src/mixing_matrixes/utils.py:36 | a joined row has no newline and one space between consecutive entries |
| MatrixUtils.PrettyLines | src/mixing_matrixes/utils.py:34-37 | the text has one newline per row, cols-1 spaces per row, and ends with a newline |
| MatrixUtils.MakePrettyMatrix | src/mixing_matrixes/utils.py:30-37 | the text is the rows joined by single spaces, each row ended by a newline |
| MatrixGeneration.Eye | src/mixing_matrixes/matrixes_generation.py:26 | a new r x r identity matrix |
| MatrixGeneration.MmlrMatrix | src/mixing_matrixes/matrixes_generation.py:18-21 | the register's matrix is (n*r) x (n*r) |
| MatrixGeneration.ShiftStep | src/mixing_matrixes/matrixes_generation.py:30-39 | writing one more identity block changes only that block |
| MatrixGeneration.TapStep | src/mixing_matrixes/matrixes_generation.py:43-46 | writing one more tap block changes only that block |
| MatrixGeneration.WriteShiftBlocks | src/mixing_matrixes/matrixes_generation.py:30-39 | the zero matrix receives the identity blocks below the block diagonal |
| MatrixGeneration.WriteTapBlocks | src/mixing_matrixes/matrixes_generation.py:43-46 | each tap's row block in the last column block receives mt, later taps written over earlier ones |
| MatrixGeneration.ConstructMatrixMmlr | src/mixing_matrixes/matrixes_generation.py:9-51 | fails exactly when mt is not r x r; otherwise a new matrix equal to the register's block matrix |
| MatrixGeneration.MmlrShiftBlock | src/mixing_matrixes/matrixes_generation.py:30-39 | for i in [0, n-2], the block at rows (i+1)r.. and columns ir.. is the identity |
| MatrixGeneration.MmlrTapBlock | src/mixing_matrixes/matrixes_generation.py:43-46 | for each tap p, the block at rows pr.. in the last column block equals mt |
| MatrixGeneration.MmlrZeroElsewhere | src/mixing_matrixes/matrixes_generation.py:21-46 | every nonzero entry lies in a shift block or a tap block |
| MatrixGeneration.MmlrSingleCell | src/mixing_matrixes/matrixes_generation.py:9-51 | a one-cell register tapped at 0 has mt itself as its matrix |
| MatrixGeneration.BetaColumn | src/mixing_matrixes/matrixes_generation.py:71 | the column of row i's one in the beta shift is inside the block |
| MatrixGeneration.AlphaColumn | src/mixing_matrixes/matrixes_generation.py:85 | the column of row i's one in the alpha shift is inside the block |
| MatrixGeneration.TriangularEntry | src/mixing_matrixes/matrixes_generation.py:73-76 | triangular entry (i, j) is 1 exactly when i + j < half_size, and 0 otherwise |
| MatrixGeneration.OnesOneHot | src/mixing_matrixes/matrixes_generation.py:69-71 | a row with a single one has exactly one one |
| MatrixGeneration.ShiftRowsOneHot | src/mixing_matrixes/matrixes_generation.py:69-85 | each row of either shift block has exactly one 1, and different rows put it in different columns |
| MatrixGeneration.ShiftBlocksArePermutations | src/mixing_matrixes/matrixes_generation.py:59-85 | for every accepted size, with its alpha and beta, both shift blocks are permutation matrices |
| MatrixGeneration.NewLeftBetaShift | src/mixing_matrixes/matrixes_generation.py:69-71 | a new matrix with a one in row i at column (-(i+1) - beta + h) mod h, zeros elsewhere |
| MatrixGeneration.NewRightAlphaShift | src/mixing_matrixes/matrixes_generation.py:83-85 | a new matrix with a one in row i at column (-(i+1) + alpha + h) mod h, zeros elsewhere |
| MatrixGeneration.NewTriangular | src/mixing_matrixes/matrixes_generation.py:73-76 | a new matrix with ones in row i at columns 0..h-i-1 |
| MatrixGeneration.Assemble | src/mixing_matrixes/matrixes_generation.py:90-95 | a new 2h x 2h matrix with the four blocks in place |
| MatrixGeneration.BottomPicksRow | src/mixing_matrixes/matrixes_generation.py:87-88 | row i of the bottom block is the triangular row selected by row i's one in the reversed alpha shift |
| MatrixGeneration.SpeckBottomEntry | src/mixing_matrixes/matrixes_generation.py:87-88 | bottom block entry (i, j) is 1 exactly when j <= the column of row i's one in the alpha shift |
| MatrixGeneration.ReversedAssembledEntry | src/mixing_matrixes/matrixes_generation.py:90-100 | entry (x, y) of the column-reversed assembly, block by block |
| MatrixGeneration.BuildSpeckMatrix | src/mixing_matrixes/matrixes_generation.py:69-100 | the builder's steps yield the column-reversed assembly whose top-right block is the cast's zeros |
| MatrixGeneration.ConstructMatrixSpeck | src/mixing_matrixes/matrixes_generation.py:54-100 | fails exactly when size is not 32, 48, 64, 96 or 128; otherwise a new size x size matrix equal to the one-round Speck matrix, with alpha 7, beta 2 for size 32 and 8, 3 otherwise |
| MatrixGeneration.SpeckMatrixEntry | src/mixing_matrixes/matrixes_generation.py:54-100 | closed form of every entry of the returned matrix (stated for every even size, so for the five block sizes): top half is 1 exactly at y >= x + h, bottom half follows the alpha shift |
| MatrixGeneration.SpeckTopLeftZero | src/mixing_matrixes/matrixes_generation.py:80-100 | because the cast returns zeros, the returned matrix's top-left quarter is all zero |
| MatrixGeneration.IntendedTopRightEntry | src/mixing_matrixes/matrixes_generation.py:80-81 | the intended top-right block has a 1 exactly at the beta column or inside the triangle |
| MatrixGeneration.IntendedSpeckTopLeft | src/mixing_matrixes/matrixes_generation.py:78-100 | with the intended cast, the returned matrix's top-left quarter is the reversed saturated sum of beta shift and triangle |
| MatrixGeneration.CastPower | src/mixing_matrixes/matrixes_generation.py:111-113 | the k-th cast power of a square matrix is square of the same size |
| MatrixGeneration.CastPowerAsWritten | src/mixing_matrixes/matrixes_generation.py:111-113 | with the cast as written, every power from 2 on is all zeros |
| MatrixGeneration.DotNonNegative | src/mixing_matrixes/matrixes_generation.py:112 | a dot product of non-negative entries is non-negative |
| MatrixGeneration.ProductNonNegative | src/mixing_matrixes/matrixes_generation.py:112 | a product of non-negative matrices is non-negative |
| MatrixGeneration.CastPowerIntendedIsBoolean | src/mixing_matrixes/matrixes_generation.py:111-113 | with the intended cast, every power of a 0/1 matrix is a 0/1 matrix |
| MatrixGeneration.CastPowers | src/mixing_matrixes/matrixes_generation.py:111-113 | the loop leaves the pow-th cast power of the one-round matrix |
| MatrixGeneration.ConstructMixingMatrixPowSpeck | src/mixing_matrixes/matrixes_generation.py:103-118 | fails for pow < 1, then for an unsupported size; otherwise a new matrix equal to the pow-th cast power of the Speck matrix |
| MatrixGeneration.SpeckPowerValues | src/mixing_matrixes/matrixes_generation.py:103-118 | the result is the one-round matrix for pow = 1 and all zeros for pow >= 2 |
| MixingProperties.Yielded | src/mixing_matrixes/mixing_properties.py:12-16 | the k-th yielded matrix is square of the same size |
| MixingProperties.YieldedAsWrittenIsZero | src/mixing_matrixes/mixing_properties.py:12-16 | with the cast as written, every yielded matrix is all zeros |
| MixingProperties.PowMatrixGen.constructor | src/mixing_matrixes/mixing_properties.py:8-12 | a generator over the given square matrix that has yielded nothing |
| MixingProperties.PowMatrixGen.Next | src/mixing_matrixes/mixing_properties.py:8-16 | the k-th call returns a new matrix equal to the k-th yielded matrix and leaves the caller's matrix unchanged |
| MixingProperties.LocalEmptyRange | src/mixing_matrixes/mixing_properties.py:43-51 | an empty column range always passes the local check |
| MixingProperties.LocalFullRangeIsFull | src/mixing_matrixes/mixing_properties.py:19-51 | on a square matrix, the local check over [0, size) is the full check |
| MixingProperties.SearchLength | src/mixing_matrixes/mixing_properties.py:33-39 | at least one power is tested |
| MixingProperties.FirstPassing | src/mixing_matrixes/mixing_properties.py:33-40 | the answer is -1 or a 1-based position in the list |
| MixingProperties.FirstPassingIsFirst | src/mixing_matrixes/mixing_properties.py:33-40 | -1 exactly when no check passes; otherwise the check at the answer passes and no earlier one does |
| MixingProperties.FirstPassingAt | src/mixing_matrixes/mixing_properties.py:33-40 | the first passing position is the answer |
| MixingProperties.FirstPassingNone | src/mixing_matrixes/mixing_properties.py:33-40 | no passing position gives -1 |
| MixingProperties.FirstPassingPrefix | src/mixing_matrixes/mixing_properties.py:33-40 | a found answer does not change when more checks are appended |
| MixingProperties.FullChecks | src/mixing_matrixes/mixing_properties.py:34-35 | one check result per yielded matrix |
| MixingProperties.LocalChecks | src/mixing_matrixes/mixing_properties.py:58-59 | one local check result per yielded matrix |
| MixingProperties.FullCheckAt | src/mixing_matrixes/mixing_properties.py:34-35 | check j is the full check of the j-th yielded matrix |
| MixingProperties.NextFullyMixed | src/mixing_matrixes/mixing_properties.py:34-35 | advances the generator once and reports the full check of the new power |
| MixingProperties.NextLocallyMixed | src/mixing_matrixes/mixing_properties.py:58-59 | advances the generator once and reports the local check of the new power |
| MixingProperties.GetExponent | src/mixing_matrixes/mixing_properties.py:30-40 | returns the search's answer: -1 or a value in [1, max(1, max_rounds)] |
| MixingProperties.GetLocalExponent | src/mixing_matrixes/mixing_properties.py:54-64 | returns the local search's answer: -1 or a value in [1, max(1, max_rounds)] |
| MixingProperties.ExponentAt | src/mixing_matrixes/mixing_properties.py:30-40 | the first power in range that passes is the exponent |
| MixingProperties.ExponentNone | src/mixing_matrixes/mixing_properties.py:30-40 | no power in range passing gives -1 |
| MixingProperties.LocalExponentAt | src/mixing_matrixes/mixing_properties.py:54-64 | the first power in range that passes the local check is the local exponent |
| MixingProperties.LocalExponentNone | src/mixing_matrixes/mixing_properties.py:54-64 | no power in range passing the local check gives -1 |
| MixingProperties.ExponentIsFirstMixed | src/mixing_matrixes/mixing_properties.py:30-40 | the exponent is -1 exactly when no power in range is fully mixed; otherwise that power is fully mixed and no earlier one is |
| MixingProperties.ExponentFound | src/mixing_matrixes/mixing_properties.py:34-36 | a found exponent k is in range, the k-th power passes and no earlier one does |
| MixingProperties.FirstMixedAt | src/mixing_matrixes/mixing_properties.py:34-36 | the first passing check is the first fully mixed power |
| MixingProperties.ExponentNotFound | src/mixing_matrixes/mixing_properties.py:37-40 | -1 means no power in range is fully mixed |
| MixingProperties.ExponentStable | src/mixing_matrixes/mixing_properties.py:30-40 | a found exponent k stays the answer for every max_rounds >= k |
| MixingProperties.ExponentAsWritten | src/mixing_matrixes/mixing_properties.py:30-40 | with the cast as written, the exponent of any non-empty square matrix is -1 |
| MixingProperties.LocalExponentAsWritten | src/mixing_matrixes/mixing_properties.py:54-64 | with the cast as written, the local exponent over any non-empty column range is -1 |
| MixingProperties.ExponentOfEmpty | src/mixing_matrixes/mixing_properties.py:19-27 | the empty matrix passes at power 1 |
| MixingProperties.ExponentOfPositiveMatrix | src/mixing_matrixes/mixing_properties.py:30-40 | a matrix with all entries positive has exponent 1 under the intended cast and -1 as written |
| PerfectionCheck.GenRandomSamples | src/perfection_properties/perfection_check.py:7-14 | num samples (none when num < 0), sample k being the k-th draw, each in [0, 2^n - 1] |
| PerfectionCheck.NeighborBits | src/perfection_properties/perfection_check.py:17-26 | first has bit i set and second has it cleared, both agree with x on every other bit, first XOR second = 2^i, and x is one of the two |
| PerfectionCheck.NeighborsBelow | src/perfection_properties/perfection_check.py:17-26 | both neighbours of an m-bit x along a bit below m are m-bit numbers |
| PerfectionCheck.InFootprint | src/perfection_properties/perfection_check.py:67-70 | both registers of every pair belong to the footprint |
| PerfectionCheck.SeparateAppend | src/perfection_properties/perfection_check.py:67-70 | appending a list of new pairs keeps all registers distinct |
| PerfectionCheck.AllRunAppend | src/perfection_properties/perfection_check.py:63-64 | appending a list of pairs built with the same configuration keeps every register on that configuration |
| PerfectionCheck.PairRunStart | src/perfection_properties/perfection_check.py:61-64 | before any round, a pair holds the two neighbours |
| PerfectionCheck.NeighborGenerators | src/perfection_properties/perfection_check.py:58-71 | one pair per sample, of new distinct registers with the given configuration, pair j starting at the bit-i neighbours of sample j |
| PerfectionCheck.AppendNeighborRow | src/perfection_properties/perfection_check.py:54-71 | appends list i of new pairs and keeps the earlier lists, their registers and their states |
| PerfectionCheck.ValidateInitState | src/generators/mag.py:81-106 | once r, n and the taps pass, the constructor rejects an initial state exactly when it needs more than n*r bits |
| PerfectionCheck.GeneratorsFailureIsFirstRejection | src/perfection_properties/perfection_check.py:54-64 | the builder's failure is empty exactly when every construction its loops make is accepted; otherwise it is the error of the first rejected construction in loop order |
| PerfectionCheck.NeighborRows | src/perfection_properties/perfection_check.py:49-73 | with every construction accepted, n*r lists of len(samples) pairs of new, distinct registers on the configuration, pair j of list i starting at the bit-i neighbours of samples[j] |
| PerfectionCheck.GetGenClassGenerators | src/perfection_properties/perfection_check.py:29-73 | raises the first rejected construction's error; otherwise max(0, n*r) lists of len(samples) pairs of new, distinct registers (empty lists, no register, when n*r <= 0 or there are no samples); with registers, pair j of list i starts at the bit-i neighbours of samples[j] |
| PerfectionCheck.AdvancePair | src/perfection_properties/perfection_check.py:92-97 | both registers of the pair advance one cycle, and their new states are returned |
| PerfectionCheck.AdvanceAt | src/perfection_properties/perfection_check.py:92-97 | the pair at (i, j) advances one cycle and every other pair keeps its states |
| PerfectionCheck.AdvanceRow | src/perfection_properties/perfection_check.py:91-98 | the first count pairs of list i advance once each, in order, and every other pair keeps its states |
| PerfectionCheck.GetNextGensStates | src/perfection_properties/perfection_check.py:76-99 | every pair in the first n lists and first samples_num columns advances exactly once and its new whole states are recorded; no other pair moves |
| PerfectionCheck.CheckCurrentRound | src/perfection_properties/perfection_check.py:102-136 | true exactly when, for every bit position below n, the OR over samples of first XOR second is 2^n - 1 |
| PerfectionCheck.AccumulatedBit | src/perfection_properties/perfection_check.py:119-129 | bit b of the accumulated OR is set exactly when some sample's pair differs in bit b |
| PerfectionCheck.AccumulatedBelow | src/perfection_properties/perfection_check.py:119-129 | the accumulated OR of n-bit states is an n-bit number |
| PerfectionCheck.RowCoveredMeaning | src/perfection_properties/perfection_check.py:115-133 | the accumulated OR equals 2^n - 1 exactly when every bit below n is flipped by some sample |
| PerfectionCheck.NoSamplesNotPerfect | src/perfection_properties/perfection_check.py:115-136 | with no samples and n >= 1, no round is perfect |
| PerfectionCheck.StatesAfter | src/perfection_properties/perfection_check.py:173-175 | the recorded states of round k: list i, column j is the pair for sample j along bit i after k rounds |
| PerfectionCheck.NextRound | src/perfection_properties/perfection_check.py:173-175 | one round advances every pair once and records the states of the next round |
| PerfectionCheck.PerfectRoundFromIsFirst | src/perfection_properties/perfection_check.py:173-179 | the search from a round returns the first later perfect round up to max_rounds, or -1 when there is none |
| PerfectionCheck.PerfectionPowerIsFirst | src/perfection_properties/perfection_check.py:139-179 | the power is -1 exactly when no round in [1, max_rounds] is perfect; otherwise it is the first perfect round |
| PerfectionCheck.SearchWithoutRegisters | src/perfection_properties/perfection_check.py:173-179 | with no register (n*r = 0 or no samples) the rounds still run: 1 when n*r = 0 and max_rounds >= 1, since a test over zero bits passes; otherwise -1, since no samples never pass |
| PerfectionCheck.SearchRounds | src/perfection_properties/perfection_check.py:173-179 | over registers started at the neighbours, the round loop returns the perfection power of the configuration for the samples |
| PerfectionCheck.GetGenClassPerfectionPower | src/perfection_properties/perfection_check.py:139-179 | raises for n*r < 0 (in the sample draw) and with the builder's error; returns 1 or -1 as above without registers; otherwise the perfection power of the accepted configuration for the samples |
| PerfectionCheck.PerfectAtMeaning | src/perfection_properties/perfection_check.py:173-177 | round k is perfect exactly when, for every input bit i and every state bit b, some sample's pair along bit i differs in bit b after k rounds |
| PerfectionCheck.PerfectionPowerNoSamples | src/perfection_properties/perfection_check.py:139-179 | with no samples, the power is -1 |
| PerfectionCheck.SpeckModifierKeepsWideCells | src/perfection_properties/api.py:41 | the program's modifying function, one keyless Speck round, keeps r-bit values within r bits when r >= 32 |
| PerfectionCheck.SpeckModifierLeavesNarrowCells | src/perfection_properties/api.py:41 | for 1 <= r <= 16 it does not: the cell value 1 becomes 0x10005 |

## Left out

- Mag.MAG.constructor: requires accepted arguments instead of raising. `Mag.MAG.Create` models the raising constructor: it returns the failure that the checks in `Validate` pick.
- Bits.BitsNumber: exact bit length. The source's floating-point `floor(log2(x)) + 1` can misreport for very large integers, and that is not modelled.
- Mag.NumsAddMod: requires a non-empty list. The source fails on an empty one by indexing `nums[0]`.
- Mag.MAG.DoCycle: the modifying function is a `nat -> nat` function. A callable returning negative numbers, raising, or keeping state is not modelled.
- Speck.EncSpeck32WtKey: the plaintext is a natural number. Python's behaviour on negative plaintexts is not modelled.
- The keyed 22-round Speck32/64 test vector in the comment at src/algorythms/speck.py:1-4 is not stated. It needs a key schedule that the keyless functions do not have.
- numpy details are not modelled: dtypes, overflow of fixed-width integers, and negative or out-of-range indices.
- MatrixGeneration.ConstructMatrixMmlr: requires every tap in [0, n). numpy raises or wraps around for other taps.
- MatrixGeneration.ConstructMatrixMmlr: n is a natural number. For a negative n the source raises in `np.zeros` when r > 0 and builds an empty matrix when r = 0.
- Mag.FormNumsList: r, the state and the positions are natural numbers. The source raises on the negative shift for a negative r or position. Its only caller passes a register's checked fields.
- MixingProperties.GetExponent: requires a square matrix. For any other shape the source returns 1 when the matrix has no rows and raises on `m[0, 0]` when it has rows but no columns. Otherwise it returns -1 for max_rounds <= 1 and raises in the matrix product for max_rounds >= 2. The same holds for `MixingProperties.GetLocalExponent`, which also returns 1 for an empty column range. Every builder passes a square matrix.
- MixingProperties.GetLocalExponent: requires the column range to lie inside the matrix when it is non-empty. numpy raises or wraps around for other ranges.
- MatrixUtils.MakePrettyMatrix: the exception for input that is not two-dimensional cannot happen for an `array2`.
- `write_matrix_pretty` (src/mixing_matrixes/utils.py:40-43) and the `filename` parameters of the builders write files. They are left out.
- PerfectionCheck.GenRandomSamples: `randint` becomes a `draw` function parameter. The model states only that the values are in range.
- PerfectionCheck.GetGenClassPerfectionPower: takes the samples rather than their number. The samples come from `GenRandomSamples`, so they fit in n*r bits.
- PerfectionCheck.GetGenClassGenerators: decides its failure before the loops. The source raises at the first rejected construction, after building the registers before it. Those registers are dropped with the exception, so the outcome is the same.
- PerfectionCheck.PerfectAtMeaning: requires a modifying function that keeps r-bit values within r bits. The program's only one, `enc_SPECK32_wt_key` with one round, does so for r >= 32 and not for r <= 16. For smaller r the states grow past n*r bits, and the unmasked comparison in `check_current_round` also sees the bits above n*r. Cells of 17 to 31 bits are not settled either way.
- PerfectionCheck.GetGenClassGenerators: builds MAG registers only. src/generators/mmlr.py is not part of this model, so the `GEN_class` choice of the MMLR register is not modelled.
- Python generator objects and the iterator protocol become explicit `Next` methods. A generator's lazy start is not modelled.
- Aliasing between the caller's objects and the registers is limited to what `Separate` and the footprint state.
- The command-line wrappers (src/mixing_matrixes/api.py, src/perfection_properties/api.py), main.py and the settings loader in utils.py are I/O and are not modelled.

## Findings

| source | as written | input that shows it | evidently intended | confidence | as-written member | corrected member |
|---|---|---|---|---|---|---|
| src/mixing_matrixes/utils.py:17-27 | saturates the argument in place and returns a new all-zero matrix | `[[2]]`: the result is `[[0]]` and the argument becomes `[[1]]` | return the matrix with every positive entry replaced by 1 | not executed | MatrixUtils.CastResultIsNotSaturation | MatrixUtils.SaturateEntries |
| src/mixing_matrixes/matrixes_generation.py:80-81 | the top-right block is the cast's zeros, so the returned matrix's top-left quarter is zero | size 32: entry (0, 0) of the result is 0 | that block is the saturated sum of the beta shift and the triangle, so entry (0, 0) is 1 | not executed | MatrixGeneration.SpeckTopLeftZero | MatrixGeneration.IntendedSpeckTopLeft |
| src/mixing_matrixes/matrixes_generation.py:111-113 | every power from 2 on is the cast's zeros | pow 2, size 32: the result is all zeros | the saturated power, a 0/1 matrix | not executed | MatrixGeneration.SpeckPowerValues | MatrixGeneration.CastPowerIntendedIsBoolean |
| src/mixing_matrixes/mixing_properties.py:12-16 | every yielded matrix is zero, so both exponents are -1 for every non-empty matrix | `get_exponent([[1]], 1)` gives -1 | the exponent of `[[1]]` is 1 | not executed | MixingProperties.ExponentAsWritten | MixingProperties.ExponentOfPositiveMatrix |
