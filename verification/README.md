# Verified core of the MakeMKV open-source libraries

This project models, in Dafny 4.11, the parts of the repository whose correctness rests on more
than one function, and proves what they are for:

- **Elliptic curves and ECDSA** (`libabi/pssl`): Montgomery field values, Jacobian point formulas
  that may write into their inputs, batch conversion to affine form over a heap of products, the
  modified signed-window recoding of scalars, precomputed tables, the interleaved multiplication
  loop with its lazily negated accumulator, and signing and verification on top of it.
- **Channel mixing** (`libffabi`): the optimiser that drops silent and pass-through channels from a
  mixing matrix, the in-place fixed-point mixer, and the normalisation of the matrix.
- **Matroska and EBML** (`libmatroska`, `libebml`): coded sizes, block lacing, trees of elements
  that predict and render their sizes, replacement of void elements, and the CRC-32.
- **UTF-8 and UTF-16** (`libmmbd`): both converters with their dry-run mode.

`dafny verify dfyconfig.toml` checks everything.

## How it is organised

| files | subject |
|---|---|
| `Modular`, `Power`, `Bytes`, `Wrappers` | congruences, modular inverse, powers of two, big-endian numbers |
| `Field`, `Curve`, `ChordTangent`, `Jacobian` | field values in Montgomery form, the affine group operation, the Jacobian formulas as functions and their correctness |
| `EcPoint`, `BatchInversion` | the point objects and the methods that change them |
| `Wnaf`, `Multiples`, `Interleave`, `WnafSplit`, `OddMultiples`, `EcMult`, `PrimeOrder`, `ShortOrder`, `SmallCurve`, `ThreePoints` | scalar multiplication |
| `Digest`, `Ecdsa` | signatures |
| `MixSpec`, `AudioMix`, `MixRun`, `MixMatrix`, `MixAll` | mixing |
| `EbmlSize`, `EbmlTree`, `EbmlDefaults`, `ByteStream`, `EbmlMaster`, `EbmlVoid`, `Crc32`, `CrcResidue` | EBML |
| `Lacing`, `LacingProofs`, `LacingChoice`, `LacingBytes`, `LacingGrammar`, `LacingShift`, `LacingTrack128`, `BlockRoundTrip`, `KaxBlock` | Matroska blocks |
| `Utf`, `UtfOrder`, `UtfProofs`, `UtfConvert` | text conversion |

Code that changes state is modelled by classes and methods. Each method is proved against a
function of its inputs or of the old state, and the properties of the system are proved about that
function: `KaxBlock.KaxInternalBlock.RenderData` writes exactly `Lacing.Rendered`, `ReadData` finds
exactly `Lacing.Parse`, and `BlockRoundTrip.RoundTripIff` says when the one undoes the other. What
such a function itself should be is stated apart from its body: `LacingBytes` describes the written
bytes bit by bit, `LacingGrammar.ReadsExactly` the blocks that are accepted, `ChordTangent` the sum of
points by the line through them, `MixSpec.Shifted` a mixed sample by the exact sum, `EbmlDefaults`
what may be left out of a tree, and `CrcResidue` the stored checksum by the register it leaves.

Curve associativity is the hypothesis `Multiples.IsGroup`; closure, commutativity, the neutral
element and inverses are proved. Primality of the field and of the group order are hypotheses.
`SmallCurve.SmallIsGroup` shows that these hypotheses can be met, on a curve of seven points.

## What was found

Some statements hold only under a condition that the source does not check. Each has a lemma with
the exact condition, and an input for which the statement fails.

- Batch conversion to affine form keeps the points' values if and only if no node of the product
  tree has a zero left child and a non-zero right child (`BatchInversion.MakeAffineIff`); infinity in
  front of a finite point loses that point (`SmallCurve.GapLosesPoint`). `ResultByFate` gives the
  result of every point in every case: below the right side of a gap points become infinity, and on
  the left side leftover coordinates take the place of infinity. Points at infinity behind all others
  do no harm (`SuffixHasNoGap`).
- So a scalar multiplication is the plain Horner scheme over converted tables (`EcMult.WnafMul`), and
  the sum that is asked for if no selected entry was changed. Arguments can change them
  (`SmallCurve.TablesNotClean`, `SumIsLost`); points of a large enough prime order cannot. The precomputed table of
  a generator of prime order is right exactly if that order is not 3, 5 or 13
  (`ShortOrder.PrecomputedCleanIff`, `ThreePoints.TableNotClean`).
- The size predicted for a block and the bytes written differ exactly for track number 0x80, for Xiph
  sizes of 65536 and more, and for blocks without frames on tracks of two bytes
  (`LacingProofs.PredictedIsRendered`, `LacingChoice.Track128SizeDiffers`, `XiphSizeDiffers`,
  `EmptySizeDiffers`).
- For track 0x80 the source tests `> 0x80` in one place and `>= 0x80` in another, and writes no flags
  byte. The reader then takes the count of the frames for the flags and everything behind it one byte
  late. What it reads back nevertheless are exactly the invisible EBML laces of 192 frames, all but
  the last of 63 bytes and the first starting with a zero byte, which in a simple block are
  discardable keyframes (`LacingTrack128.SurvivesIff`); `OneFrameIsLost`, `FixedIsLost` and
  `XiphIsLost` are inputs that are lost.
- EBML lacing loses exactly the blocks with an empty frame before the last one. Size differences
  outside the range of the signed code are read 2^35 too large, but the conversion of the running
  size to 32 bits removes that again. The automatic choice of a lacing can pick EBML lacing for an
  empty frame (`LacingChoice.BestReadableIff`, `BestCanBeUnreadable`), and never picks Xiph lacing for
  a size that is too large (`BestXiphFits`).
- The reader accepts exactly the blocks of a grammar (`LacingGrammar.ReadsExactly`). Unlike section
  10.3 of RFC 9559 it takes a size code that goes on behind the end of the data for a code of no bytes
  (`UnfinishedCodeIsRead`), compares sizes as signed 32-bit numbers, and refuses empty frames in an EBML
  lace, except the last.
- What replaces a void element fits exactly if nothing is left to fill, or the element is rendered and
  at most 2^35 + 4 bytes are left (`EbmlVoid.FitsExactlyIff`). An element that is skipped, because it
  holds its default value, is counted but not written: the filler then ends too early
  (`SkippedLeavesStray`), except where the element was thought to need the whole void, which then is
  left as it was.
- `isLegalUTF8` accepts, besides the grammar of RFC 3629, a second byte below 0x80 after 0xED and
  0xF4 (`Utf.LegalIff`); what it accepts still decodes to scalar values only, but encoding these gives
  other bytes (`UtfProofs.AcceptedNotRestored`).
- The prefix that `ConvertUTF16toUTF8` has consumed is a string with the same conversion, wherever
  the target ends, exactly in strict mode or if no high surrogate of the source stands in front of a
  unit that is not a low one (`UtfProofs.PrefixAlone16Iff`); D800 0041 is a source for which it is not
  (`PrefixNotAlone`).
- The mixer's accumulator is safe for all samples exactly if the extreme sums of a row's coefficients
  fit into 64 bits (`MixMatrix.NeverWrapsIff`); normalised rows always do.

## Model

| member | source | states |
|---|---|---|
| Field.DecodeMul | libabi/pssl/ecp_mont.c:213-222 | Montgomery multiplication is multiplication of the residues that are represented |
| Field.DecodeEncode | libabi/pssl/ecp_mont.c:237-258 | decoding an encoded residue gives it back |
| Field.DecodeOne | libabi/pssl/ecp_mont.c:261-270 | the stored unit represents one |
| Field.DecodeHalve | libabi/pssl/ecp_smpl.c:516-521 | adding the modulus to an odd value and shifting right divides the represented residue by two and stays below the modulus |
| Modular.InvCorrect | libabi/pssl/ecp_smpl.c:338-342 | the modular inverse, for every residue prime to the modulus |
| Curve.AddClosed | libabi/pssl/ecp_smpl.c:374-531 | chord and tangent results lie on the curve |
| Curve.AddComm | libabi/pssl/ecp_smpl.c:374-531 | the affine addition is commutative |
| Curve.AddInfinity | libabi/pssl/ecp_smpl.c:456-475 | a sum is infinity exactly for opposite points |
| Curve.NegSum | libabi/pssl/ec_mult.c:647-668 | the sum of the opposite points is the opposite of the sum, for any coordinates, on the curve or not; this is what lets the accumulator be negated late |
| ChordTangent.SumIsThirdPoint | libabi/pssl/ecp_smpl.c:374-531 | without division: a point is the finite sum exactly if its opposite is the third point at which the chord or tangent meets the curve |
| Jacobian.JacDblCorrect | libabi/pssl/ecp_smpl.c:534-644 | doubling in Jacobian coordinates is the tangent result, for a = -3 and general a, Z one or not, Y zero and infinity; coordinates stay reduced, and the flag for Z = 1 stays truthful |
| Jacobian.JacAddCorrect | libabi/pssl/ecp_smpl.c:374-531 | addition in Jacobian coordinates is the chord or tangent result in every branch, with reduced coordinates and a truthful flag, for any contents with a flag that is truthful where Z is not zero |
| Jacobian.JacNegCorrect | libabi/pssl/ecp_smpl.c:647-654 | negating Y gives the opposite point |
| Jacobian.JacCmpCorrect | libabi/pssl/ecp_smpl.c:663-766 | comparison returns zero exactly for equal affine values, without inverting |
| Jacobian.GetAffineCorrect | libabi/pssl/ecp_smpl.c:288-371 | the coordinates returned are those of the affine value |
| Jacobian.SetAffineCorrect | libabi/pssl/ecp_smpl.c:217-285 | a point set from coordinates has exactly these, with Z = 1 |
| EcPoint.Add | libabi/pssl/ecp_smpl.c:374-531 | the method leaves the sum in r, and changes nothing else, also when r is one of the inputs |
| EcPoint.Dbl | libabi/pssl/ecp_smpl.c:534-644 | the method leaves the double in r, also when r is the input |
| EcPoint.Invert | libabi/pssl/ecp_smpl.c:647-654 | the point becomes its opposite |
| EcPoint.Cmp | libabi/pssl/ecp_smpl.c:663-766 | zero exactly for equal values |
| EcPoint.GetAffineCoordinates | libabi/pssl/ecp_smpl.c:288-371 | refuses infinity only; otherwise returns the coordinates of the value |
| EcPoint.SetAffineCoordinates | libabi/pssl/ecp_smpl.c:217-285 | the point has the given coordinates |
| EcPoint.SetCurve | libabi/pssl/ecp_smpl.c:119-167 | refuses exactly the even moduli and those up to three; otherwise stores the reduced coefficients and a truthful flag for a = -3, which makes a valid curve if the modulus is prime |
| EcPoint.EcPoint.Copy | libabi/pssl/ecp_smpl.c:198-206 | all four fields are copied |
| BatchInversion.DownByFate | libabi/pssl/ecp_smpl.c:830-889 | after both sweeps, for every input, every node ends by its fate: one without a gap above it holds the inverse of the product it held, one below the right side of a gap holds zero, and the leftmost path below the left side holds one, in Montgomery form |
| BatchInversion.ResultByFate | libabi/pssl/ecp_smpl.c:798-911 | the result for every point and every input: its value is kept if no gap stands above it, it becomes infinity below the right side of a gap, and at the leftmost leaf below the left side leftover X and Y take the place of infinity |
| BatchInversion.ResultWithoutGap | libabi/pssl/ecp_smpl.c:798-911 | without a gap every finite point keeps its value and gets Z = 1, and infinity is untouched |
| BatchInversion.MakeAffineIff | libabi/pssl/ecp_smpl.c:798-911 | all values are kept if and only if the tree has no gap |
| BatchInversion.GapZeroes | libabi/pssl/ecp_smpl.c:874-889 | a gap turns the right subtree to zero |
| BatchInversion.SuffixHasNoGap | libabi/pssl/ecp_smpl.c:798-889 | points at infinity behind all finite ones leave no gap, for every number of points |
| BatchInversion.LeavesAreLeast | libabi/pssl/ecp_smpl.c:798-804 | the heap has the least power of two of leaves that is not below the number of points |
| SmallCurve.GapLosesPoint | libabi/pssl/ecp_smpl.c:874-889 | a case with a gap: infinity in front of a finite point, whose value is lost |
| BatchInversion.SweepUp | libabi/pssl/ecp_smpl.c:830-855 | each node becomes the product of its children |
| BatchInversion.SweepDown | libabi/pssl/ecp_smpl.c:874-889 | each node becomes the inverse it should hold, in place |
| BatchInversion.InvertRoot | libabi/pssl/ecp_smpl.c:857-872 | one inversion, corrected by two encodings |
| BatchInversion.PointsMakeAffine | libabi/pssl/ecp_smpl.c:769-931 | the method leaves in every point the result of the tree computation |
| Wnaf.ComputeWnaf | libabi/pssl/ec_mult.c:182-302 | for widths 1 to 7 the digits represent the scalar, are zero or odd and below 2^w, keep their distances, and fit the buffer; no consistency error occurs; other widths are refused |
| Wnaf.StepWritten | libabi/pssl/ec_mult.c:235-289 | one round of the loop keeps value, digit range and distances |
| Wnaf.StepSpacing | libabi/pssl/ec_mult.c:174-181 | a new digit keeps w zeros before it, or w - 1 if it is the last |
| Wnaf.DigitCases | libabi/pssl/ec_mult.c:241-272 | the chosen digit is odd, small, and makes the window a multiple of 2^(w+1), or of 2^w at the end |
| Wnaf.ZeroWnaf | libabi/pssl/ec_mult.c:191-201 | zero has the single digit zero |
| Multiples.MulAdd | libabi/pssl/ec_mult.c:329-334 | integer multiples add up, for all signs |
| Multiples.MulMul | libabi/pssl/ec_mult.c:329-334 | multiples of multiples |
| Multiples.LinCombConcat | libabi/pssl/ec_mult.c:416-440 | a sum of products splits into those of two lists |
| Interleave.AddDigit | libabi/pssl/ec_mult.c:640-670 | one digit adds its table entry, whatever that holds, to the sum that the accumulator stands for, whatever its two flags say |
| Interleave.OneRound | libabi/pssl/ec_mult.c:636-673 | one pass over all digit lists adds the entries for one position, in order |
| Interleave.InterleavedSum | libabi/pssl/ec_mult.c:627-683 | whatever the tables hold, the nested loops with lazy negation leave the result of the plain Horner scheme over them |
| Interleave.HornerIsSum | libabi/pssl/ec_mult.c:627-683 | if every selected entry is the multiple that its digit stands for, the plain scheme is the sum of value(wNAF i) times point i |
| Interleave.HornerTop | libabi/pssl/ec_mult.c:627-683 | starting the plain scheme above all digits changes nothing |
| WnafSplit.SplitSum | libabi/pssl/ec_mult.c:463-560 | the blocks of a wNAF, paired with 2^(8b) G, sum to the whole |
| WnafSplit.SplitWnaf | libabi/pssl/ec_mult.c:515-560 | the blocks are consecutive pieces, the last one shorter or longer, each with its slice of the table, and no error exit is reached |
| WnafSplit.ValueConcat | libabi/pssl/ec_mult.c:515-560 | the value of a digit list split in two |
| OddMultiples.FiniteConvertsCleanly | libabi/pssl/ec_mult.c:622-625 | tables without infinity survive the conversion to affine form |
| OddMultiples.ConvertVal | libabi/pssl/ec_mult.c:622-625 | every entry is converted by its fate: kept, lost to infinity, or a finite point in the place of infinity |
| OddMultiples.ConvertedIff | libabi/pssl/ec_mult.c:622-625 | all entries keep their values exactly if they leave no gap |
| OddMultiples.FillTable | libabi/pssl/ec_mult.c:595-620 | P, 3P, 5P and so on in the table of one point |
| OddMultiples.BuildVal | libabi/pssl/ec_mult.c:566-625 | all tables, one behind the other: the odd multiples, converted by their fates |
| OddMultiples.WindowThresholds | libabi/pssl/ec_mult.c:320-327 | windows of 2 to 6 bits are used exactly from 20, 70, 300, 800 and 2000 bits on |
| EcMult.ComputeWnafs | libabi/pssl/ec_mult.c:431-447 | a correct wNAF for every scalar, with the length of the longest and the number of table entries |
| EcMult.NumberOfBlocks | libabi/pssl/ec_mult.c:388-396 | the number of blocks never exceeds those precomputed |
| EcMult.GeneratorStreams | libabi/pssl/ec_mult.c:449-564 | the digits are a wNAF of the scalar, whole or cut into blocks, each with its slice of the precomputed table, whatever that holds |
| EcMult.BlockSum | libabi/pssl/ec_mult.c:463-564 | with a table of odd multiples these blocks select the right entries, and sum to scalar times generator |
| EcMult.MulStreams | libabi/pssl/ec_mult.c:566-683 | builds the tables and runs the loop over all lists, for any points of the curve: the result is the plain Horner scheme over the converted entries |
| EcMult.WnafMul | libabi/pssl/ec_mult.c:335-727 | fails only without a needed generator; otherwise r becomes the plain Horner scheme over wNAFs of the scalars and the converted entries, for all points and tables; it is scalar times generator plus the sum of all products if the entries that are selected were kept, in particular if the tables convert cleanly, and a precomputed table that is used is right |
| EcMult.RunTotal | libabi/pssl/ec_mult.c:335-727 | a run whose digits select only kept entries gives the sum that is asked for |
| EcMult.CleanKeepsEntries | libabi/pssl/ec_mult.c:595-625 | tables that convert cleanly keep every selected entry |
| SmallCurve.TablesNotClean | libabi/pssl/ec_mult.c:595-625 | arguments for which the conversion does not keep the tables: infinity and a generator |
| SmallCurve.SumIsLost | libabi/pssl/ec_mult.c:595-683 | and a sum that is lost: every run for 0 times infinity plus 1 times a generator ends with infinity instead of the generator |
| EcMult.TableIsWellFormed | libabi/pssl/ec_mult.c:729-738 | a table is well formed for G exactly if it has entry (2j+1) 2^(8b) G at position b 2^(w-1) + j |
| EcMult.TableBlocks | libabi/pssl/ec_mult.c:789-797 | as many blocks of eight bits as cover the order, and no more |
| EcMult.TableWindow | libabi/pssl/ec_mult.c:789-797 | the window for the length of the order, but not less than four bits |
| EcMult.PrecomputeMult | libabi/pssl/ec_mult.c:739-904 | drops the old table, and makes a new one unless generator or order is missing; its entries are the odd multiples converted by their fates, and it is well formed and belongs to the generator exactly if they all are kept |
| PrimeOrder.MulInfinity | libabi/pssl/ecs_ossl.c:108-140 | a multiple of a point of prime order is infinity exactly for multiples of the order |
| PrimeOrder.PrimeOrderIsClean | libabi/pssl/ec_mult.c:595-625 | points of a large enough prime order never put infinity in a table |
| PrimeOrder.PrecomputedIsClean | libabi/pssl/ec_mult.c:822-870 | nor do the multiples of the generator, for orders of 16 and more |
| ShortOrder.PrecomputedCleanIff | libabi/pssl/ec_mult.c:822-870 | for a generator of any prime order they are all kept exactly if that order is not 3, 5 or 13 |
| ShortOrder.PrecomputationCleanIff | libabi/pssl/ec_mult.c:739-904 | the same for the table that ec_wNAF_precompute_mult makes in a group |
| ShortOrder.OddZeroesHaveNoGap | libabi/pssl/ecp_smpl.c:798-889 | points at infinity at odd positions only leave no gap |
| ThreePoints.TableNotClean | libabi/pssl/ec_mult.c:822-870 | a generator whose table is not kept, on a curve of three points: 9G is infinity, in front of 11G |
| Digest.LeftmostBits | libabi/pssl/ecs_ossl.c:223-243 | the number taken from a digest is its leftmost bits |
| Ecdsa.PaddedNonce | libabi/pssl/ecs_ossl.c:120-126 | the padded nonce has exactly one bit more than the order |
| Ecdsa.NonceMultiple | libabi/pssl/ecs_ossl.c:120-133 | and gives the same multiple of the generator |
| Ecdsa.DrawNonce | libabi/pssl/ecs_ossl.c:112-118 | the nonce is the first draw that is not zero, and the draws behind it are left; fails only if all are zero |
| Ecdsa.SignSetup | libabi/pssl/ecs_ossl.c:62-180 | uses the first draw whose multiple of the generator gives an r that is not zero: r and the inverse of exactly that draw, which is named, with the draws behind it left; fails exactly if no draw gives an r |
| Ecdsa.DoSign | libabi/pssl/ecs_ossl.c:183-310 | what it returns is a signature of the digest by the private key; without supplied values it belongs to the first draw for which r and s are both not zero, and nothing is returned exactly if there is none |
| Ecdsa.DoVerify | libabi/pssl/ecs_ossl.c:312-430 | for any public point of the curve: 0 for pairs out of range, otherwise -1, 1 or 0 by the x coordinate of the point that the multiplication leaves, which is the point of the verifying equation if the tables convert cleanly; with a public key of the order of the group it accepts exactly the pairs that satisfy that equation |
| Ecdsa.JudgedIsAccepts | libabi/pssl/ecs_ossl.c:370-423 | a public key of the order of the group keeps the tables clean, so 1 means that the verifying equation holds and -1 that its point is infinity |
| Ecdsa.SignatureAccepted | libabi/pssl/ecs_ossl.c:245-423 | every signature satisfies the verification equation, also for digests not below the order |
| Ecdsa.AcceptedIsSignature | libabi/pssl/ecs_ossl.c:354-423 | whatever the verifying equation accepts satisfies the signing equation, for a nonce that is constructed |
| Ecdsa.AcceptsIff | libabi/pssl/ecs_ossl.c:245-423 | verification accepts exactly the signatures |
| Ecdsa.SignThenVerify | libabi/pssl/ecs_ossl.c:183-430 | whatever is signed is accepted |
| MixSpec.CompactIsFull | libffabi/src/audio_mix.c:46-60 | for every kept output the wrapped sum over the kept inputs is the sum over all |
| MixSpec.SilentMix | libffabi/src/audio_mix.c:155-159 | an output with a zero row is zero |
| MixSpec.PassMix | libffabi/src/audio_mix.c:200-227 | a pass-through output is its input, bit for bit |
| MixSpec.Q30OfZeroAndOne | libffabi/src/audio_mix.c:340 | the coefficient conversion maps 0 to 0 and 1 to 2^30 |
| MixSpec.Finish | libffabi/src/audio_mix.c:55-58 | stated by the sum: y 2^30 <= sum < (y + 1) 2^30, or the end of the 32-bit range for sums beyond 2^61 |
| MixSpec.Q30IsNearest | libffabi/src/audio_mix.c:340 | a coefficient becomes the nearest integer to 2^30 times it, the even one of two, or the end of the 32-bit range |
| MixSpec.IdentityPasses | libffabi/src/audio_mix.c:200-227 | every channel of the identity passes, and nothing is left to mix |
| MixSpec.ZeroesAreSilent | libffabi/src/audio_mix.c:163-198 | nor is anything of a zero matrix: its outputs are silent, its further inputs go nowhere |
| AudioMix.OutputIsSilent | libffabi/src/audio_mix.c:172-191 | the test for outputs that can be zeroed |
| AudioMix.InputPasses | libffabi/src/audio_mix.c:207-227 | the test on inputs for pass-through channels |
| AudioMix.InputContributes | libffabi/src/audio_mix.c:234-242 | the test for inputs that go nowhere |
| AudioMix.OutputPasses | libffabi/src/audio_mix.c:256-274 | the test on outputs agrees with the one on inputs |
| AudioMix.KeepCount | libffabi/src/audio_mix.c:192-284 | every channel is kept or dropped for exactly one reason, so the counters are right |
| AudioMix.AudioMix.ReduceMatrix | libffabi/src/audio_mix.c:163-284 | flags and counters describe the reduction, in all three early returns |
| AudioMix.AudioMix.Convert | libffabi/src/audio_mix.c:315-337 | the compact matrix is filled exactly |
| AudioMix.AudioMix.SetMatrix | libffabi/src/audio_mix.c:292-341 | refuses exactly the channel counts outside 1 to 32 |
| MixRun.Accumulate | libffabi/src/audio_mix.c:51-54 | one sum in a 64-bit accumulator |
| MixRun.MixPoint | libffabi/src/audio_mix.c:50-59 | all outputs of a sample are computed from its old inputs, each as the 64-bit sum shifted down by 30 bits towards minus infinity, and clipped to 32 bits |
| MixRun.MixAny | libffabi/src/audio_mix.c:46-60 | the in-place mixer over a block: every sample is such a sum of the old samples at its place |
| MixRun.KeptOutput | libffabi/src/audio_mix.c:134-153 | a row of the compact mix is the row of the full mix for the same output |
| MixRun.Mix | libffabi/src/audio_mix.c:129-161 | every output sample is the sum over the unreduced matrix, shifted towards minus infinity by 30 bits, or the end of the 32-bit range beyond which that lies, and nothing else changes |
| MixMatrix.BuildTail | libffabi/src/audio_mix_matrix.c:267-287 | each entry is that of the matching channels, unchanged if no row that counts has an absolute sum above one, and otherwise divided by the absolute sum of one of these rows, which none exceeds |
| MixMatrix.NormalByLoudest | libffabi/src/audio_mix_matrix.c:267-287 | multiplied by the absolute sum of the loudest row the entries are those of the given matrix; if no row is loud they are equal |
| MixMatrix.AbsSumIsGreatest | libffabi/src/audio_mix_matrix.c:271-276 | the absolute sum of a row is the greatest sum that samples between -1 and 1 can give, and the signs of the row attain it |
| MixMatrix.PresentIsSorted | libffabi/src/audio_mix_matrix.c:269-279 | the present channels in increasing order, without omission |
| MixMatrix.StopIsEnd | libffabi/src/audio_mix_matrix.c:269-279 | the compaction loops end right behind the last present channel |
| MixMatrix.RowSumAtMostOne | libffabi/src/audio_mix_matrix.c:267-287 | after normalisation every row has absolute sum at most one |
| MixMatrix.NoOverflow | libffabi/src/audio_mix.c:51-54 | then the 64-bit accumulator never overflows, for up to 32 channels and any samples |
| MixMatrix.NormalisedNeverOverflows | libffabi/src/audio_mix_matrix.c:280-287 | the two together |
| MixMatrix.NeverWrapsIff | libffabi/src/audio_mix.c:51-54 | for any row, no samples overflow the accumulator exactly if the two extreme sums of its coefficients fit into 64 bits |
| MixMatrix.OverflowWithoutNormalisation | libffabi/src/audio_mix.c:51-54 | a row for which they do not: four channels of coefficient two |
| MixAll.Alloc | libffabi/src/audio_mix.c:62-110 | from a 64 x 64 matrix to a reduced and compacted mixer of the rows divided by the loudest one; fails exactly for channel counts outside 1 to 32 |
| MixAll.MixedIsExact | libffabi/src/audio_mix.c:46-60 | a sample mixed with the normalised matrix is the exact integer sum, shifted towards minus infinity by 30 bits and clipped |
| MixAll.MixIsAccurate | libffabi/src/audio_mix.c:46-60 | every sample, clipped or not, differs from the real sum over the normalised matrix by at most the number of inputs plus one |
| MixAll.MixSamples | libffabi/src/audio_mix.c:62-161 | all steps together: every output sample is that of the exact sum over all inputs of the normalised matrix, stated by inequalities between sample and sum |
| EbmlSize.ShortestWidth | libebml/src/EbmlElement.cpp:50-83 | the width is the shortest that keeps the value apart from the unknown-size marker, up to five bytes |
| EbmlSize.CodedValueLength | libebml/src/EbmlElement.cpp:111-123 | writes the marker and the low 7c bits, and nothing beyond |
| EbmlSize.CodedValueLengthSigned | libebml/src/EbmlElement.cpp:125-137 | the same after the bias of the value |
| EbmlSize.CodeIsNumber | libebml/src/EbmlElement.cpp:111-123 | as a big-endian number of c bytes a code is 2^(7c) plus the low 7c bits of the value |
| EbmlSize.SignedIsNumber | libebml/src/EbmlElement.cpp:88-137 | and a signed code in its own width is 2^(7c) plus the value plus 2^(7c-1) - 1 |
| EbmlSize.ReadCodedSizeValue | libebml/src/EbmlElement.cpp:139-183 | value, width and unknown marker by position of the first set bit; zero width if incomplete |
| EbmlSize.ReadCodedSizeSignedValue | libebml/src/EbmlElement.cpp:185-207 | the same less the bias of the width |
| EbmlSize.ReadBack | libebml/src/EbmlElement.cpp:111-183 | a written size is read back modulo 2^(7c) with its width, whatever follows |
| EbmlSize.RoundTripIff | libebml/src/EbmlElement.cpp:111-183 | it is read back unchanged and not as unknown exactly below 2^(7c) - 1 |
| EbmlSize.RoundTripChosen | libebml/src/EbmlElement.cpp:50-183 | with the chosen width exactly below 2^35 - 1, or the range of a longer forced width |
| EbmlSize.UnknownReadsAsUnknown | libebml/src/EbmlElement.cpp:66-77 | the marker of an unknown size keeps its width and reads as unknown |
| EbmlSize.SignedRoundTripIff | libebml/src/EbmlElement.cpp:88-207 | a signed value survives in its own width exactly between -2^27 and 2^35, and no small value survives another width |
| EbmlSize.SignedNeverUnknown | libebml/src/EbmlElement.cpp:125-207 | signed values below 2^27 in size never read as unknown |
| Crc32.TableIsDivision | libebml/src/EbmlCrc32.cpp:109-162 | every entry of the table is the remainder of its index by the polynomial |
| Crc32.StepIsDivision | libebml/src/EbmlCrc32.cpp:187-190 | one table step is eight bits of division |
| Crc32.WordIsBytes | libebml/src/EbmlCrc32.cpp:261-269 | adding a little-endian word and stepping four times is folding its bytes |
| Crc32.FoldSplit | libebml/src/EbmlCrc32.cpp:317-338 | any split of the data gives the same value |
| Crc32.Run | libebml/src/EbmlCrc32.cpp:317-338 | the three loops compute the bytewise fold, for every length and alignment |
| Crc32.EbmlCrc32.UpdateByte | libebml/src/EbmlCrc32.cpp:187-190 | one byte is folded |
| Crc32.EbmlCrc32.FillCRC32 | libebml/src/EbmlCrc32.cpp:283-287 | the checksum of the bytes is stored, and the register reset |
| Crc32.CheckCRC | libebml/src/EbmlCrc32.cpp:254-281 | accepts exactly the value that FillCRC32 stores |
| Crc32.BurstDetected | libebml/src/EbmlCrc32.cpp:254-281 | damage within four consecutive bytes is always detected |
| CrcResidue.Residue | libebml/src/EbmlMaster.cpp:105-116 | folding any body and then the four bytes stored for it leaves 0xdebb20e3 in the register: start value, complement and byte order together |
| CrcResidue.WordOfFour | libebml/src/EbmlCrc32.cpp:210-231 | the stored bytes are those of the checksum, the lowest first |
| CrcResidue.ShortestValues | libebml/src/EbmlCrc32.cpp:283-315 | the checksum of nothing is zero, that of one zero byte 0xd202ef8d |
| EbmlTree.SizesAreExact | libebml/src/EbmlElement.cpp:587-648 | at every level the predicted size is the number of bytes rendered, with and without defaults and checksum |
| EbmlTree.IntegerBack | libebml/src/EbmlUInteger.cpp:87-151 | an integer element holds its value, most significant byte first, in the default size or in the fewest bytes above it |
| EbmlTree.HeadIsShortest | libebml/src/EbmlElement.cpp:607-641 | identifier, size and data follow each other, and the size takes the least width that tells it from "unknown", or the longer one asked for |
| EbmlTree.Framed | libebml/src/EbmlElement.cpp:622-641 | a head with an exact length delimits its data |
| EbmlTree.FramedIff | libebml/src/EbmlElement.cpp:622-641 | exactly the lengths below the range of the width are delimited rightly |
| EbmlTree.FramedAtMost | libebml/src/EbmlElement.cpp:622-641 | whatever the length, no item reaches beyond the length that was written |
| EbmlTree.ItemBack | libebml/src/EbmlElement.cpp:587-641 | a length-prefixed reader finds identifier and data of a rendered element, whatever follows |
| EbmlTree.MasterSplits | libebml/src/EbmlMaster.cpp:90-119 | the data of a master split into exactly its rendered children, after the checksum of them |
| EbmlMaster.UpdateSize | libebml/src/EbmlMaster.cpp:130-159 | the size field becomes the predicted size, and no element that is at least as high changes its own |
| EbmlMaster.ElementSizeOf | libebml/src/EbmlElement.cpp:643-648 | head and data together; zero exactly for what EbmlDefaults.OmittedIff names: integers equal to their default and masters without children, rendered without defaults |
| EbmlMaster.MakeRenderHead | libebml/src/EbmlElement.cpp:622-641 | identifier and coded size are written |
| EbmlMaster.RenderUInteger | libebml/src/EbmlUInteger.cpp:87-103 | the bytes of an integer, most significant first |
| EbmlMaster.Render | libebml/src/EbmlElement.cpp:587-605 | the bytes of the tree are written at the position of the stream, from which a reader recovers the tree (EbmlDefaults.TreeIsRecovered) |
| EbmlMaster.RenderWithChecksum | libebml/src/EbmlMaster.cpp:105-116 | the children are rendered aside, and their checksum written in front of them |
| EbmlMaster.RenderChildren | libebml/src/EbmlMaster.cpp:99-104 | the children in order, without exactly those that EbmlDefaults.OmittedIff names |
| EbmlDefaults.OmittedIff | libebml/src/EbmlElement.cpp:587-593 | nothing is written exactly for an integer whose default exists and equals its value, or a master without children, when rendered without defaults; never for binary data |
| EbmlDefaults.ChildrenFound | libebml/src/EbmlMaster.cpp:90-119 | in the data of a master exactly the children that were written are found, by identifier, with their data |
| EbmlDefaults.TreeIsRecovered | libebml/src/EbmlMaster.cpp:90-119 | a reader that puts declared defaults in the place of missing elements recovers all integers, data and structure of a whole tree, rendered with or without defaults |
| ByteStream.Stream.Write | libebml/src/MemIOCallback.cpp:96-108 | the bytes replace or extend the contents at the position |
| EbmlVoid.FillerIsExact | libebml/src/EbmlVoid.cpp:79-90 | head and data of the filler span exactly the gap, at every change of width; a reader takes them for one void element exactly up to 2^35 + 4 bytes |
| EbmlVoid.MakeFiller | libebml/src/EbmlVoid.cpp:79-89 | the stepwise correction of size and width |
| EbmlVoid.ReplaceWith | libebml/src/EbmlVoid.cpp:62-97 | refuses exactly the replacements that are too large or leave one byte, by their size field; otherwise the element and the head of the filler are written and nothing else changes, also when the element is skipped |
| EbmlVoid.ReplacedReadsBack | libebml/src/EbmlVoid.cpp:62-97 | for an element that is rendered, a reader then finds it, one void up to the old end (exactly up to 2^35 + 4 bytes), and what followed before |
| EbmlVoid.SkippedFallsShort | libebml/src/EbmlVoid.cpp:76-90 | for an element that is skipped, a filler that is written ends too early, by the bytes the element was thought to need |
| EbmlVoid.FitsExactlyIff | libebml/src/EbmlVoid.cpp:62-97 | in the place of a void a reader finds the element and then nothing, or one void up to the old end, exactly if nothing is left to fill, or the element is rendered and at most 2^35 + 4 bytes are left |
| EbmlVoid.SkippedLeavesStray | libebml/src/EbmlVoid.cpp:76-90 | a void of ten bytes and a skipped element of three: the filler spans seven bytes, and three are stray |
| EbmlVoid.DefaultIsSkipped | libebml/src/EbmlElement.cpp:591-593 | such an element: an integer with its default value |
| LacingProofs.PredictedIsRendered | libmatroska/src/KaxBlock.cpp:166-217 | UpdateSize predicts the bytes of RenderData exactly if the track is not 0x80 and no Xiph size has more than 16 bits, and for a block without frames exactly if the track is below 0x80; otherwise it predicts more |
| LacingProofs.XiphSizesBack | libmatroska/src/KaxBlock.cpp:515-529 | the sizes read from a Xiph header |
| LacingProofs.EbmlSizesBack | libmatroska/src/KaxBlock.cpp:530-551 | the running sizes read from an EBML header, up to the first empty frame |
| LacingProofs.FixedBack | libmatroska/src/KaxBlock.cpp:552-557 | equal shares are right exactly for frames of equal size |
| BlockRoundTrip.RoundTripIff | libmatroska/src/KaxBlock.cpp:273-584 | a block is read back in all its fields exactly if it has 1 to 255 frames and its lacing can represent their sizes; on track 0x80, exactly if it is one of the laces of LacingTrack128.SurvivesIff |
| LacingChoice.BestIsMinimal | libmatroska/src/KaxBlock.cpp:141-164 | the automatic choice is minimal among the lacings that the frames allow |
| LacingChoice.BestXiphFits | libmatroska/src/KaxBlock.cpp:141-164 | it never picks Xiph lacing for a size of more than 16 bits |
| LacingChoice.BestReadableIff | libmatroska/src/KaxBlock.cpp:141-164 | its choice can be read back exactly if the sizes are equal, or the Xiph header is shorter than the EBML header, or no frame before the last is empty |
| LacingChoice.BestCanBeUnreadable | libmatroska/src/KaxBlock.cpp:530-551 | such a case |
| LacingChoice.Track128SizeDiffers | libmatroska/src/KaxBlock.cpp:213-214 | a block of track 0x80 whose predicted size is one too large |
| LacingChoice.EmptySizeDiffers | libmatroska/src/KaxBlock.cpp:166-217 | a block of track 0x81 without frames is predicted as one byte, and nothing is written |
| LacingChoice.XiphSizeDiffers | libmatroska/src/KaxBlock.cpp:188-192 | Xiph lacing of a frame of 65536 bytes is predicted too large |
| LacingTrack128.OneFrameIsLost | libmatroska/src/KaxBlock.cpp:290-341 | a single frame of track 0x80 is not read back |
| LacingTrack128.FixedIsLost | libmatroska/src/KaxBlock.cpp:290-341 | nor is a fixed lace of that track |
| LacingTrack128.XiphIsLost | libmatroska/src/KaxBlock.cpp:290-341 | nor is a Xiph lace of that track, whatever its sizes |
| LacingTrack128.EbmlCanSurvive | libmatroska/src/KaxBlock.cpp:290-341 | an EBML lace of that track is read back if it has 192 frames, all but the last of 63 bytes, the first starting with a zero byte, and is invisible and, in a simple block, a discardable keyframe |
| LacingTrack128.EbmlSurvivorIsLucky | libmatroska/src/KaxBlock.cpp:290-341 | no other EBML lace of that track is |
| LacingTrack128.SurvivesIff | libmatroska/src/KaxBlock.cpp:290-341 | so exactly these blocks of track 0x80 are read back, over all lacings, sizes and flags |
| LacingShift.NeverMeet | libmatroska/src/KaxBlock.cpp:530-551 | reading sizes behind the place where they were written: once a byte between the two places is not the code of 63, there always is one, so the places never meet and the header is not read back |
| LacingShift.StepKeeps | libmatroska/src/KaxBlock.cpp:539-548 | one size further this stays so |
| LacingShift.ShiftedIsEqual | libmatroska/src/KaxBlock.cpp:530-551 | a header that is read back from its second byte on consists of codes of 63, with a zero byte behind it |
| LacingChoice.ParseConserves | libmatroska/src/KaxBlock.cpp:450-584 | whatever the input, the frames accepted are consecutive and end where the data end |
| KaxBlock.KaxInternalBlock.GetBestLacingType | libmatroska/src/KaxBlock.cpp:141-164 | the loop computes the choice |
| KaxBlock.KaxInternalBlock.UpdateSize | libmatroska/src/KaxBlock.cpp:166-217 | the size field becomes the predicted size; it fails exactly for a track of 0x4000 and more, or several frames without a lacing |
| KaxBlock.KaxInternalBlock.RenderData | libmatroska/src/KaxBlock.cpp:273-411 | the bytes of the block, as LacingBytes lays them out; size and lacing are left as written; it fails exactly for a track of 0x4000 and more |
| LacingBytes.TrackIsWritten | libmatroska/src/KaxBlock.cpp:292-298 | the bytes start with 0x80 plus the track, or with 0x4000 plus the track as a number of two bytes |
| LacingBytes.TimecodeIsWritten | libmatroska/src/KaxBlock.cpp:300-304 | behind it stands the timecode, most significant byte first, modulo 2^16 |
| LacingBytes.FlagsAreWritten | libmatroska/src/KaxBlock.cpp:306-339 | bit by bit: bits 4 to 6 of the flags are clear, bits 7, 3 and 0 mean keyframe, invisible and discardable, the first and last of them in simple blocks only, and bits 2 and 1 the lacing asked for or chosen |
| LacingBytes.CountIsWritten | libmatroska/src/KaxBlock.cpp:345-348 | then, in a lace, the low byte of the number of frames less one |
| LacingBytes.XiphSizeIsSum | libmatroska/src/KaxBlock.cpp:351-362 | a Xiph size is the sum of its bytes, of which all but the last are 255 and the last is less |
| LacingBytes.EbmlSizesAreWritten | libmatroska/src/KaxBlock.cpp:369-389 | an EBML header is the first size and then every difference of two sizes, as numbers of their width |
| LacingBytes.FramesAreWritten | libmatroska/src/KaxBlock.cpp:403-407 | the frames stand at the end, one behind the other |
| KaxBlock.KaxInternalBlock.RenderXiphSizes | libmatroska/src/KaxBlock.cpp:345-363 | the Xiph header, with sizes truncated to 16 bits |
| KaxBlock.KaxInternalBlock.RenderEbmlSizes | libmatroska/src/KaxBlock.cpp:364-391 | the EBML header |
| KaxBlock.KaxInternalBlock.ReadData | libmatroska/src/KaxBlock.cpp:450-584 | the fields become those that the bytes describe, or the block is emptied exactly if they describe none |
| LacingBytes.HeadIsRead | libmatroska/src/KaxBlock.cpp:468-492 | whatever is accepted, the fields are those that the bits of the head say |
| LacingGrammar.ReadsExactly | libmatroska/src/KaxBlock.cpp:450-584 | accepted are exactly: a track number of one or two bytes, three bytes, and a body of the kind that the lacing bits announce, whose frames are those that are found |
| LacingGrammar.XiphAcceptedIff | libmatroska/src/KaxBlock.cpp:515-529 | as Xiph laces exactly: count, size codes of any length, and frames of these sizes as signed 32-bit numbers |
| LacingGrammar.FixedAcceptedIff | libmatroska/src/KaxBlock.cpp:552-557 | as fixed laces exactly: count, and frames of equal sizes |
| LacingGrammar.EbmlAcceptedIff | libmatroska/src/KaxBlock.cpp:530-551 | as EBML laces exactly: count, codes of any width for the sizes and differences, none of the sizes but the last zero, and the frames; a code that goes on behind the end counts as no bytes and no difference |
| LacingGrammar.AnyWidthsAreRead | libmatroska/src/KaxBlock.cpp:530-551 | in particular a lace with whole codes is read, whatever their widths |
| LacingGrammar.UnfinishedCodeIsRead | libmatroska/src/KaxBlock.cpp:539-548 | a lace with an unfinished code, which becomes a frame |
| KaxBlock.ReadXiphLace | libmatroska/src/KaxBlock.cpp:515-529 | the loop over Xiph sizes |
| KaxBlock.ReadEbmlLaceSizes | libmatroska/src/KaxBlock.cpp:530-551 | the loop over EBML sizes |
| KaxBlock.CutFrames | libmatroska/src/KaxBlock.cpp:564-582 | the frames, if they fill the data exactly |
| Utf.LegalIsScalar | libmmbd/src/ConvertUTF.c:302-325 | every sequence accepted as legal decodes to a scalar value, so the replacement branches are dead |
| Utf.LegalIff | libmmbd/src/ConvertUTF.c:302-325 | what is accepted besides the grammar of RFC 3629 |
| Utf.EncodedIsGrammar | libmmbd/src/ConvertUTF.c:257-281 | encoded characters follow the grammar |
| Utf.DecodeEncode | libmmbd/src/ConvertUTF.c:192-380 | decoding with the magic offsets undoes encoding |
| Utf.EncodeDecode | libmmbd/src/ConvertUTF.c:192-380 | and the other way round |
| UtfOrder.Order8 | libmmbd/src/ConvertUTF.c:257-281 | UTF-8 keeps the order of all code values |
| UtfOrder.Ascii8 | libmmbd/src/ConvertUTF.c:257-281 | characters below 0x80 stand for themselves, and no later byte looks like them |
| UtfOrder.Units16 | libmmbd/src/ConvertUTF.c:382-426 | a character of one unit is that unit, the others a high and a low surrogate |
| UtfOrder.Order16 | libmmbd/src/ConvertUTF.c:382-426 | pairs keep the order of the characters |
| UtfOrder.TrailingCountsOnes | libmmbd/src/ConvertUTF.c:176-185 | the bytes announced to follow a byte are one less than its leading ones, and five at most |
| UtfOrder.PairIsRead | libmmbd/src/ConvertUTF.c:226-256 | every pair is read as the character that is written as this pair |
| UtfOrder.UnitIsRead | libmmbd/src/ConvertUTF.c:226-256 | a unit outside a pair is read as itself, or is the reason of a stop |
| UtfProofs.Converts16 | libmmbd/src/ConvertUTF.c:217-287 | a well-formed UTF-16 string is converted completely, to well-formed UTF-8, with room for three bytes a unit |
| UtfProofs.RoundTrip16 | libmmbd/src/ConvertUTF.c:217-432 | UTF-16 to UTF-8 and back, in any combination of strict and lenient |
| UtfProofs.Converts16Iff | libmmbd/src/ConvertUTF.c:217-287 | in strict mode exactly the well-formed UTF-16 strings are converted |
| UtfProofs.DecoderWritesWellFormed | libmmbd/src/ConvertUTF.c:345-432 | whatever the decoder writes is well-formed UTF-16 |
| UtfProofs.RoundTrip16Iff | libmmbd/src/ConvertUTF.c:217-432 | in every combination of modes, exactly the well-formed UTF-16 strings are restored |
| UtfProofs.Converts8 | libmmbd/src/ConvertUTF.c:345-432 | a well-formed UTF-8 string is converted completely |
| UtfProofs.RoundTrip8 | libmmbd/src/ConvertUTF.c:217-432 | UTF-8 to UTF-16 and back |
| UtfProofs.Converts8Iff | libmmbd/src/ConvertUTF.c:345-432 | exactly the sequences of accepted characters are converted: the grammar and the low second bytes |
| UtfProofs.RoundTrip8Iff | libmmbd/src/ConvertUTF.c:217-432 | in every combination of modes, exactly the byte strings of the grammar are restored |
| UtfProofs.AcceptedNotRestored | libmmbd/src/ConvertUTF.c:302-325 | ED 41 80 is accepted against the grammar, and comes back as EC 81 80 |
| UtfProofs.StopsBetweenCharacters16 | libmmbd/src/ConvertUTF.c:226-287 | on any stop exactly the characters of the consumed prefix are written, and the stop has its exact reason |
| UtfProofs.PrefixAlone16Iff | libmmbd/src/ConvertUTF.c:226-287 | wherever the target ends, the consumed prefix is a string of its own: exactly in strict mode, or without a lone high surrogate in front of another unit |
| UtfProofs.PrefixNotAlone | libmmbd/src/ConvertUTF.c:236-252 | such a surrogate: D800 0041 with room for three bytes |
| UtfProofs.PrefixAlone8 | libmmbd/src/ConvertUTF.c:354-432 | for UTF-8 it always is |
| UtfProofs.StopReason8 | libmmbd/src/ConvertUTF.c:354-432 | the exact reason of a stop |
| UtfConvert.StoreBackwards | libmmbd/src/ConvertUTF.c:272-282 | the bytes of a character, stored from the last |
| UtfConvert.ConvertUTF16toUTF8 | libmmbd/src/ConvertUTF.c:217-287 | both pointers advance alike in both modes; the writing mode stores the conversion and nothing else |
| UtfConvert.EmitUnits | libmmbd/src/ConvertUTF.c:382-426 | one character as one or two units, or the reason why not |
| UtfConvert.ConvertUTF8toUTF16 | libmmbd/src/ConvertUTF.c:345-432 | the same for the decoder |
| UtfConvert.Utf16ToUtf8Len | libmmbd/src/utf8.cpp:32-47 | the length that a conversion needs, or zero |
| UtfConvert.Utf16ToUtf8 | libmmbd/src/utf8.cpp:49-62 | the conversion, or a terminator; a buffer is needed only if the conversion fails or writes |
| UtfConvert.Utf8ToUtf16Len | libmmbd/src/utf8.cpp:81-96 | the length that the decoder needs, or zero |
| UtfConvert.Utf8ToUtf16 | libmmbd/src/utf8.cpp:64-79 | the same for the decoder; an empty buffer is left alone |
| UtfConvert.LengthIsExact16 | libmmbd/src/utf8.cpp:32-62 | a buffer of the computed length is never exhausted |
| UtfConvert.LengthIsExact8 | libmmbd/src/utf8.cpp:64-96 | the same for the decoder |
| UtfConvert.BothPasses | libmmbd/src/utf8.cpp:32-79 | length pass, writing pass and decoder restore a well-formed string |

## Left out

- BatchInversion.PointsMakeAffine: the heap holds copies of the Z coordinates that are written back at the end, where the source stores pointers to them.
- Ecdsa.DoSign: the random numbers are a given sequence; running out of it is a failure, where the source tries again.
- EcMult.MulStreams: the digit lists are values once they have been computed, where the source keeps a terminated list of buffers. Points and generator are on the curve. Where the conversion puts a finite point in the place of infinity (`OddMultiples.EntryFate`), its coordinates are leftovers of earlier computations and are not described.
- Group associativity, and primality of the field and of the order.
- OpenSSL's big numbers: Montgomery reduction and modular inversion are given by what they return. Allocation failures, reference counts, clearing of memory and the cofactor are not modelled.
- Mixing coefficients are exact reals, the matrix is a sequence of rows instead of an array with a stride, and the construction of the 64 x 64 matrix from two layouts (`libffabi/src/audio_mix_matrix.c:88-265`) is left out: the results hold for any contents.
- MixRun.Mix: the channel pointers are distinct arrays; logging is left out.
- Lacing.Parse: blocks of 2^31 bytes and more are excluded. Laces of 256 frames are taken to fail: the reader's 8-bit loop counter starts again after them, so that it runs over the end of the data or does not end. Where a corrupt EBML lace makes the running size negative, the model looks for the next size within the data only. SafeReadIOCallback.cpp is not part of this model; reading or skipping past the end is taken to fail.
- KaxBlock.KaxInternalBlock.ReadData: excludes laces of 256 frames, for which the source may not return, and data of 2^31 bytes and more. The whole-data mode only; frame positions in the file and the partial mode are left out, as is the computation of the local timecode from the cluster, which is a field here. It is called on a block without frames.
- Bit operations on bytes (marker bits, masks, shifts) are written as sums, quotients and remainders, except in the CRC, which uses bit vectors.
- EbmlMaster.Render: masters of unknown size, element positions, the check for mandatory elements, and other leaf types. Sizes are unbounded natural numbers.
- `EbmlVoid::Overwrite` is left out: its correction of the width differs from that of `ReplaceWith` and is not exact.
- EbmlElement::FindNextElement, EbmlMaster::Read and the element classes generated by macros; a small length-prefixed reader (`EbmlTree.ReadItem`) stands in for them.
- Crc32.Run: the little-endian build only; the source repeats these loops in Update and CheckCRC.
- UtfConvert.TakeBytes: sequences of five and six bytes, which are refused before they are decoded. UTF-32 is left out.
- The graphical interface, shared-memory client, SCSI, network, compression, XML, audio and video codecs, AES and process control.
