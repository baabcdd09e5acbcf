# qr-spark encoder core, modelled and verified in Dafny

This project models the QR-code encoding core of qr-spark, a TypeScript
library:

- the static tables (`src/constants.ts`);
- GF(256) arithmetic and the Reed-Solomon encoder (`src/reed-solomon.ts`);
- mode selection, bit packing, padding and byte splitting (`src/utils.ts`);
- masking and the four penalty rules (`src/mask-patterns.ts`);
- the generator class (`src/qr-generator.ts`). It covers version choice,
  the function patterns, zig-zag data placement, format information and
  the `generate` pipeline.

The model follows the code as written, including where the code departs
from ISO/IEC 18004:

- **Format information.** In `addFormatInformation`, turn 7 of the loop
  writes the second copy of the bit into row `size`. That row does not
  exist, so the assignment throws. As a result every call of `generate`
  fails. `Generator.QRGenerator.Generate` proves this for all inputs, and
  `Generator.GenerateError` names the error each input meets first.
  `src/utils.test.ts:26-34` expects `generate("HELLO")` to succeed. The
  code as written cannot meet that test.
- **Automatic version choice.** The choice estimates the stream with the
  version-1 character-count width. From version 10 on, this estimate is
  too small. `Generator.AutomaticChoiceOverflows` shows that 272 lowercase
  letters get version 10. The real stream of that version is 2196 bits,
  but version 10 holds 2192 bits, so the padding step throws.
- **Placement and patterns.**
  - The separators of the top-right and bottom-left finders are one cell
    off. They clear the finder's own outer edge (column size-1 of the
    top-right finder, row size-1 of the bottom-left one) instead of the
    separator line beside it (column size-8, row size-8).
  - Data placement does not skip alignment patterns. It writes over them.
  - The error-correction level is used only to look up the format bits.
  - All data goes into one Reed-Solomon block.
  - No version information is written.

State that the source changes in place is modelled in place:

- The matrix is an `array2<bool>`, indexed `[row, column]`, with `true`
  for a dark module.
- The GF(256) start-up tables are two arrays.
- The generator's options live in a class.

Each method keeps the source's loops. Where a source function nests
loops or runs a long pipeline, the inner loop or a stage is a method of
its own (for example `MaskPatterns.LineRunsPenalty` is the inner scan of
`evaluateRule1`, and `Generator.QRGenerator.ScanVersions` is the loop of
`findMinimumVersion`). Each method's contract ties the result or the
new matrix to a specification function. For the matrix, that function is
a list of cell writes laid over the matrix's old contents. Lemmas state
what those functions promise.

JavaScript exceptions are modelled as `Types.Result` values. Each throw
site has its own `Types.Error` case.

## Model

| member | source | states |
|---|---|---|
| Constants.ModeIndicator | src/constants.ts:12-17 | each mode's indicator fits the 4-bit field |
| Constants.VersionTableShape | src/constants.ts:23-71 | 40 rows; row i is version i+1 with side 21+4i, and total codewords = error-correction + data codewords |
| Constants.VersionTableLowerHalf | src/constants.ts:25-44 | rows 1-20 have that shape |
| Constants.VersionTableUpperHalf | src/constants.ts:45-70 | rows 21-40 have that shape |
| Constants.DataCodewordsStepUp | src/constants.ts:23-71 | each version holds strictly more data codewords than the one before |
| Constants.DataCodewordsIncreasing | src/constants.ts:23-71 | data codewords strictly grow with the version, for any two rows |
| Constants.AlignmentTableLow | src/constants.ts:85-99 | version 1 has no alignment centres; rows 2-14 ascend strictly from 6 to side - 7 |
| Constants.AlignmentTableMiddle | src/constants.ts:100-113 | rows 15-28 ascend strictly from 6 to side - 7 |
| Constants.AlignmentTableHigh | src/constants.ts:114-125 | rows 29-40 ascend strictly from 6 to side - 7 |
| Constants.FinderPatternRings | src/constants.ts:74-82 | the finder template is 7x7: a dark outer ring, a light ring, a dark 3x3 centre |
| Constants.AlphanumericDigitsAscending | src/constants.ts:20 | the set has 45 characters, and the digits come first in ascending order |
| Constants.AlphanumericLettersAscending | src/constants.ts:20 | the letters follow in ascending order |
| Constants.AlphanumericLettersNext | src/constants.ts:20 | positions 10-35 hold A-Z, position k being the letter k - 10 places after A |
| Constants.AlphanumericSymbolsLast | src/constants.ts:20 | the last nine characters are space, $, %, *, +, -, ., / and : |
| Constants.AlphanumericSymbolsAscending | src/constants.ts:20 | the nine symbols ascend, and all sort below '0' except ':' |
| Constants.AlphanumericAscendingRun | src/constants.ts:20 | inside an ascending run, earlier characters are smaller |
| Constants.AlphanumericCharsDistinct | src/constants.ts:20 | the 45 characters are pairwise distinct, so indexOf is a bijection |
| Constants.AlphanumericDigitsFirst | src/constants.ts:20 | digit d has code value d |
| Constants.FormatKey | src/qr-generator.ts:113 | the key is the level letter followed by the digit of the mask |
| Constants.LevelOfLetter | src/constants.ts:141-174 | the level a key letter stands for; its letter is that letter |
| Constants.LetterKeysShape | src/constants.ts:141-174 | the keys of one letter and the digits 0-7 are eight, each that letter and a digit |
| Constants.LevelKeysShape | src/constants.ts:141-174 | each level has eight keys, each its letter followed by a digit 0-7 |
| Constants.FormatTableKeySet | src/constants.ts:141-174 | the table's keys are exactly the four levels' keys |
| Constants.FourLevelsCount | src/constants.ts:141-174 | four sets of eight keys with different first letters hold 32 keys |
| Constants.FormatTableSize | src/constants.ts:141-174 | the format table has exactly 32 entries |
| Constants.FormatTableKeyShape | src/constants.ts:141-174 | every key is a level letter followed by a digit 0-7 |
| Constants.FormatTableKeys | src/constants.ts:141-174 | a string is a key exactly when it is the key of some level and some mask 0-7 |
| Constants.FormatTableLevelL | src/constants.ts:142-149 | every L key is present, with 15 bits |
| Constants.FormatTableLevelM | src/constants.ts:150-157 | every M key is present, with 15 bits |
| Constants.FormatTableLevelQ | src/constants.ts:158-165 | every Q key is present, with 15 bits |
| Constants.FormatTableLevelH | src/constants.ts:166-173 | every H key is present, with 15 bits |
| Constants.FormatTableComplete | src/constants.ts:141-174 | every (level, mask < 8) key the generator builds is in the table, with 15 bits |
| GF256.StepMatchesSource | src/reed-solomon.ts:19-22 | the byte step agrees with the source's shift and 0x11D reduction on a wider integer |
| GF256.StepNonZero | src/reed-solomon.ts:19-22 | the step never reaches 0 from a non-zero element |
| GF256.StepInjective | src/reed-solomon.ts:19-22 | the step is one-to-one |
| GF256.StepLinear | src/reed-solomon.ts:19-22 | the step distributes over XOR (multiplication by x is linear) |
| GF256.Power | src/reed-solomon.ts:15-23 | every power of the generator is non-zero |
| GF256.PowerCycle | src/reed-solomon.ts:14-23 | after k turns, 255 - k further turns return to 1 |
| GF256.PowerOrder | src/reed-solomon.ts:14-23 | the generator has order exactly 255 |
| GF256.PowersDistinct | src/reed-solomon.ts:16-18 | the 255 antilog entries are pairwise distinct |
| GF256.PowersBelowSize | src/reed-solomon.ts:16-18 | the first n antilog entries form a set of n values |
| GF256.PowersCoverNonZero | src/reed-solomon.ts:16-18 | every non-zero byte appears in the antilog table |
| GF256.PowerValuesDistinct | src/reed-solomon.ts:17-18 | no antilog value repeats, so no LOG entry is overwritten |
| GF256.LogOfPower | src/reed-solomon.ts:18 | LOG inverts ANTILOG on exponents below 255 |
| GF256.LogOfZero | src/reed-solomon.ts:24 | LOG[0] is 0 |
| GF256.PowerOfLog | src/reed-solomon.ts:17-18 | ANTILOG inverts LOG on non-zero bytes |
| GF256.LogTableDetermined | src/reed-solomon.ts:14-25 | any table the init loop could leave equals Log |
| GF256.InitializeGF256Tables | src/reed-solomon.ts:14-25 | fills ANTILOG[0..254] with the powers and LOG with their exponents (LOG[0] = 0), leaving ANTILOG[255] unset |
| GF256.AntilogOfLog | src/reed-solomon.ts:33 | the table lookup round-trips |
| GF256.GfMultiply | src/reed-solomon.ts:31-35 | the product is 0 exactly when a factor is 0 |
| GF256.GfMultiplyPowers | src/reed-solomon.ts:31-35 | multiplying powers adds exponents mod 255 |
| GF256.GfMultiplyByAlpha | src/reed-solomon.ts:31-35 | multiplying by 2 is the table loop's step |
| GF256.GfMultiplyCommutes | src/reed-solomon.ts:31-35 | multiplication commutes |
| GF256.GfMultiplyOne | src/reed-solomon.ts:31-35 | 1 is the identity |
| GF256.LogOfProduct | src/reed-solomon.ts:31-35 | the log of a product is the sum of the logs mod 255 |
| GF256.GfMultiplyAssociates | src/reed-solomon.ts:31-35 | multiplication associates |
| GF256.GfDivide | src/reed-solomon.ts:38-43 | division by zero throws exactly when the dividend is non-zero; the quotient is 0 exactly for dividend 0 |
| GF256.LogOfQuotient | src/reed-solomon.ts:38-43 | the log of a quotient is the difference of the logs mod 255 |
| GF256.DivideUndoesMultiply | src/reed-solomon.ts:31-43 | (a * b) / b = a for b != 0 |
| GF256.MultiplyUndoesDivide | src/reed-solomon.ts:31-43 | (a / b) * b = a for b != 0 |
| ReedSolomon.GfPolyMultiply | src/reed-solomon.ts:46-56 | the loop computes the polynomial product, with length p + q - 1 |
| ReedSolomon.AccumulatedWritten | src/reed-solomon.ts:51 | step (i, j) adds p[i] * q[j] into slot i + j of the running product |
| ReedSolomon.ProductLeading | src/reed-solomon.ts:46-56 | the product's leading coefficient is the product of the leading coefficients |
| ReedSolomon.ProductTrailing | src/reed-solomon.ts:46-56 | the product's constant term is the product of the constant terms |
| ReedSolomon.GenerateRSGeneratorPoly | src/reed-solomon.ts:59-68 | the loop builds the product of (x - alpha^i) for i < n, of degree n |
| ReedSolomon.GeneratorMonic | src/reed-solomon.ts:59-68 | the generator's leading coefficient is 1 |
| ReedSolomon.GeneratorConstant | src/reed-solomon.ts:59-68 | each factor multiplies the constant term by its root |
| ReedSolomon.EncodeReedSolomon | src/reed-solomon.ts:71-90 | the in-place division returns the remainder, n bytes long |
| ReedSolomon.ReduceTurn | src/reed-solomon.ts:80-85 | one division turn: when the leading coefficient is non-zero, subtracts that multiple of the generator at position i |
| ReedSolomon.ReduceKeepsPrefix | src/reed-solomon.ts:79-86 | a division turn leaves the earlier positions alone |
| ReedSolomon.ReduceClears | src/reed-solomon.ts:79-86 | a division turn clears its own position |
| ReedSolomon.DivideClearsQuotient | src/reed-solomon.ts:79-86 | after k turns, the first k positions are zero |
| ReedSolomon.DividedMessage | src/reed-solomon.ts:76-89 | the divided message is zeros followed by the remainder |
| ReedSolomon.ZeroDataZeroRemainder | src/reed-solomon.ts:71-90 | all-zero data gives all-zero check bytes |
| ReedSolomon.DivideAddsThrough | src/reed-solomon.ts:79-86 | division is linear in the message tail |
| ReedSolomon.Systematic | src/reed-solomon.ts:71-90 | data followed by its check bytes divides evenly by the generator |
| Utils.GetBestMode | src/utils.ts:5-15 | never Kanji; numeric only for digits, alphanumeric only for characters in the set |
| Utils.DigitsAreAlphanumeric | src/utils.ts:5-15 | every digit string is alphanumeric |
| Utils.BestModeCharacterization | src/utils.ts:5-15 | numeric exactly for non-empty digit strings, byte exactly for strings outside the set |
| Utils.BestModeNumericExample | src/utils.test.ts:9 | "12345" is numeric |
| Utils.BestModeAlphanumericExample | src/utils.test.ts:10 | "HELLO WORLD" is alphanumeric |
| Utils.BestModeByteExample | src/utils.test.ts:11 | "Hello World!" is byte |
| Utils.LowercaseNeedsByteMode | src/utils.ts:5-15 | text starting with 'a' gets byte mode |
| Utils.ToBinary | src/utils.ts:18-20 | the width is the larger of the requested length and the binary numeral's length |
| Utils.ToBinaryKeepsNumeral | src/utils.ts:18-20 | the numeral is kept whole at the end, with zeros before it |
| Utils.ToBinaryValue | src/utils.ts:18-20 | the bits read back as the number |
| Utils.ToBinaryWidth | src/utils.ts:18-20 | a number below 2^length takes exactly `length` bits |
| Utils.ToBinaryExamples | src/utils.test.ts:15-16 | toBinary(5, 4) = "0101" and toBinary(255, 8) = "11111111" |
| Utils.FromBinary | src/utils.ts:23-25 | the value is below 2^length |
| Utils.FromBinaryOfToBinary | src/utils.ts:18-25 | fromBinary(toBinary(n, w)) = n |
| Utils.ToBinaryOfFromBinary | src/utils.ts:18-25 | toBinary(fromBinary(s), \|s\|) = s |
| Utils.EncodeNumeric | src/utils.ts:42-59 | the loop packs groups of three digits into 10, 7 or 4 bits |
| Utils.NumericGroupFits | src/utils.ts:49-55 | each group's value fits its width |
| Utils.NumericBitsLength | src/utils.ts:42-59 | length is 10 per full group plus 0, 4 or 7 |
| Utils.NumericExample | src/utils.test.ts:19-22 | "123" encodes to "0001111011" |
| Utils.IndexOf | src/utils.ts:67-72 | the first index of the character, or -1 when it is absent |
| Utils.CharValueOfMember | src/utils.ts:67-72 | characters in the set have their index as value |
| Utils.CharValueOfIndex | src/utils.ts:67-72 | the k-th character has value k |
| Utils.CharValueIsIndexOf | src/utils.ts:67-72 | the code value of every character is its `indexOf` in the set, -1 when absent |
| Utils.EncodeAlphanumeric | src/utils.ts:62-78 | the loop packs pairs into 11 bits and a last single into 6 |
| Utils.PairFits | src/utils.ts:69-70 | a pair's value 45a + b is below 2025 and fits 11 bits |
| Utils.AlphanumericBitsLength | src/utils.ts:62-78 | length is 11 per pair plus 6 for an odd last character |
| Utils.EncodeByte | src/utils.ts:81-90 | the loop writes each character code in at least 8 bits |
| Utils.ByteBitsLength | src/utils.ts:81-90 | for codes below 256, length is 8 per character |
| Utils.ByteBitsAreCodes | src/utils.ts:81-90 | for codes below 256, the byte payload splits back into the character codes |
| Utils.EncodedBits | src/utils.ts:28-39 | fails exactly for Kanji, with UnsupportedMode |
| Utils.EncodeData | src/utils.ts:28-39 | dispatches to the mode's encoder |
| Utils.EncodeDataExample | src/utils.test.ts:19-22 | encodeData("123", numeric) = "0001111011" |
| Utils.GetCharCountLength | src/utils.ts:93-102 | every width is between 8 and 16 |
| Utils.CharCountLengthMonotone | src/utils.ts:93-102 | widths never shrink as the version grows |
| Utils.DataString | src/utils.ts:105-112 | fails exactly for Kanji |
| Utils.CreateDataString | src/utils.ts:105-112 | builds indicator + count + payload |
| Utils.DataStringLayout | src/utils.ts:105-112 | when the length fits its field, the stream reads back as the mode indicator, the character count, then the payload |
| Utils.DataStringIsBits | src/utils.ts:105-112 | the stream contains only '0' and '1' |
| Utils.AddPadding | src/utils.ts:115-138 | the loop computes the terminator, the byte alignment, alternating pad bytes and the cut to totalBits; a negative terminator count throws |
| Utils.Terminate | src/utils.ts:119-126 | appends the terminator zeros, then zeros to the next byte boundary |
| Utils.TerminatedLayout | src/utils.ts:119-126 | for a fitting stream, terminator and alignment add at most 11 zeros, end on a byte boundary and stay within totalBits |
| Utils.PadBytesAt | src/utils.ts:129-135 | pad byte j occupies bits 8j to 8j + 7 of the pad run |
| Utils.PaddedFits | src/utils.ts:115-138 | padding succeeds exactly when the stream fits; the result is totalBits long and starts with the stream |
| Utils.PaddedLayout | src/utils.ts:119-135 | after the stream: 0-11 zeros to a byte boundary, then 11101100/00010001 alternating |
| Utils.PaddedIsBits | src/utils.ts:115-138 | padding adds only bits |
| Utils.BitsToBytes | src/utils.ts:141-150 | the loop splits the bits into groups of eight and reads each group |
| Utils.BytesOfLength | src/utils.ts:141-150 | one byte per started group of 8 bits |
| Utils.BytesOfRoundTrip | src/utils.ts:141-150 | whole bytes split and re-joined give the same bits |
| Utils.BytesToBitsRoundTrip | src/utils.ts:141-150 | bytes written as bits split back into the same bytes |
| MaskPatterns.CellsSquare | src/mask-patterns.ts:9-29 | a square matrix reads as a square grid |
| MaskPatterns.ReservedAreaShape | src/mask-patterns.ts:32-49 | the reserved cells are a 9x9 top-left box, a top-right box 9 rows high and 8 columns wide, a bottom-left box 8 rows high and 9 columns wide, plus row 6 and column 6; the area is symmetric under transposition |
| MaskPatterns.MaskedChanges | src/mask-patterns.ts:18-26 | a cell flips exactly when it is unreserved and the mask formula holds; reserved cells keep their value |
| MaskPatterns.MaskedTwice | src/mask-patterns.ts:9-29 | masking twice with the same pattern restores the grid |
| MaskPatterns.ApplyMask | src/mask-patterns.ts:9-29 | patterns outside 0-7 throw; otherwise returns a fresh copy, masked |
| MaskPatterns.RunsCoverLine | src/mask-patterns.ts:76-95 | the runs of a line are positive and add up to its length |
| MaskPatterns.UniformLineRuns | src/mask-patterns.ts:76-95 | a line of one colour is a single run as long as the line |
| MaskPatterns.UniformLinePenalty | src/mask-patterns.ts:76-95 | a uniform line of n >= 5 costs n - 2 |
| MaskPatterns.ShortLineFree | src/mask-patterns.ts:76-95 | a line shorter than 5 costs nothing |
| MaskPatterns.LineRunsPenalty | src/mask-patterns.ts:77-94 | the scan of one row (or, as at lines 99-116, one column) charges exactly that line's runs |
| MaskPatterns.RowRunsPenalty | src/mask-patterns.ts:76-95 | the loop sums the run penalties of the rows |
| MaskPatterns.ColumnRunsPenalty | src/mask-patterns.ts:98-117 | the loop sums the run penalties of the columns |
| MaskPatterns.EvaluateRule1 | src/mask-patterns.ts:71-120 | rule 1: 3 + (run - 5) for every run of 5 or more, over rows and columns |
| MaskPatterns.Rule2Bound | src/mask-patterns.ts:123-137 | rule 2 is at most 3(n-1)^2, reached by a uniform grid |
| MaskPatterns.RowBlocksPenalty | src/mask-patterns.ts:128-133 | 3 for each uniform 2x2 block whose top-left corner lies on the row |
| MaskPatterns.EvaluateRule2 | src/mask-patterns.ts:123-137 | rule 2: 3 for every uniform 2x2 block |
| MaskPatterns.PatternsMirror | src/mask-patterns.ts:144-145 | the two 11-module patterns are mirror images |
| MaskPatterns.MatchesIsEquality | src/mask-patterns.ts:195-203 | matching means equal length and equal elements |
| MaskPatterns.MatchesPattern | src/mask-patterns.ts:195-203 | the loop decides the match |
| MaskPatterns.IsFinderLike | src/mask-patterns.ts:150-153 | a window hits exactly when it matches one of the two patterns |
| MaskPatterns.LineWindowsPenalty | src/mask-patterns.ts:149-156 | 40 for each finder-like 11-module window of the row (or, as at lines 161-169, the column) |
| MaskPatterns.LineWindowsBound | src/mask-patterns.ts:148-157 | a line of n has at most n - 10 matching windows |
| MaskPatterns.RowWindowsPenalty | src/mask-patterns.ts:148-157 | 40 per matching row window |
| MaskPatterns.ColumnSlice | src/mask-patterns.ts:162-165 | the 11 cells of a column from a row |
| MaskPatterns.ColumnWindowsPenalty | src/mask-patterns.ts:160-170 | 40 per matching column window |
| MaskPatterns.EvaluateRule3 | src/mask-patterns.ts:140-173 | rule 3: row and column windows |
| MaskPatterns.Rule4Range | src/mask-patterns.ts:176-193 | rule 4 is a multiple of 10, at most 100 |
| MaskPatterns.TenPerFiveSteps | src/mask-patterns.ts:192 | for a deviation of at most 50, whole steps of 5 times 10 give a multiple of 10 no larger than 100 |
| MaskPatterns.EvaluateRule4 | src/mask-patterns.ts:176-193 | rule 4: the floor of the dark percentage's distance from 50, in steps of 5, times 10 |
| MaskPatterns.EvaluateMask | src/mask-patterns.ts:52-68 | the sum of the four rules |
| MaskPatterns.MaskedPenalty | src/mask-patterns.ts:211-212 | the penalty of the matrix masked with the pattern |
| MaskPatterns.FindBestMask | src/mask-patterns.ts:206-221 | the pattern with the lowest penalty, the first one on ties |
| Generator.OverlaySnoc | src/qr-generator.ts:179 | a later write to a cell wins |
| Generator.OverlayConcat | src/qr-generator.ts:138-167 | drawing two write lists in turn is drawing their concatenation |
| Generator.OverlayUntouched | src/qr-generator.ts:138-167 | cells no write targets keep their value |
| Generator.FinderOrigins | src/qr-generator.ts:170-174 | three origins |
| Generator.FinderTemplate | src/qr-generator.ts:179 | FINDER_PATTERN[i][j] is 1 exactly on the template's dark rings |
| Generator.FinderCells | src/qr-generator.ts:169-183 | after the three stamps: each corner box shows the template, and all else is unchanged |
| Generator.SeparatorOrigins | src/qr-generator.ts:187-191 | three origins |
| Generator.SeparatorsEraseFinderEdges | src/qr-generator.ts:185-205 | the top-right separator origin (0, size-8) clears column size-1, and the bottom-left one clears row size-1, both dark finder edges |
| Generator.AlignmentUntouched | src/qr-generator.ts:219-240 | cells away from every drawn centre keep their value |
| Generator.AlignmentCornerPairs | src/qr-generator.ts:242-244 | the three centre pairs next to finders are skipped; the pair (size-7, size-7) is drawn |
| Generator.LastAlignmentCentre | src/constants.ts:85-125 | from version 2 on, the last alignment coordinate is side - 7 |
| Generator.CentreStamped | src/qr-generator.ts:219-240 | a centre list ending at side - 7 makes (side - 7, side - 7) dark in the template |
| Generator.AlignmentCentreDark | src/qr-generator.ts:153-156 | from version 2 on, the template is dark at (side - 7, side - 7) |
| Generator.PlacementWritesSnoc | src/qr-generator.ts:262-276 | a free cell gets the next bit while bits remain, else nothing |
| Generator.BitPosition | src/qr-generator.ts:268 | bit `bitIndex` of byte `dataIndex` is stream bit 8*dataIndex + 7 - bitIndex |
| Generator.ProgressWrite | src/qr-generator.ts:267-275 | a write keeps the placement invariant, advancing the bit cursor |
| Generator.ProgressExhausted | src/qr-generator.ts:267 | with no bits left, free cells are skipped |
| Generator.RowFreeFacts | src/qr-generator.ts:258-264 | one row of a column pair adds distinct free cells of that row |
| Generator.PairFreeFacts | src/qr-generator.ts:255-278 | a column pair adds distinct free cells of its two columns, in the visited rows |
| Generator.FreeFromFacts | src/qr-generator.ts:252-281 | the visiting order lists distinct free cells |
| Generator.FreeCellsFacts | src/qr-generator.ts:246-282 | the placement order has no repeats and no occupied cells |
| Generator.PlacementWritesFacts | src/qr-generator.ts:246-282 | write k goes to free cell k with stream bit k, while cells and bits last |
| Generator.OverlayDistinct | src/qr-generator.ts:269 | with distinct targets, each write's value stays |
| Generator.PlacedBit | src/qr-generator.ts:246-282 | the k-th free cell ends with stream bit k |
| Generator.PlacementSpares | src/qr-generator.ts:246-282 | occupied cells and free cells beyond the stream keep their value |
| Generator.RowCovers | src/qr-generator.ts:258-264 | a row of a pair visits both of its unoccupied cells |
| Generator.PairCovers | src/qr-generator.ts:255-278 | a pair visits every unoccupied cell of its two columns in the visited rows |
| Generator.FreeFromCovers | src/qr-generator.ts:252-253 | the scan from a column visits every unoccupied cell at or left of it |
| Generator.FreeCellsCover | src/qr-generator.ts:246-303 | every unoccupied cell of the grid is visited |
| Generator.AlignmentCentreIsDataCell | src/qr-generator.ts:154-164 | from version 2 on, the drawn alignment centre is dark, yet placement reaches it: data overwrites alignment patterns |
| Generator.FormatBits | src/qr-generator.ts:112-114 | 15 bits: the table entry for masks 0-7, else the fallback |
| Generator.DecimalDigits | src/qr-generator.ts:113 | the decimal numeral of a whole number: digits only, one digit exactly below 10, ending in the last digit |
| Generator.Decimal | src/qr-generator.ts:113 | a whole number as a template literal prints it: a leading minus exactly for negatives, else its digits |
| Generator.SourceFormatKey | src/qr-generator.ts:113 | the looked-up key `${level}${mask}` is the table key "<letter><digit>" for masks 0-7 |
| Generator.SourceKeyMissing | src/qr-generator.ts:113-114 | the key of a mask outside 0-7 is not in the format table |
| Generator.FormatBitsLookup | src/qr-generator.ts:112-114 | the format bits are the entry under the looked-up key when present, the fallback string exactly when the lookup misses |
| Generator.FormatPairs | src/qr-generator.ts:119-135 | two writes per turn |
| Generator.FormatWrites | src/qr-generator.ts:119-135 | 30 writes in all |
| Generator.FormatPairsAt | src/qr-generator.ts:119-135 | turn i contributes writes 2i and 2i+1 |
| Generator.FormatWritesIndex | src/qr-generator.ts:119-135 | write j is copy j%2 of bit j/2 |
| Generator.PerformedAfter | src/qr-generator.ts:119-135 | in-range writes before n are all performed |
| Generator.PerformedPrefix | src/qr-generator.ts:119-135 | writes whose rows exist all take effect, in order |
| Generator.OutcomeAfter | src/qr-generator.ts:119-135 | writes whose rows exist raise nothing: the later writes decide the outcome |
| Generator.FormatStepFails | src/qr-generator.ts:125-127 | the format writes stop at the 16th write (turn 7, row size) with RowOutOfRange(size), after 15 writes |
| Generator.PerformedStep | src/qr-generator.ts:123-133 | an in-range write is performed and the loop goes on |
| Generator.PerformedNone | src/qr-generator.ts:119 | no writes, no failure |
| Generator.PerformedStop | src/qr-generator.ts:127 | an out-of-range row throws there |
| Generator.OverlayLast | src/qr-generator.ts:119-135 | the last write to a cell wins |
| Generator.FormatCells | src/qr-generator.ts:119-135 | the cells the first 15 writes leave: bits 0-5 along row 8, bit 6 at (8,7) and (size-1,8), bit 7 at (8,8), bits 1-5 again up column 8 |
| Generator.EncodedDataLengthExact | src/qr-generator.ts:92-103 | the estimate equals the payload length for numeric, alphanumeric and byte data |
| Generator.RequiredBitsShortfall | src/qr-generator.ts:71-75 | the estimate is exact up to version 9, and short by the count-field growth from version 10 |
| Generator.CapacityMonotone | src/qr-generator.ts:78-87 | capacity never falls as the version grows |
| Generator.FirstFitFacts | src/qr-generator.ts:78-87 | the scan returns the first fitting version, or DataTooLarge when none fits |
| Generator.MinimumVersionSpec | src/qr-generator.ts:65-90 | automatic choice gives the smallest version whose capacity holds the estimate; DataTooLarge exactly when version 40 is too small |
| Generator.VersionRow | src/qr-generator.ts:25 | the looked-up row holds an eighth of the version's capacity in data codewords, and its side is 17 + 4v |
| Generator.AsBv8 | src/qr-generator.ts:41 | same bytes, as field elements |
| Generator.AsBytes | src/qr-generator.ts:44 | same bytes, as numbers |
| Generator.ToBv8 | src/qr-generator.ts:42 | a byte keeps its value as a field element |
| Generator.GenerateErrorCases | src/qr-generator.ts:19-63 | requested versions above 40 are invalid; automatic choice fails exactly when version 40 cannot hold the estimate; a fitting stream fails at the format step, an overflowing one at padding |
| Generator.SmallSymbolsReachFormatStep | src/qr-generator.ts:19-63 | automatic choice of versions 1-9 on byte-range text always reaches the format step |
| Generator.CapacityOfVersions9And10 | src/constants.ts:33-34 | versions 9 and 10 hold 1856 and 2192 data bits |
| Generator.FirstFitAtVersion10 | src/qr-generator.ts:78-87 | a 2188-bit estimate first fits version 10 |
| Generator.LowercaseBitCounts | src/qr-generator.ts:92-103 | 272 'a's: byte mode, an estimate of 2188 bits, a real version-10 stream of 2196 bits |
| Generator.AutomaticChoiceOverflows | src/qr-generator.ts:65-90 | for 272 'a's, automatic choice takes version 10 and generate throws NegativeRepeat(-4) at padding |
| Generator.QRGenerator.constructor | src/qr-generator.ts:10-17 | missing level defaults to M; missing version to 0 (automatic) |
| Generator.QRGenerator.Generate | src/qr-generator.ts:19-63 | always throws, with GenerateError |
| Generator.QRGenerator.EncodeCodewords | src/qr-generator.ts:31-45 | fails exactly when the stream is longer than the capacity, with the padding error; otherwise the data codewords followed by their Reed-Solomon remainder |
| Generator.QRGenerator.PackDataCodewords | src/qr-generator.ts:31-39 | fails exactly when the stream is longer than the capacity, with the padding error; otherwise the bytes of the padded stream |
| Generator.QRGenerator.DrawSymbol | src/qr-generator.ts:47-55 | matrix, best mask and format step always end in RowOutOfRange(side) |
| Generator.QRGenerator.FindMinimumVersion | src/qr-generator.ts:65-90 | the requested version when positive, else the scan's result |
| Generator.QRGenerator.ScanVersions | src/qr-generator.ts:78-89 | the loop returns the first version whose capacity holds the estimate, or DataTooLarge |
| Generator.QRGenerator.AvailableBits | src/qr-generator.ts:79-82 | the bits a version holds: 8 per data codeword |
| Generator.QRGenerator.AddFormatInformation | src/qr-generator.ts:111-136 | always throws RowOutOfRange(size), leaving the first 15 format writes in the matrix |
| Generator.QRGenerator.PlaceFormatBits | src/qr-generator.ts:119-135 | performs the format writes in order up to the first out-of-range row |
| Generator.QRGenerator.PlaceFormatPair | src/qr-generator.ts:123-133 | one turn: both copies of bit i take effect, or the turn stops with the error at the first missing row |
| Generator.QRGenerator.AssignCell | src/qr-generator.ts:123-133 | one assignment: performed when the row exists, otherwise it throws |
| Generator.QRGenerator.CreateMatrix | src/qr-generator.ts:138-167 | side 17 + 4v; each cell is the template (finders, separators, timing, alignment, dark module) overlaid with the placed data |
| Generator.QRGenerator.VersionSize | src/qr-generator.ts:139 | the table's side for a version is 17 + 4v |
| Generator.QRGenerator.DrawTemplate | src/qr-generator.ts:144-161 | a blank matrix becomes exactly the function-pattern template |
| Generator.QRGenerator.DrawTimed | src/qr-generator.ts:144-151 | a blank matrix gets the finders, the separators and the timing lines |
| Generator.QRGenerator.DrawAligned | src/qr-generator.ts:153-156 | alignment patterns are added only from version 2 on |
| Generator.QRGenerator.SetDarkModule | src/qr-generator.ts:158-161 | from version 2 on, (4v + 9, 8) turns dark, completing the template |
| Generator.QRGenerator.AddFinderPatterns | src/qr-generator.ts:169-183 | stamps the three finder templates |
| Generator.QRGenerator.DrawFinder | src/qr-generator.ts:177-181 | the 7x7 box at (row, col) shows the finder template and every other cell is unchanged |
| Generator.QRGenerator.AddSeparators | src/qr-generator.ts:185-205 | clears row and column 7 of each 8x8 box, clipped to the matrix |
| Generator.QRGenerator.AddTimingPatterns | src/qr-generator.ts:207-217 | alternating row 6 and column 6 between the finders |
| Generator.QRGenerator.AddAlignmentPatterns | src/qr-generator.ts:219-240 | stamps 5x5 patterns at every centre pair outside the finder areas |
| Generator.QRGenerator.AddAlignmentPairs | src/qr-generator.ts:222-239 | the two nested loops over centre pairs |
| Generator.QRGenerator.AddAlignmentBlock | src/qr-generator.ts:230-237 | one 5x5 pattern, clipped to the matrix |
| Generator.QRGenerator.PlaceData | src/qr-generator.ts:246-282 | the matrix becomes its old contents overlaid with stream bit k at free cell k |
| Generator.QRGenerator.PlacePair | src/qr-generator.ts:255-278 | one column pair keeps the placement invariant |
| Generator.QRGenerator.PlaceRow | src/qr-generator.ts:258-277 | the two cells of one row of a column pair keep the placement invariant |
| Generator.QRGenerator.VisitCell | src/qr-generator.ts:259-276 | one cell visit keeps the placement invariant |

## Left out

- The renderers, the command-line tool and `src/index.ts` are not part of this model. They do I/O.
- `margin` and `scale` are not modelled. Only the renderers read them.
- `ERROR_CORRECTION_LEVELS` and `ERROR_CORRECTION_CAPACITY` are not modelled. The core never reads them.
- `generateErrorCorrection` is not modelled. It is never called, and it only forwards to `encodeReedSolomon`.
- Strings are modelled as sequences of `char`, which covers text of non-surrogate code units in the Basic Multilingual Plane. Text with characters beyond U+FFFF (surrogate pairs) is not modelled. Non-integer, NaN and fractional numbers are not modelled. Versions, masks and counts are integers.
- Utils.EncodeNumeric: requires digits. `parseInt` on other characters gives NaN, and that garbage path is not modelled. `getBestMode` only hands digits to this encoder.
- Utils.EncodeAlphanumeric: `indexOf` returning -1 for a character outside the set is modelled through CharValue. The length lemma requires the set's characters.
- Utils.FromBinary: modelled only on non-empty strings of '0' and '1'. These are all that `bitsToBytes` passes to it.
- Utils.Padded: `totalBits` below the terminator point is covered. A `slice` with negative bounds is not reachable and is not modelled.
- GF256.InitializeGF256Tables: the tables are module state in the source. Here they are two array parameters, and the functions `Power` and `Log` stand for their contents everywhere else.
- ReedSolomon.GenerateRSGeneratorPoly: for n > 255, `ANTILOG_TABLE[i]` is `undefined` in JavaScript and acts as 0 in the XOR. The model uses root 0 for those indices.
- Bytes are `int` values 0..255 in the pipeline and `bv8` in the field. Generator.AsBv8 and Generator.AsBytes convert between them.
- MaskPatterns.ApplyMask: the source's `MASK_PATTERNS[pattern]` is also undefined for non-integers. Only integer patterns are modelled.
- MaskPatterns.EvaluateRule4: requires a matrix of side at least 1. On a 0 x 0 matrix the source divides 0 by 0 and returns NaN. Every matrix it is given has side at least 21.
- MaskPatterns.EvaluateMask: requires side at least 1, for the same reason. On a 0 x 0 matrix the source's sum is NaN.
- MaskPatterns.FindBestMask: requires side at least 1. On a 0 x 0 matrix every penalty is NaN, no comparison succeeds, and the source returns pattern 0. This cannot happen, since every matrix has side at least 21.
- ReedSolomon.GfPolyMultiply: requires at least one coefficient in total. With two empty lists the source's `new Array(-1)` throws a RangeError. Its only caller never passes two empty lists.
- Generator.QRGenerator.AddFinderPatterns: requires size >= 7. A smaller matrix makes the source throw part-way, which cannot happen for a table size.
- Generator.QRGenerator.AddFormatInformation: requires size >= 9, which every table size meets. The `version` parameter is unused, as in the source.
- Generator.QRGenerator.PlaceFormatBits: requires 15 format bits and size >= 9.
- Generator.QRGenerator.CreateMatrix: requires a version 1..40. `generate` calls it only after the table lookup succeeded.
- Matrix methods require a square matrix, as every matrix built by `createMatrix` is. The source's `isOccupied` takes the matrix but never reads it, so Generator.IsOccupied has no matrix parameter.
- The `if (!versionInfo) continue` in `findMinimumVersion` is dead: every version 1..40 has a row. It is not modelled.
- Generator.QRGenerator.PlaceData and the other drawing methods are proved against write lists. Which of those writes are visible is stated by the lemmas, not by the methods' own contracts.
- Generator.QRGenerator.Generate: the returned record's fields on success are not stated, because no input succeeds.
