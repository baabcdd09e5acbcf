/**
 * The static tables of the encoder (src/constants.ts): mode indicators, the
 * alphanumeric character set, the 40-row version table, the finder template,
 * the alignment-centre lists, the eight mask formulas of ISO/IEC 18004
 * section 7.8.2 and the 32-entry format-information table of section 7.9.
 * Every consistency fact about them below is checked by computation.
 */
module Constants {
  import opened Types

  /** The 4-bit mode indicator of each mode. */
  function ModeIndicator(mode: QRMode): (r: nat)
    ensures r < 16
  {
    match mode
    case Numeric => 0x1
    case Alphanumeric => 0x2
    case Byte => 0x4
    case Kanji => 0x8
  }

  /** The 45 characters of alphanumeric mode, in code-value order. */
  const ALPHANUMERIC_CHARS: string := "0123456789ABCDEFGHIJKLMNOPQRSTUVWXYZ $%*+-./:"

  /** Capacity and geometry of versions 1 to 40, row v - 1 describing version v. */
  const VERSION_INFO: seq<VersionInfo> := [
    VersionInfo(1, 26, 7, 19, 1, 21),
    VersionInfo(2, 44, 10, 34, 1, 25),
    VersionInfo(3, 70, 15, 55, 1, 29),
    VersionInfo(4, 100, 20, 80, 1, 33),
    VersionInfo(5, 134, 26, 108, 1, 37),
    VersionInfo(6, 172, 36, 136, 2, 41),
    VersionInfo(7, 196, 40, 156, 2, 45),
    VersionInfo(8, 242, 48, 194, 2, 49),
    VersionInfo(9, 292, 60, 232, 2, 53),
    VersionInfo(10, 346, 72, 274, 2, 57),
    VersionInfo(11, 404, 80, 324, 4, 61),
    VersionInfo(12, 466, 96, 370, 4, 65),
    VersionInfo(13, 532, 104, 428, 4, 69),
    VersionInfo(14, 581, 120, 461, 4, 73),
    VersionInfo(15, 655, 132, 523, 6, 77),
    VersionInfo(16, 733, 144, 589, 6, 81),
    VersionInfo(17, 815, 168, 647, 6, 85),
    VersionInfo(18, 901, 180, 721, 6, 89),
    VersionInfo(19, 991, 196, 795, 7, 93),
    VersionInfo(20, 1085, 224, 861, 8, 97),
    VersionInfo(21, 1156, 224, 932, 8, 101),
    VersionInfo(22, 1258, 252, 1006, 9, 105),
    VersionInfo(23, 1364, 270, 1094, 9, 109),
    VersionInfo(24, 1474, 300, 1174, 10, 113),
    VersionInfo(25, 1588, 312, 1276, 12, 117),
    VersionInfo(26, 1706, 336, 1370, 12, 121),
    VersionInfo(27, 1828, 360, 1468, 12, 125),
    VersionInfo(28, 1921, 390, 1531, 13, 129),
    VersionInfo(29, 2051, 420, 1631, 14, 133),
    VersionInfo(30, 2185, 450, 1735, 15, 137),
    VersionInfo(31, 2323, 480, 1843, 16, 141),
    VersionInfo(32, 2465, 510, 1955, 17, 145),
    VersionInfo(33, 2611, 540, 2071, 18, 149),
    VersionInfo(34, 2761, 570, 2191, 19, 153),
    VersionInfo(35, 2915, 570, 2345, 19, 157),
    VersionInfo(36, 3073, 600, 2473, 20, 161),
    VersionInfo(37, 3235, 630, 2605, 21, 165),
    VersionInfo(38, 3401, 660, 2741, 22, 169),
    VersionInfo(39, 3571, 720, 2851, 24, 173),
    VersionInfo(40, 3745, 750, 2995, 25, 177)
  ]

  /** The 7x7 finder template, 1 = dark. */
  const FINDER_PATTERN: seq<seq<int>> := [
    [1, 1, 1, 1, 1, 1, 1],
    [1, 0, 0, 0, 0, 0, 1],
    [1, 0, 1, 1, 1, 0, 1],
    [1, 0, 1, 1, 1, 0, 1],
    [1, 0, 1, 1, 1, 0, 1],
    [1, 0, 0, 0, 0, 0, 1],
    [1, 1, 1, 1, 1, 1, 1]
  ]

  /** Alignment-pattern centre coordinates, list v - 1 for version v. */
  const ALIGNMENT_PATTERNS: seq<seq<int>> := [
    [],
    [6, 18],
    [6, 22],
    [6, 26],
    [6, 30],
    [6, 34],
    [6, 22, 38],
    [6, 24, 42],
    [6, 26, 46],
    [6, 28, 50],
    [6, 30, 54],
    [6, 32, 58],
    [6, 34, 62],
    [6, 26, 46, 66],
    [6, 26, 48, 70],
    [6, 26, 50, 74],
    [6, 30, 54, 78],
    [6, 30, 56, 82],
    [6, 30, 58, 86],
    [6, 34, 62, 90],
    [6, 28, 50, 72, 94],
    [6, 26, 50, 74, 98],
    [6, 30, 54, 78, 102],
    [6, 28, 54, 80, 106],
    [6, 32, 58, 84, 110],
    [6, 30, 58, 86, 114],
    [6, 34, 62, 90, 118],
    [6, 26, 50, 74, 98, 122],
    [6, 30, 54, 78, 102, 126],
    [6, 26, 52, 78, 104, 130],
    [6, 30, 56, 82, 108, 134],
    [6, 34, 60, 86, 112, 138],
    [6, 30, 58, 86, 114, 142],
    [6, 34, 62, 90, 118, 146],
    [6, 30, 54, 78, 102, 126, 150],
    [6, 24, 50, 76, 102, 128, 154],
    [6, 28, 54, 80, 106, 132, 158],
    [6, 32, 58, 84, 110, 136, 162],
    [6, 26, 54, 82, 110, 138, 166],
    [6, 30, 58, 86, 114, 142, 170]
  ]

  /** The eight data-mask conditions; a module is inverted where its formula holds. */
  const MASK_PATTERNS: seq<(nat, nat) -> bool> := [
    (row: nat, col: nat) => (row + col) % 2 == 0,
    (row: nat, col: nat) => row % 2 == 0,
    (row: nat, col: nat) => col % 3 == 0,
    (row: nat, col: nat) => (row + col) % 3 == 0,
    (row: nat, col: nat) => (row / 2 + col / 3) % 2 == 0,
    (row: nat, col: nat) => (row * col) % 2 + (row * col) % 3 == 0,
    (row: nat, col: nat) => ((row * col) % 2 + (row * col) % 3) % 2 == 0,
    (row: nat, col: nat) => ((row + col) % 2 + (row * col) % 3) % 2 == 0
  ]

  /** Precomputed 15-bit format strings, keyed by level letter and mask id. */
  const FORMAT_INFO_TABLE: map<string, string> := map[
    "L0" := "111011111000100",
    "L1" := "111001011110011",
    "L2" := "111110110101010",
    "L3" := "111100010011101",
    "L4" := "110011000101111",
    "L5" := "110001100011000",
    "L6" := "110110001000001",
    "L7" := "110100101110110",
    "M0" := "101010000010010",
    "M1" := "101000100100101",
    "M2" := "101111001111100",
    "M3" := "101101101001011",
    "M4" := "100010111111001",
    "M5" := "100000011001110",
    "M6" := "100111110010111",
    "M7" := "100101010100000",
    "Q0" := "011010101011111",
    "Q1" := "011000001101000",
    "Q2" := "011111100110001",
    "Q3" := "011101000000110",
    "Q4" := "010010010110100",
    "Q5" := "010000110000011",
    "Q6" := "010111011011010",
    "Q7" := "010101111101101",
    "H0" := "001011010001001",
    "H1" := "001001110111110",
    "H2" := "001110011100111",
    "H3" := "001100111010000",
    "H4" := "000011101100010",
    "H5" := "000001001010101",
    "H6" := "000110100001100",
    "H7" := "000100000111011"
  ]

  /** Row i of the version table describes version i + 1 with side 21 + 4i. */
  predicate VersionRowShaped(i: nat)
    requires i < |VERSION_INFO|
  {
    var row := VERSION_INFO[i];
    row.version == i + 1 && row.size == 21 + 4 * i
    && row.totalCodewords == row.errorCorrectionCodewords + row.dataCodewords
  }

  lemma VersionTableLowerHalf()
    ensures |VERSION_INFO| == 40
    ensures forall i | 0 <= i < 20 :: VersionRowShaped(i)
  {
  }

  lemma VersionTableUpperHalf()
    ensures |VERSION_INFO| == 40
    ensures forall i | 20 <= i < 40 :: VersionRowShaped(i)
  {
  }

  /**
   * The version table has 40 rows; row v - 1 is version v, its side is
   * 21 + 4(v - 1), and its codewords split into error-correction and data.
   */
  lemma VersionTableShape()
    ensures |VERSION_INFO| == 40
    ensures forall i | 0 <= i < 40 ::
      VERSION_INFO[i].version == i + 1 && VERSION_INFO[i].size == 21 + 4 * i
    ensures forall i | 0 <= i < 40 ::
      VERSION_INFO[i].totalCodewords == VERSION_INFO[i].errorCorrectionCodewords + VERSION_INFO[i].dataCodewords
  {
    VersionTableLowerHalf();
    VersionTableUpperHalf();
    forall i | 0 <= i < 40
      ensures VERSION_INFO[i].version == i + 1 && VERSION_INFO[i].size == 21 + 4 * i
      ensures VERSION_INFO[i].totalCodewords == VERSION_INFO[i].errorCorrectionCodewords + VERSION_INFO[i].dataCodewords
    {
      assert VersionRowShaped(i);
    }
  }

  lemma DataCodewordsStepUp()
    ensures |VERSION_INFO| == 40
    ensures forall i | 0 <= i < 39 :: VERSION_INFO[i].dataCodewords < VERSION_INFO[i + 1].dataCodewords
  {
  }

  /** Data capacity strictly grows with the version. */
  lemma {:induction false} DataCodewordsIncreasing(i: nat, j: nat)
    requires i < j < 40
    ensures |VERSION_INFO| == 40
    ensures VERSION_INFO[i].dataCodewords < VERSION_INFO[j].dataCodewords
    decreases j - i
  {
    DataCodewordsStepUp();
    if i + 1 < j {
      DataCodewordsIncreasing(i + 1, j);
    }
  }

  /** Alignment list v - 1 is strictly ascending and runs from 6 to the side minus 7. */
  predicate AlignmentRowShaped(i: nat)
    requires i < |ALIGNMENT_PATTERNS|
  {
    var p := ALIGNMENT_PATTERNS[i];
    2 <= |p| && p[0] == 6 && p[|p| - 1] == 21 + 4 * i - 7
    && forall k | 0 <= k < |p| - 1 :: p[k] < p[k + 1]
  }

  lemma AlignmentTableLow()
    ensures |ALIGNMENT_PATTERNS| == 40 && ALIGNMENT_PATTERNS[0] == []
    ensures forall i | 1 <= i < 14 :: AlignmentRowShaped(i)
  {
  }

  lemma AlignmentTableMiddle()
    ensures |ALIGNMENT_PATTERNS| == 40
    ensures forall i | 14 <= i < 28 :: AlignmentRowShaped(i)
  {
  }

  lemma AlignmentTableHigh()
    ensures |ALIGNMENT_PATTERNS| == 40
    ensures forall i | 28 <= i < 40 :: AlignmentRowShaped(i)
  {
  }

  /** Chebyshev distance of finder cell (i, j) from the template's centre. */
  function FinderRing(i: int, j: int): nat {
    var di := if i < 3 then 3 - i else i - 3;
    var dj := if j < 3 then 3 - j else j - 3;
    if di < dj then dj else di
  }

  /** The finder template is a dark ring, a light ring and a dark 3x3 centre. */
  lemma FinderPatternRings()
    ensures |FINDER_PATTERN| == 7
    ensures forall i | 0 <= i < 7 :: |FINDER_PATTERN[i]| == 7
    ensures forall i, j | 0 <= i < 7 && 0 <= j < 7 ::
      FINDER_PATTERN[i][j] == (if FinderRing(i, j) == 2 then 0 else 1)
  {
  }

  /** Code values 0..35 (digits, then letters) are in ascending character order. */
  lemma AlphanumericDigitsAscending()
    ensures |ALPHANUMERIC_CHARS| == 45
    ensures forall k | 0 <= k < 10 :: ALPHANUMERIC_CHARS[k] < ALPHANUMERIC_CHARS[k + 1]
  {
    assert ALPHANUMERIC_CHARS[0] == "0123456789"[0];
    assert ALPHANUMERIC_CHARS[1] == '1';
  }

  lemma AlphanumericLettersAscending()
    ensures forall k | 10 <= k < 35 :: ALPHANUMERIC_CHARS[k] < ALPHANUMERIC_CHARS[k + 1]
  {
  }

  /** Code values 36..44 ascend too; they sit below '0', except ':' between '9' and 'A'. */
  lemma AlphanumericSymbolsAscending()
    ensures forall k | 36 <= k < 44 :: ALPHANUMERIC_CHARS[k] < ALPHANUMERIC_CHARS[k + 1]
    ensures ALPHANUMERIC_CHARS[43] < ALPHANUMERIC_CHARS[0]
    ensures ALPHANUMERIC_CHARS[9] < ALPHANUMERIC_CHARS[44] < ALPHANUMERIC_CHARS[10]
  {
    assert ALPHANUMERIC_CHARS[0] == "0123456789"[0];
  }

  /** Inside an ascending stretch [lo, hi), every earlier character is smaller. */
  lemma {:induction false} AlphanumericAscendingRun(lo: nat, hi: nat, i: nat, j: nat)
    requires lo <= i < j < hi <= |ALPHANUMERIC_CHARS|
    requires forall k | lo <= k < hi - 1 :: ALPHANUMERIC_CHARS[k] < ALPHANUMERIC_CHARS[k + 1]
    ensures ALPHANUMERIC_CHARS[i] < ALPHANUMERIC_CHARS[j]
    decreases j - i
  {
    if j > i + 1 {
      AlphanumericAscendingRun(lo, hi, i + 1, j);
    }
  }

  /** The alphanumeric set has 45 pairwise distinct characters. */
  lemma AlphanumericCharsDistinct()
    ensures |ALPHANUMERIC_CHARS| == 45
    ensures forall i, j | 0 <= i < j < 45 :: ALPHANUMERIC_CHARS[i] != ALPHANUMERIC_CHARS[j]
  {
    AlphanumericDigitsAscending();
    AlphanumericLettersAscending();
    AlphanumericSymbolsAscending();
    forall i, j | 0 <= i < j < 45
      ensures ALPHANUMERIC_CHARS[i] != ALPHANUMERIC_CHARS[j]
    {
      if j < 36 {
        AlphanumericAscendingRun(0, 36, i, j);
      } else if i >= 36 {
        AlphanumericAscendingRun(36, 45, i, j);
      } else if j < 44 {
        // a symbol below '0' against a digit or a letter
        if i > 0 { AlphanumericAscendingRun(0, 36, 0, i); }
        if j < 43 { AlphanumericAscendingRun(36, 45, j, 43); }
      } else {
        // ':' against a digit or a letter
        if i < 9 { AlphanumericAscendingRun(0, 36, i, 9); }
        else if i > 10 { AlphanumericAscendingRun(0, 36, 10, i); }
      }
    }
  }

  /** The ten digits come first, in order, so a digit's alphanumeric value is its numeric value. */
  lemma AlphanumericDigitsFirst()
    ensures |ALPHANUMERIC_CHARS| == 45
    ensures forall d | 0 <= d < 10 :: ALPHANUMERIC_CHARS[d] as int == '0' as int + d
  {
    assert ALPHANUMERIC_CHARS[0] == "0123456789"[0];
    forall d | 0 < d < 10
      ensures ALPHANUMERIC_CHARS[d] as int == '0' as int + d
    {
      assert ALPHANUMERIC_CHARS[d] == "0123456789"[d];
    }
  }

  /** The 26 letters follow the digits, in order: letter number n (from 0) has code value 10 + n. */
  lemma AlphanumericLettersNext()
    ensures |ALPHANUMERIC_CHARS| == 45
    ensures forall k | 10 <= k < 36 :: ALPHANUMERIC_CHARS[k] as int == 'A' as int + k - 10
  {
    assert ALPHANUMERIC_CHARS[10] == 'A';
    forall k | 10 < k < 36
      ensures ALPHANUMERIC_CHARS[k] as int == 'A' as int + k - 10
    {
      assert ALPHANUMERIC_CHARS[k] == "0123456789ABCDEFGHIJKLMNOPQRSTUVWXYZ"[k];
    }
  }

  /** The nine symbols close the set, with code values 36..44. */
  lemma AlphanumericSymbolsLast()
    ensures |ALPHANUMERIC_CHARS| == 45
    ensures ALPHANUMERIC_CHARS[36..] == " $%*+-./:"
  {
  }

  /** The level letter used in format-table keys. */
  function LevelLetter(level: ErrorCorrectionLevel): char {
    match level
    case L => 'L'
    case M => 'M'
    case Q => 'Q'
    case H => 'H'
  }

  /** The key the generator builds from a level and a mask number: `${level}${mask}`. */
  function FormatKey(level: ErrorCorrectionLevel, mask: nat): (k: string)
    requires mask < 8
    ensures |k| == 2 && k[0] == LevelLetter(level) && k[1] as int == '0' as int + mask
  {
    [LevelLetter(level), "01234567"[mask]]
  }

  /** The format table holds a 15-bit entry for `level` under every mask key. */
  predicate FormatRowPresent(level: ErrorCorrectionLevel, mask: nat)
    requires mask < 8
  {
    FormatKey(level, mask) in FORMAT_INFO_TABLE
    && |FORMAT_INFO_TABLE[FormatKey(level, mask)]| == 15
    && IsBits(FORMAT_INFO_TABLE[FormatKey(level, mask)])
  }

  /** Each L key of the format table holds 15 bits. */
  lemma FormatL0() ensures FormatRowPresent(L, 0) {}
  lemma FormatL1() ensures FormatRowPresent(L, 1) {}
  lemma FormatL2() ensures FormatRowPresent(L, 2) {}
  lemma FormatL3() ensures FormatRowPresent(L, 3) {}
  lemma FormatL4() ensures FormatRowPresent(L, 4) {}
  lemma FormatL5() ensures FormatRowPresent(L, 5) {}
  lemma FormatL6() ensures FormatRowPresent(L, 6) {}
  lemma FormatL7() ensures FormatRowPresent(L, 7) {}

  /** Each M key of the format table holds 15 bits. */
  lemma FormatM0() ensures FormatRowPresent(M, 0) {}
  lemma FormatM1() ensures FormatRowPresent(M, 1) {}
  lemma FormatM2() ensures FormatRowPresent(M, 2) {}
  lemma FormatM3() ensures FormatRowPresent(M, 3) {}
  lemma FormatM4() ensures FormatRowPresent(M, 4) {}
  lemma FormatM5() ensures FormatRowPresent(M, 5) {}
  lemma FormatM6() ensures FormatRowPresent(M, 6) {}
  lemma FormatM7() ensures FormatRowPresent(M, 7) {}

  /** Each Q key of the format table holds 15 bits. */
  lemma FormatQ0() ensures FormatRowPresent(Q, 0) {}
  lemma FormatQ1() ensures FormatRowPresent(Q, 1) {}
  lemma FormatQ2() ensures FormatRowPresent(Q, 2) {}
  lemma FormatQ3() ensures FormatRowPresent(Q, 3) {}
  lemma FormatQ4() ensures FormatRowPresent(Q, 4) {}
  lemma FormatQ5() ensures FormatRowPresent(Q, 5) {}
  lemma FormatQ6() ensures FormatRowPresent(Q, 6) {}
  lemma FormatQ7() ensures FormatRowPresent(Q, 7) {}

  /** Each H key of the format table holds 15 bits. */
  lemma FormatH0() ensures FormatRowPresent(H, 0) {}
  lemma FormatH1() ensures FormatRowPresent(H, 1) {}
  lemma FormatH2() ensures FormatRowPresent(H, 2) {}
  lemma FormatH3() ensures FormatRowPresent(H, 3) {}
  lemma FormatH4() ensures FormatRowPresent(H, 4) {}
  lemma FormatH5() ensures FormatRowPresent(H, 5) {}
  lemma FormatH6() ensures FormatRowPresent(H, 6) {}
  lemma FormatH7() ensures FormatRowPresent(H, 7) {}

  /** The table holds a 15-bit entry for level L under every mask. */
  lemma FormatTableLevelL(mask: nat)
    requires mask < 8
    ensures FormatRowPresent(L, mask)
  {
    if mask == 0 { FormatL0(); }
    else if mask == 1 { FormatL1(); }
    else if mask == 2 { FormatL2(); }
    else if mask == 3 { FormatL3(); }
    else if mask == 4 { FormatL4(); }
    else if mask == 5 { FormatL5(); }
    else if mask == 6 { FormatL6(); }
    else { FormatL7(); }
  }

  /** The table holds a 15-bit entry for level M under every mask. */
  lemma FormatTableLevelM(mask: nat)
    requires mask < 8
    ensures FormatRowPresent(M, mask)
  {
    if mask == 0 { FormatM0(); }
    else if mask == 1 { FormatM1(); }
    else if mask == 2 { FormatM2(); }
    else if mask == 3 { FormatM3(); }
    else if mask == 4 { FormatM4(); }
    else if mask == 5 { FormatM5(); }
    else if mask == 6 { FormatM6(); }
    else { FormatM7(); }
  }

  /** The table holds a 15-bit entry for level Q under every mask. */
  lemma FormatTableLevelQ(mask: nat)
    requires mask < 8
    ensures FormatRowPresent(Q, mask)
  {
    if mask == 0 { FormatQ0(); }
    else if mask == 1 { FormatQ1(); }
    else if mask == 2 { FormatQ2(); }
    else if mask == 3 { FormatQ3(); }
    else if mask == 4 { FormatQ4(); }
    else if mask == 5 { FormatQ5(); }
    else if mask == 6 { FormatQ6(); }
    else { FormatQ7(); }
  }

  /** The table holds a 15-bit entry for level H under every mask. */
  lemma FormatTableLevelH(mask: nat)
    requires mask < 8
    ensures FormatRowPresent(H, mask)
  {
    if mask == 0 { FormatH0(); }
    else if mask == 1 { FormatH1(); }
    else if mask == 2 { FormatH2(); }
    else if mask == 3 { FormatH3(); }
    else if mask == 4 { FormatH4(); }
    else if mask == 5 { FormatH5(); }
    else if mask == 6 { FormatH6(); }
    else { FormatH7(); }
  }

  /** Every (level, mask) key the generator can build is in the format table, with 15 bits. */
  lemma FormatTableComplete(level: ErrorCorrectionLevel, mask: nat)
    requires mask < 8
    ensures FormatRowPresent(level, mask)
  {
    match level
    case L => FormatTableLevelL(mask);
    case M => FormatTableLevelM(mask);
    case Q => FormatTableLevelQ(mask);
    case H => FormatTableLevelH(mask);
  }

  /** The eight keys of a level: its letter followed by each mask digit. */
  function LevelKeys(level: ErrorCorrectionLevel): (keys: set<string>) {
    match level
    case L => {"L0", "L1", "L2", "L3", "L4", "L5", "L6", "L7"}
    case M => {"M0", "M1", "M2", "M3", "M4", "M5", "M6", "M7"}
    case Q => {"Q0", "Q1", "Q2", "Q3", "Q4", "Q5", "Q6", "Q7"}
    case H => {"H0", "H1", "H2", "H3", "H4", "H5", "H6", "H7"}
  }

  /** A level has eight keys, each its letter followed by a digit 0-7. */
  lemma LevelKeysShape(level: ErrorCorrectionLevel)
    ensures |LevelKeys(level)| == 8
    ensures forall k | k in LevelKeys(level) :: |k| == 2 && k[0] == LevelLetter(level) && '0' <= k[1] <= '7'
  {
    match level
    case L => LetterKeysShape(LevelKeys(L), 'L');
    case M => LetterKeysShape(LevelKeys(M), 'M');
    case Q => LetterKeysShape(LevelKeys(Q), 'Q');
    case H => LetterKeysShape(LevelKeys(H), 'H');
  }

  /** The eight keys made of one letter and the digits 0-7. */
  lemma LetterKeysShape(keys: set<string>, c: char)
    requires keys == {[c, '0'], [c, '1'], [c, '2'], [c, '3'], [c, '4'], [c, '5'], [c, '6'], [c, '7']}
    ensures |keys| == 8
    ensures forall k | k in keys :: |k| == 2 && k[0] == c && '0' <= k[1] <= '7'
  {
  }

  /** The format table's keys are the keys of the four levels. */
  lemma FormatTableKeySet()
    ensures FORMAT_INFO_TABLE.Keys == LevelKeys(L) + LevelKeys(M) + LevelKeys(Q) + LevelKeys(H)
  {
  }

  /** Four sets of eight, told apart by their first character, make 32. */
  lemma FourLevelsCount(l: set<string>, m: set<string>, q: set<string>, h: set<string>)
    requires |l| == 8 && |m| == 8 && |q| == 8 && |h| == 8
    requires forall k | k in l :: |k| == 2 && k[0] == 'L'
    requires forall k | k in m :: |k| == 2 && k[0] == 'M'
    requires forall k | k in q :: |k| == 2 && k[0] == 'Q'
    requires forall k | k in h :: |k| == 2 && k[0] == 'H'
    ensures |l + m + q + h| == 32
  {
    assert l !! m;
    assert (l + m) !! q;
    assert (l + m + q) !! h;
  }

  /** The format table has exactly 32 entries. */
  lemma FormatTableSize()
    ensures |FORMAT_INFO_TABLE| == 32
  {
    FormatTableKeySet();
    LevelKeysShape(L);
    LevelKeysShape(M);
    LevelKeysShape(Q);
    LevelKeysShape(H);
    FourLevelsCount(LevelKeys(L), LevelKeys(M), LevelKeys(Q), LevelKeys(H));
  }

  /** The level whose key letter is `c`. */
  function LevelOfLetter(c: char): (level: ErrorCorrectionLevel)
    requires c == 'L' || c == 'M' || c == 'Q' || c == 'H'
    ensures LevelLetter(level) == c
  {
    if c == 'L' then L else if c == 'M' then M else if c == 'Q' then Q else H
  }

  /** Every key of the format table is a level letter followed by a digit 0-7. */
  lemma FormatTableKeyShape(k: string)
    requires k in FORMAT_INFO_TABLE
    ensures |k| == 2 && (k[0] == 'L' || k[0] == 'M' || k[0] == 'Q' || k[0] == 'H') && '0' <= k[1] <= '7'
  {
    FormatTableKeySet();
    var level :| k in LevelKeys(level);
    LevelKeysShape(level);
  }

  /**
   * The format table is keyed by exactly the strings "<level><mask>" for the
   * four levels and the masks 0-7.
   */
  lemma FormatTableKeys(k: string)
    ensures k in FORMAT_INFO_TABLE <==> exists level: ErrorCorrectionLevel, mask: nat | mask < 8 :: k == FormatKey(level, mask)
  {
    if k in FORMAT_INFO_TABLE {
      FormatTableKeyShape(k);
      var level := LevelOfLetter(k[0]);
      var mask: nat := k[1] as int - '0' as int;
      assert k == FormatKey(level, mask);
    }
    if exists level: ErrorCorrectionLevel, mask: nat | mask < 8 :: k == FormatKey(level, mask) {
      var level: ErrorCorrectionLevel, mask: nat :| mask < 8 && k == FormatKey(level, mask);
      FormatTableComplete(level, mask);
    }
  }
}
