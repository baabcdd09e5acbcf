/**
 * Bit-stream construction (src/utils.ts): mode choice, binary formatting,
 * numeric / alphanumeric / byte packing, the character-count widths, the
 * mode-indicator + count + payload layout, terminator and pad bytes, and the
 * split of the bit string into bytes.
 *
 * Bit strings are strings over '0' and '1', as in the source. The three
 * packers, `AddPadding` and `BitsToBytes` keep the source's loops and are
 * proved equal to the functions `NumericBits`, `AlphanumericBits`,
 * `ByteBits`, `Padded` and `BytesOf`; the lemmas about those functions give
 * lengths, layouts and round trips.
 */
module Utils {
  import opened Types
  import opened Constants

  function Min(a: int, b: int): int {
    if a < b then a else b
  }

  function Max(a: int, b: int): int {
    if a < b then b else a
  }

  // ---------------------------------------------------------------------------
  // getBestMode
  // ---------------------------------------------------------------------------

  /** An ASCII digit: what `\d` matches in a JavaScript regular expression without the u flag. */
  predicate IsDigit(c: char) {
    '0' <= c <= '9'
  }

  predicate AllDigits(s: string) {
    forall i | 0 <= i < |s| :: IsDigit(s[i])
  }

  /** `ALPHANUMERIC_CHARS.includes(c)`: the character has a position in the set. */
  predicate IsAlphanumericChar(c: char) {
    CharValue(c) >= 0
  }

  predicate AllAlphanumeric(s: string) {
    forall i | 0 <= i < |s| :: IsAlphanumericChar(s[i])
  }

  /**
   * getBestMode: numeric for a non-empty string of digits, otherwise
   * alphanumeric when every character is in the 45-character set (so also
   * for the empty string), otherwise byte. Kanji is never chosen.
   */
  function GetBestMode(data: string): (mode: QRMode)
    ensures mode != Kanji
    ensures mode == Numeric ==> AllDigits(data)
    ensures mode == Alphanumeric ==> AllAlphanumeric(data)
  {
    if |data| > 0 && AllDigits(data) then Numeric
    else if AllAlphanumeric(data) then Alphanumeric
    else Byte
  }

  /** Every digit is an alphanumeric character. */
  lemma DigitsAreAlphanumeric(s: string)
    requires AllDigits(s)
    ensures AllAlphanumeric(s)
  {
  }

  /**
   * Numeric is chosen exactly for non-empty digit strings, and byte exactly
   * for the strings with a character outside the alphanumeric set.
   */
  lemma BestModeCharacterization(data: string)
    ensures GetBestMode(data) == Numeric <==> |data| > 0 && AllDigits(data)
    ensures GetBestMode(data) == Byte <==> !AllAlphanumeric(data)
  {
    if AllDigits(data) {
      DigitsAreAlphanumeric(data);
    }
  }

  /** "12345" is numeric (unit test). */
  lemma BestModeNumericExample()
    ensures GetBestMode("12345") == Numeric
  {
  }

  /** "HELLO WORLD" is alphanumeric (unit test). */
  lemma BestModeAlphanumericExample()
    ensures GetBestMode("HELLO WORLD") == Alphanumeric
  {
    var hello := "HELLO WORLD";
    assert !IsDigit(hello[0]);
  }

  /** Text starting with 'a' needs byte mode: 'a' is not in the set. */
  lemma LowercaseNeedsByteMode(data: string)
    requires |data| > 0 && data[0] == 'a'
    ensures GetBestMode(data) == Byte
  {
    assert !IsAlphanumericChar(data[0]);
  }

  /** "Hello World!" needs byte mode (unit test): 'e' is not in the set. */
  lemma BestModeByteExample()
    ensures GetBestMode("Hello World!") == Byte
  {
    var mixed := "Hello World!";
    assert !IsAlphanumericChar(mixed[1]);
  }

  // ---------------------------------------------------------------------------
  // toBinary / fromBinary
  // ---------------------------------------------------------------------------

  function Pow2(k: nat): (p: nat)
    ensures p >= 1
  {
    if k == 0 then 1 else 2 * Pow2(k - 1)
  }

  function BitChar(b: nat): char
    requires b < 2
  {
    if b == 0 then '0' else '1'
  }

  /** `n.toString(2)` for n >= 0: the shortest binary numeral, "0" for zero. */
  function NatToBits(n: nat): (s: string)
    ensures |s| >= 1 && IsBits(s)
  {
    if n < 2 then [BitChar(n)] else NatToBits(n / 2) + [BitChar(n % 2)]
  }

  /** `num.toString(2)` on an integer: a minus sign before the magnitude when negative. */
  function NumberToBits(num: int): string {
    if num < 0 then "-" + NatToBits(-num) else NatToBits(num)
  }

  lemma ConcatAssociates<T>(a: seq<T>, b: seq<T>, c: seq<T>)
    ensures (a + b) + c == a + (b + c)
  {
  }

  /** n copies of c: `c.repeat(n)`. */
  function Repeat(c: char, n: nat): (s: string)
    ensures |s| == n && forall i | 0 <= i < n :: s[i] == c
  {
    seq(n, _ => c)
  }

  /** `s.padStart(length, "0")`: zeros in front up to `length`, never a truncation. */
  function PadStart(s: string, length: int): string {
    if length > |s| then Repeat('0', length - |s|) + s else s
  }

  /** The value of a bit string, most significant bit first. */
  function BitsValue(s: string): nat
    requires IsBits(s)
  {
    if |s| == 0 then 0 else 2 * BitsValue(s[..|s| - 1]) + (if s[|s| - 1] == '1' then 1 else 0)
  }

  /** Appending one bit doubles the value and adds the bit. */
  lemma BitsValueAppend(s: string, b: nat)
    requires IsBits(s) && b < 2
    ensures IsBits(s + [BitChar(b)]) && BitsValue(s + [BitChar(b)]) == 2 * BitsValue(s) + b
  {
    assert (s + [BitChar(b)])[..|s|] == s;
  }

  lemma ShiftProduct(x: nat, p: nat)
    ensures 2 * (x * p) == x * (2 * p)
  {
  }

  /** The value of a concatenation: the first part shifted left by the second part's length. */
  lemma {:induction false} BitsValueConcat(a: string, b: string)
    requires IsBits(a) && IsBits(b)
    ensures IsBits(a + b) && BitsValue(a + b) == BitsValue(a) * Pow2(|b|) + BitsValue(b)
    decreases |b|
  {
    if |b| > 0 {
      var b' := b[..|b| - 1];
      assert (a + b)[..|a + b| - 1] == a + b';
      BitsValueConcat(a, b');
      var x, p, bit := BitsValue(a), Pow2(|b'|), if b[|b| - 1] == '1' then 1 else 0;
      assert BitsValue(a + b) == 2 * (x * p + BitsValue(b')) + bit;
      assert BitsValue(b) == 2 * BitsValue(b') + bit;
      assert Pow2(|b|) == 2 * p;
      ShiftProduct(x, p);
    } else {
      assert a + b == a;
    }
  }

  lemma {:induction false} ZerosValue(n: nat)
    ensures IsBits(Repeat('0', n)) && BitsValue(Repeat('0', n)) == 0
  {
    if n > 0 {
      assert Repeat('0', n)[..n - 1] == Repeat('0', n - 1);
      ZerosValue(n - 1);
    }
  }

  /** A bit string of length k holds a value below 2^k. */
  lemma {:induction false} BitsValueBound(s: string)
    requires IsBits(s)
    ensures BitsValue(s) < Pow2(|s|)
  {
    if |s| > 0 {
      BitsValueBound(s[..|s| - 1]);
    }
  }

  /** The binary numeral of n denotes n. */
  lemma {:induction false} NatToBitsValue(n: nat)
    ensures BitsValue(NatToBits(n)) == n
  {
    if n >= 2 {
      NatToBitsValue(n / 2);
      BitsValueAppend(NatToBits(n / 2), n % 2);
    }
  }

  /** A number below 2^k has a numeral of at most k digits. */
  lemma {:induction false} NatToBitsLength(n: nat, k: nat)
    requires n < Pow2(k) && k >= 1
    ensures |NatToBits(n)| <= k
  {
    if n >= 2 {
      assert k >= 2;
      NatToBitsLength(n / 2, k - 1);
    }
  }

  /** Zeros in front do not change the value. */
  lemma LeadingZeros(n: nat, b: string)
    requires IsBits(b)
    ensures IsBits(Repeat('0', n) + b) && BitsValue(Repeat('0', n) + b) == BitsValue(b)
  {
    ZerosValue(n);
    BitsValueConcat(Repeat('0', n), b);
    var p := Pow2(|b|);
    assert 0 * p == 0;
  }

  /** padStart leaves the string as the suffix behind the added zeros. */
  lemma PadStartShape(numeral: string, length: int)
    ensures var s := PadStart(numeral, length);
      |s| == Max(length, |numeral|) && s == Repeat('0', |s| - |numeral|) + numeral
  {
  }

  /**
   * toBinary: the numeral of `num` padded with zeros on the left to `length`.
   * It never truncates: the result is as long as the longer of the two.
   */
  function ToBinary(num: int, length: int): (s: string)
    ensures |s| == Max(length, |NumberToBits(num)|)
  {
    PadStart(NumberToBits(num), length)
  }

  /** The numeral is always the suffix of toBinary's result: nothing is cut off. */
  lemma ToBinaryKeepsNumeral(num: int, length: int)
    ensures var s := ToBinary(num, length);
      s[|s| - |NumberToBits(num)|..] == NumberToBits(num)
      && forall i | 0 <= i < |s| - |NumberToBits(num)| :: s[i] == '0'
  {
    PadStartShape(NumberToBits(num), length);
  }

  /** For num >= 0, toBinary yields a bit string that denotes num. */
  lemma ToBinaryValue(num: nat, length: int)
    ensures IsBits(ToBinary(num, length)) && BitsValue(ToBinary(num, length)) == num
  {
    var numeral := NumberToBits(num);
    PadStartShape(numeral, length);
    NatToBitsValue(num);
    LeadingZeros(|ToBinary(num, length)| - |numeral|, numeral);
  }

  /** A value below 2^length fills exactly `length` characters. */
  lemma ToBinaryWidth(num: nat, length: nat)
    requires num < Pow2(length) && length >= 1
    ensures |ToBinary(num, length)| == length
  {
    NatToBitsLength(num, length);
  }

  /** parseInt(binary, 2) on a non-empty bit string. */
  function FromBinary(binary: string): (n: nat)
    requires IsBits(binary) && |binary| > 0
    ensures n < Pow2(|binary|)
  {
    BitsValueBound(binary);
    BitsValue(binary)
  }

  /** fromBinary inverts toBinary for every non-negative number and every width. */
  lemma FromBinaryOfToBinary(num: nat, length: int)
    ensures IsBits(ToBinary(num, length)) && FromBinary(ToBinary(num, length)) == num
  {
    ToBinaryValue(num, length);
  }

  /** The numeral of 2v + b, for v >= 1, is the numeral of v followed by the bit b. */
  lemma NatToBitsAppend(v: nat, b: nat)
    requires v >= 1 && b < 2
    ensures NatToBits(2 * v + b) == NatToBits(v) + [BitChar(b)]
  {
    assert (2 * v + b) / 2 == v && (2 * v + b) % 2 == b;
  }

  /** Appending a bit to a padded numeral gives the padded numeral of 2v + b, one place wider. */
  lemma ToBinaryAppendBit(v: nat, b: nat, length: nat)
    requires b < 2 && length >= 1 && |NatToBits(v)| <= length
    ensures ToBinary(2 * v + b, length + 1) == ToBinary(v, length) + [BitChar(b)]
  {
    PadStartShape(NatToBits(v), length);
    PadStartShape(NatToBits(2 * v + b), length + 1);
    if v == 0 {
      assert NatToBits(2 * v + b) == [BitChar(b)];
      assert ToBinary(v, length) == Repeat('0', length);
    } else {
      NatToBitsAppend(v, b);
    }
  }

  /** toBinary at a bit string's own width gives the bit string back, leading zeros included. */
  lemma {:induction false} ToBinaryOfFromBinary(s: string)
    requires IsBits(s) && |s| > 0
    ensures ToBinary(FromBinary(s), |s|) == s
    decreases |s|
  {
    if |s| == 1 {
      var c := BitChar(if s[0] == '1' then 1 else 0);
      assert s == [c];
    } else {
      ToBinaryOfFromBinary(s[..|s| - 1]);
      ToBinaryOfFromBinaryStep(s);
    }
  }

  /** The round trip survives appending one bit. */
  lemma ToBinaryOfFromBinaryStep(s: string)
    requires IsBits(s) && |s| > 1
    requires ToBinary(FromBinary(s[..|s| - 1]), |s| - 1) == s[..|s| - 1]
    ensures ToBinary(FromBinary(s), |s|) == s
  {
    var b := if s[|s| - 1] == '1' then 1 else 0;
    var s' := s[..|s| - 1];
    LastBitSplit(s);
    var v := FromBinary(s');
    NatToBitsLength(v, |s'|);
    ToBinaryAppendBit(v, b, |s'|);
    assert FromBinary(s) == 2 * v + b && |s| == |s'| + 1;
    assert ToBinary(v, |s'|) + [BitChar(b)] == s;
  }

  /** A bit string is its front followed by its last bit, and its value is twice the front's plus that bit. */
  lemma LastBitSplit(s: string)
    requires IsBits(s) && |s| > 1
    ensures var b := if s[|s| - 1] == '1' then 1 else 0;
      s == s[..|s| - 1] + [BitChar(b)] && FromBinary(s) == 2 * FromBinary(s[..|s| - 1]) + b
  {
    var last := s[|s| - 1];
    assert last == '0' || last == '1';
    assert s == s[..|s| - 1] + [last];
  }

  /** The two toBinary cases of the unit test. */
  lemma ToBinaryExamples()
    ensures ToBinary(5, 4) == "0101"
    ensures ToBinary(255, 8) == "11111111"
  {
  }

  // ---------------------------------------------------------------------------
  // Numeric mode
  // ---------------------------------------------------------------------------

  /** parseInt(chunk, 10) on a string of digits. */
  function DecimalValue(s: string): nat
    requires AllDigits(s)
  {
    if |s| == 0 then 0 else 10 * DecimalValue(s[..|s| - 1]) + (s[|s| - 1] as int - '0' as int)
  }

  function Pow10(k: nat): (p: nat)
    ensures p >= 1
  {
    if k == 0 then 1 else 10 * Pow10(k - 1)
  }

  lemma {:induction false} DecimalValueBound(s: string)
    requires AllDigits(s)
    ensures DecimalValue(s) < Pow10(|s|)
  {
    if |s| > 0 {
      DecimalValueBound(s[..|s| - 1]);
    }
  }

  /** Bits for a numeric group of n digits: 10 for three, 7 for two, 4 for one. */
  function NumericGroupWidth(n: nat): nat {
    if n == 3 then 10 else if n == 2 then 7 else 4
  }

  /** The numeric payload: groups of three digits from the left, each as a binary number. */
  function NumericBits(data: string): (bits: string)
    requires AllDigits(data)
    decreases |data|
  {
    if |data| == 0 then ""
    else
      var n := Min(3, |data|);
      ToBinary(DecimalValue(data[..n]), NumericGroupWidth(n)) + NumericBits(data[n..])
  }

  /** The bits the packing loop appends for the group starting at i. */
  function NumericPiece(data: string, i: nat): string
    requires AllDigits(data) && i < |data|
  {
    var end := Min(i + 3, |data|);
    ToBinary(DecimalValue(data[i..end]), NumericGroupWidth(end - i))
  }

  /** Unfolding the packing at group start i: its piece, then the packing of what follows. */
  lemma NumericBitsUnfold(data: string, i: nat)
    requires AllDigits(data) && i < |data|
    ensures NumericBits(data[i..]) == NumericPiece(data, i) + NumericBits(data[Min(i + 3, |data|)..])
  {
    var end := Min(i + 3, |data|);
    assert data[i..][..end - i] == data[i..end] && data[i..][end - i..] == data[end..];
  }

  /** One turn of the packing loop keeps `result + NumericBits(rest) == NumericBits(data)`. */
  lemma NumericBitsStep(data: string, i: nat, result: string)
    requires AllDigits(data) && i < |data|
    requires result + NumericBits(data[i..]) == NumericBits(data)
    ensures (result + NumericPiece(data, i)) + NumericBits(data[Min(i + 3, |data|)..]) == NumericBits(data)
  {
    NumericBitsUnfold(data, i);
    ConcatAssociates(result, NumericPiece(data, i), NumericBits(data[Min(i + 3, |data|)..]));
  }

  /** encodeNumeric. */
  method EncodeNumeric(data: string) returns (result: string)
    requires AllDigits(data)
    ensures result == NumericBits(data)
  {
    result := "";
    var i := 0;
    while i < |data|
      invariant 0 <= i
      invariant result + NumericBits(data[Min(i, |data|)..]) == NumericBits(data)
      decreases |data| - i
    {
      var chunk := data[i..Min(i + 3, |data|)];
      var num := DecimalValue(chunk);
      var piece;
      if |chunk| == 3 {
        piece := ToBinary(num, 10);
      } else if |chunk| == 2 {
        piece := ToBinary(num, 7);
      } else {
        piece := ToBinary(num, 4);
      }
      NumericBitsStep(data, i, result);
      assert piece == NumericPiece(data, i);
      result := result + piece;
      i := i + 3;
    }
  }

  /** A group of n <= 3 digits fits its width exactly. */
  lemma NumericGroupFits(chunk: string)
    requires AllDigits(chunk) && 1 <= |chunk| <= 3
    ensures |ToBinary(DecimalValue(chunk), NumericGroupWidth(|chunk|))| == NumericGroupWidth(|chunk|)
  {
    DecimalValueBound(chunk);
    assert Pow10(1) == 10 && Pow10(2) == 100 && Pow10(3) == 1000;
    assert Pow2(4) == 16 && Pow2(7) == 128 && Pow2(10) == 1024;
    ToBinaryWidth(DecimalValue(chunk), NumericGroupWidth(|chunk|));
  }

  /** Numeric packing takes 10 bits per full group and 4 or 7 for a final group of 1 or 2 digits. */
  lemma {:induction false} NumericBitsLength(data: string)
    requires AllDigits(data)
    ensures |NumericBits(data)| == 10 * (|data| / 3) + [0, 4, 7][|data| % 3]
    decreases |data|
  {
    if |data| > 0 {
      var n := Min(3, |data|);
      NumericGroupFits(data[..n]);
      NumericBitsLength(data[n..]);
      var group := ToBinary(DecimalValue(data[..n]), NumericGroupWidth(n));
      assert |NumericBits(data)| == |group| + |NumericBits(data[n..])|;
      if n == 3 {
        assert |data| / 3 == 1 + |data[n..]| / 3 && |data| % 3 == |data[n..]| % 3;
      }
    }
  }

  /** "123" packs into the ten bits of 123. */
  lemma NumericExample()
    ensures NumericBits("123") == "0001111011"
  {
    var s := "123";
    assert s[..3] == s && s[3..] == "";
    assert s[..2] == "12" && "12"[..1] == "1" && "1"[..0] == "";
    assert DecimalValue(s) == 123;
    NatToBitsOf123();
    assert ToBinary(123, 10) == Repeat('0', 3) + "1111011";
  }

  /** 123 in binary is 1111011. */
  lemma NatToBitsOf123()
    ensures NatToBits(123) == "1111011"
  {
    assert NatToBits(3) == "11";
    assert NatToBits(7) == "111";
    assert NatToBits(15) == "1111";
    assert NatToBits(30) == "11110";
    assert NatToBits(61) == "111101";
  }

  // ---------------------------------------------------------------------------
  // Alphanumeric mode
  // ---------------------------------------------------------------------------

  /** `s.indexOf(c)`: the first index of c in s, or -1. */
  function IndexOf(s: string, c: char): (r: int)
    ensures -1 <= r < |s|
    ensures r >= 0 ==> s[r] == c && forall k | 0 <= k < r :: s[k] != c
    ensures r == -1 ==> forall k | 0 <= k < |s| :: s[k] != c
  {
    if |s| == 0 then -1
    else if s[0] == c then 0
    else
      var r := IndexOf(s[1..], c);
      assert s == [s[0]] + s[1..];
      if r < 0 then -1 else r + 1
  }

  /**
   * The alphanumeric code value of a character, read off the layout of the
   * set: digits 0-9, letters 10-35, then space $ % * + - . / : as 36-44, and
   * -1 for any other character. CharValueIsIndexOf shows that this is the
   * character's `indexOf` in ALPHANUMERIC_CHARS.
   */
  function CharValue(c: char): (v: int)
    ensures -1 <= v < 45
  {
    if '0' <= c <= '9' then c as int - '0' as int
    else if 'A' <= c <= 'Z' then c as int - 'A' as int + 10
    else if c == ' ' then 36
    else if c == '$' then 37
    else if c == '%' then 38
    else if c == '*' then 39
    else if c == '+' then 40
    else if c == '-' then 41
    else if c == '.' then 42
    else if c == '/' then 43
    else if c == ':' then 44
    else -1
  }

  /** Different characters never share a code value. */
  lemma CharValueInjective(a: char, b: char)
    requires CharValue(a) >= 0 && CharValue(a) == CharValue(b)
    ensures a == b
  {
  }

  /** Code value k belongs to the k-th character of the set. */
  lemma CharValueOfIndex(k: nat)
    requires k < 45
    ensures |ALPHANUMERIC_CHARS| == 45 && CharValue(ALPHANUMERIC_CHARS[k]) == k
  {
    if k < 10 {
      AlphanumericDigitsFirst();
    } else if k < 36 {
      AlphanumericLettersNext();
    } else {
      AlphanumericSymbolsLast();
      assert ALPHANUMERIC_CHARS[k] == " $%*+-./:"[k - 36];
    }
  }

  /** `indexOf` finds the only position holding c, in a sequence without repeats. */
  lemma IndexOfUnique(s: string, c: char, k: nat)
    requires k < |s| && s[k] == c
    requires forall i, j | 0 <= i < j < |s| :: s[i] != s[j]
    ensures IndexOf(s, c) == k
  {
  }

  /** The code value is the character's `indexOf` in ALPHANUMERIC_CHARS, -1 when it is absent. */
  lemma CharValueIsIndexOf(c: char)
    ensures CharValue(c) == IndexOf(ALPHANUMERIC_CHARS, c)
  {
    AlphanumericCharsDistinct();
    var r := IndexOf(ALPHANUMERIC_CHARS, c);
    if r >= 0 {
      CharValueOfIndex(r);
    } else if CharValue(c) >= 0 {
      CharValueOfIndex(CharValue(c));
      CharValueInjective(c, ALPHANUMERIC_CHARS[CharValue(c)]);
      assert false;
    }
  }

  /** Exactly the characters of the set have a code value, and the value indexes the character. */
  lemma CharValueOfMember(c: char)
    ensures IsAlphanumericChar(c) <==> c in ALPHANUMERIC_CHARS
    ensures IsAlphanumericChar(c) ==> ALPHANUMERIC_CHARS[CharValue(c)] == c
  {
    CharValueIsIndexOf(c);
  }

  /**
   * The alphanumeric payload: pairs from the left as 45 * v1 + v2 in 11 bits,
   * a final single character as its value in 6 bits. A character outside the
   * set has value -1, which the source formats as it comes.
   */
  function AlphanumericBits(data: string): (bits: string)
    decreases |data|
  {
    if |data| == 0 then ""
    else if |data| == 1 then ToBinary(CharValue(data[0]), 6)
    else ToBinary(CharValue(data[0]) * 45 + CharValue(data[1]), 11) + AlphanumericBits(data[2..])
  }

  /** The piece the packing loop appends for position i: a pair, or the last character alone. */
  function AlphanumericPiece(data: string, i: nat): string
    requires i < |data|
  {
    if i + 1 < |data| then ToBinary(CharValue(data[i]) * 45 + CharValue(data[i + 1]), 11)
    else ToBinary(CharValue(data[i]), 6)
  }

  /** Unfolding the packing at position i: its piece, then the packing of what follows. */
  lemma AlphanumericBitsUnfold(data: string, i: nat)
    requires i < |data|
    ensures AlphanumericBits(data[i..])
      == AlphanumericPiece(data, i) + AlphanumericBits(data[Min(i + 2, |data|)..])
  {
    if i + 1 < |data| {
      assert data[i..][2..] == data[i + 2..];
    }
  }

  /** One turn of the packing loop keeps `result + AlphanumericBits(rest) == AlphanumericBits(data)`. */
  lemma AlphanumericBitsStep(data: string, i: nat, result: string)
    requires i < |data|
    requires result + AlphanumericBits(data[i..]) == AlphanumericBits(data)
    ensures (result + AlphanumericPiece(data, i)) + AlphanumericBits(data[Min(i + 2, |data|)..])
      == AlphanumericBits(data)
  {
    AlphanumericBitsUnfold(data, i);
    ConcatAssociates(result, AlphanumericPiece(data, i), AlphanumericBits(data[Min(i + 2, |data|)..]));
  }

  /** The body of the packing loop at position i: a pair in 11 bits, or the last character in 6. */
  method EncodeAlphanumericPiece(data: string, i: nat) returns (piece: string)
    requires i < |data|
    ensures piece == AlphanumericPiece(data, i)
  {
    if i + 1 < |data| {
      var val1 := CharValue(data[i]);
      var val2 := CharValue(data[i + 1]);
      var combined := val1 * 45 + val2;
      piece := ToBinary(combined, 11);
    } else {
      var val := CharValue(data[i]);
      piece := ToBinary(val, 6);
    }
  }

  /** encodeAlphanumeric. */
  method EncodeAlphanumeric(data: string) returns (result: string)
    ensures result == AlphanumericBits(data)
  {
    result := "";
    var i := 0;
    while i < |data|
      invariant 0 <= i
      invariant result + AlphanumericBits(data[Min(i, |data|)..]) == AlphanumericBits(data)
      decreases |data| - i
    {
      var piece := EncodeAlphanumericPiece(data, i);
      AlphanumericBitsStep(data, i, result);
      result := result + piece;
      i := i + 2;
    }
  }

  /** A pair of code values combines to a number below 45 * 45 = 2025, which fits 11 bits. */
  lemma PairFits(a: char, b: char)
    requires IsAlphanumericChar(a) && IsAlphanumericChar(b)
    ensures 0 <= CharValue(a) * 45 + CharValue(b) < 2025
    ensures |ToBinary(CharValue(a) * 45 + CharValue(b), 11)| == 11
  {
    ToBinaryWidth(CharValue(a) * 45 + CharValue(b), 11);
  }

  /** Alphanumeric packing takes 11 bits per pair and 6 for a final single character. */
  lemma {:induction false} AlphanumericBitsLength(data: string)
    requires AllAlphanumeric(data)
    ensures |AlphanumericBits(data)| == 11 * (|data| / 2) + 6 * (|data| % 2)
    decreases |data|
  {
    if |data| == 1 {
      ToBinaryWidth(CharValue(data[0]), 6);
    } else if |data| >= 2 {
      PairFits(data[0], data[1]);
      AlphanumericBitsLength(data[2..]);
    }
  }

  // ---------------------------------------------------------------------------
  // Byte mode
  // ---------------------------------------------------------------------------

  /** Every character code is below 256. */
  predicate AllBytes(data: string) {
    forall i | 0 <= i < |data| :: data[i] as int < 256
  }

  /** The byte payload: each character code in (at least) 8 bits. */
  function ByteBits(data: string): (bits: string)
    decreases |data|
  {
    if |data| == 0 then "" else ToBinary(data[0] as int, 8) + ByteBits(data[1..])
  }

  /** One turn of the byte loop keeps `result + ByteBits(rest) == ByteBits(data)`. */
  lemma ByteBitsStep(data: string, i: nat, result: string)
    requires i < |data|
    requires result + ByteBits(data[i..]) == ByteBits(data)
    ensures (result + ToBinary(data[i] as int, 8)) + ByteBits(data[i + 1..]) == ByteBits(data)
  {
    assert data[i..][1..] == data[i + 1..];
    ConcatAssociates(result, ToBinary(data[i] as int, 8), ByteBits(data[i + 1..]));
  }

  /** encodeByte. */
  method EncodeByte(data: string) returns (result: string)
    ensures result == ByteBits(data)
  {
    result := "";
    for i := 0 to |data|
      invariant result + ByteBits(data[i..]) == ByteBits(data)
    {
      var charCode := data[i] as int;
      ByteBitsStep(data, i, result);
      result := result + ToBinary(charCode, 8);
    }
  }

  /** With every code below 256, byte mode emits exactly 8 bits per character. */
  lemma {:induction false} ByteBitsLength(data: string)
    requires AllBytes(data)
    ensures |ByteBits(data)| == 8 * |data|
    decreases |data|
  {
    if |data| > 0 {
      ToBinaryWidth(data[0] as int, 8);
      ByteBitsLength(data[1..]);
    }
  }

  // ---------------------------------------------------------------------------
  // encodeData, getCharCountLength, createDataString
  // ---------------------------------------------------------------------------

  /** The payload of `data` in `mode`; kanji mode has no encoder and fails. */
  function EncodedBits(data: string, mode: QRMode): (r: Result<string>)
    requires mode == Numeric ==> AllDigits(data)
    ensures r.Err? <==> mode == Kanji
    ensures r.Err? ==> r.error == UnsupportedMode(mode)
  {
    match mode
    case Numeric => Ok(NumericBits(data))
    case Alphanumeric => Ok(AlphanumericBits(data))
    case Byte => Ok(ByteBits(data))
    case Kanji => Err(UnsupportedMode(mode))
  }

  /** encodeData: dispatch on the mode. */
  method EncodeData(data: string, mode: QRMode) returns (r: Result<string>)
    requires mode == Numeric ==> AllDigits(data)
    ensures r == EncodedBits(data, mode)
  {
    match mode
    case Numeric =>
      var bits := EncodeNumeric(data);
      r := Ok(bits);
    case Alphanumeric =>
      var bits := EncodeAlphanumeric(data);
      r := Ok(bits);
    case Byte =>
      var bits := EncodeByte(data);
      r := Ok(bits);
    case Kanji =>
      r := Err(UnsupportedMode(mode));
  }

  /** "123" in numeric mode encodes to the ten bits of 123. */
  lemma EncodeDataExample()
    ensures EncodedBits("123", Numeric) == Ok("0001111011")
  {
    NumericExample();
  }

  /** Width of the character-count field by mode and version band (1-9, 10-26, 27-40). */
  function GetCharCountLength(mode: QRMode, version: int): (w: nat)
    ensures 8 <= w <= 16
  {
    match mode
    case Numeric => if version <= 9 then 10 else if version <= 26 then 12 else 14
    case Alphanumeric => if version <= 9 then 9 else if version <= 26 then 11 else 13
    case Byte => if version <= 9 then 8 else if version <= 26 then 16 else 16
    case Kanji => if version <= 9 then 8 else if version <= 26 then 10 else 12
  }

  /** Count widths never shrink as the version grows, so the version-1 width is the smallest. */
  lemma CharCountLengthMonotone(mode: QRMode, v: int, w: int)
    requires v <= w
    ensures GetCharCountLength(mode, v) <= GetCharCountLength(mode, w)
  {
  }

  /** The bit stream before padding: mode indicator, character count, payload. */
  function DataString(data: string, mode: QRMode, version: int): (r: Result<string>)
    requires mode == Numeric ==> AllDigits(data)
    ensures r.Err? <==> mode == Kanji
  {
    var payload :- EncodedBits(data, mode);
    Ok(ToBinary(ModeIndicator(mode), 4) + ToBinary(|data|, GetCharCountLength(mode, version)) + payload)
  }

  /** createDataString. */
  method CreateDataString(data: string, mode: QRMode, version: int) returns (r: Result<string>)
    requires mode == Numeric ==> AllDigits(data)
    ensures r == DataString(data, mode, version)
  {
    var modeIndicator := ToBinary(ModeIndicator(mode), 4);
    var charCountLength := GetCharCountLength(mode, version);
    var charCount := ToBinary(|data|, charCountLength);
    var encoded := EncodeData(data, mode);
    if encoded.Err? {
      return Err(encoded.error);
    }
    r := Ok(modeIndicator + charCount + encoded.value);
  }

  /**
   * When the length fits its count field, the stream reads back as: 4 bits
   * giving the mode indicator, `GetCharCountLength(mode, version)` bits
   * giving the character count, then the payload.
   */
  lemma DataStringLayout(data: string, mode: QRMode, version: int)
    requires mode != Kanji
    requires mode == Numeric ==> AllDigits(data)
    requires |data| < Pow2(GetCharCountLength(mode, version))
    ensures var s := DataString(data, mode, version).value;
      var w := GetCharCountLength(mode, version);
      var payload := EncodedBits(data, mode).value;
      |s| == 4 + w + |payload|
      && IsBits(s[..4]) && FromBinary(s[..4]) == ModeIndicator(mode)
      && IsBits(s[4..4 + w]) && FromBinary(s[4..4 + w]) == |data|
      && s[4 + w..] == payload
  {
    var w := GetCharCountLength(mode, version);
    ToBinaryWidth(ModeIndicator(mode), 4);
    ToBinaryWidth(|data|, w);
    FromBinaryOfToBinary(ModeIndicator(mode), 4);
    FromBinaryOfToBinary(|data|, w);
    var s := DataString(data, mode, version).value;
    var payload := EncodedBits(data, mode).value;
    assert s == ToBinary(ModeIndicator(mode), 4) + ToBinary(|data|, w) + payload;
    assert s[..4] == ToBinary(ModeIndicator(mode), 4);
    assert s[4..4 + w] == ToBinary(|data|, w);
  }

  /** Joining two bit strings gives a bit string. */
  lemma BitsConcat(a: string, b: string)
    requires IsBits(a) && IsBits(b)
    ensures IsBits(a + b)
  {
    assert forall i | |a| <= i < |a + b| :: (a + b)[i] == b[i - |a|];
  }

  /** The numeric payload is a bit string. */
  lemma {:induction false} NumericBitsAreBits(data: string)
    requires AllDigits(data)
    ensures IsBits(NumericBits(data))
    decreases |data|
  {
    if |data| > 0 {
      var n := Min(3, |data|);
      ToBinaryValue(DecimalValue(data[..n]), NumericGroupWidth(n));
      NumericBitsAreBits(data[n..]);
      BitsConcat(ToBinary(DecimalValue(data[..n]), NumericGroupWidth(n)), NumericBits(data[n..]));
    }
  }

  /** Over the 45-character set every code value is non-negative, so the payload is a bit string. */
  lemma {:induction false} AlphanumericBitsAreBits(data: string)
    requires AllAlphanumeric(data)
    ensures IsBits(AlphanumericBits(data))
    decreases |data|
  {
    if |data| == 1 {
      CharValueOfMember(data[0]);
      ToBinaryValue(CharValue(data[0]), 6);
    } else if |data| >= 2 {
      PairFits(data[0], data[1]);
      ToBinaryValue(CharValue(data[0]) * 45 + CharValue(data[1]), 11);
      AlphanumericBitsAreBits(data[2..]);
      BitsConcat(ToBinary(CharValue(data[0]) * 45 + CharValue(data[1]), 11), AlphanumericBits(data[2..]));
    }
  }

  /** Character codes are never negative, so the byte payload is a bit string whatever the text. */
  lemma {:induction false} ByteBitsAreBits(data: string)
    ensures IsBits(ByteBits(data))
    decreases |data|
  {
    if |data| > 0 {
      ToBinaryValue(data[0] as int, 8);
      ByteBitsAreBits(data[1..]);
      BitsConcat(ToBinary(data[0] as int, 8), ByteBits(data[1..]));
    }
  }

  /** For a text in the character set of its mode, the whole stream is a bit string. */
  lemma DataStringIsBits(data: string, mode: QRMode, version: int)
    requires mode != Kanji
    requires mode == Numeric ==> AllDigits(data)
    requires mode == Alphanumeric ==> AllAlphanumeric(data)
    ensures IsBits(DataString(data, mode, version).value)
  {
    var payload := EncodedBits(data, mode).value;
    match mode
    case Numeric => NumericBitsAreBits(data);
    case Alphanumeric => AlphanumericBitsAreBits(data);
    case Byte => ByteBitsAreBits(data);
    ToBinaryValue(ModeIndicator(mode), 4);
    ToBinaryValue(|data|, GetCharCountLength(mode, version));
    BitsConcat(ToBinary(ModeIndicator(mode), 4), ToBinary(|data|, GetCharCountLength(mode, version)));
    BitsConcat(ToBinary(ModeIndicator(mode), 4) + ToBinary(|data|, GetCharCountLength(mode, version)), payload);
  }

  // ---------------------------------------------------------------------------
  // addPadding
  // ---------------------------------------------------------------------------

  /** Pad byte i: 11101100 for even i, 00010001 for odd i. */
  function PadByte(i: nat): (b: string)
    ensures |b| == 8
  {
    if i % 2 == 0 then "11101100" else "00010001"
  }

  /** The first k pad bytes, alternating. */
  function PadBytes(k: nat): (s: string)
    ensures |s| == 8 * k
  {
    if k == 0 then "" else PadBytes(k - 1) + PadByte(k - 1)
  }

  /** The stream after the terminator and the zero fill to a byte boundary. */
  function Terminated(s: string, terminatorLength: nat): (f: string) {
    var t := s + Repeat('0', terminatorLength);
    if |t| % 8 != 0 then t + Repeat('0', 8 - |t| % 8) else t
  }

  /** The number of pad bytes the loop appends: the fewest that reach `totalBits`. */
  function PadCount(filled: nat, totalBits: int): nat {
    if totalBits <= filled then 0 else (totalBits - filled + 7) / 8
  }

  /**
   * addPadding: a terminator of min(4, room) zeros, zeros to a byte boundary,
   * alternating pad bytes until `totalBits` is reached, then the first
   * `totalBits` bits. A stream longer than `totalBits` makes the terminator
   * count negative, and repeating "0" a negative number of times throws.
   */
  function Padded(s: string, totalBits: int): (r: Result<string>) {
    var terminatorLength := Min(4, totalBits - |s|);
    if terminatorLength < 0 then Err(NegativeRepeat(terminatorLength))
    else
      var f := Terminated(s, terminatorLength);
      var padded := f + PadBytes(PadCount(|f|, totalBits));
      assert |padded| >= totalBits;
      Ok(padded[..totalBits])
  }

  /** Below the target, the loop may append one more pad byte, the one its index selects. */
  lemma PadStep(filled: nat, paddingIndex: nat, totalBits: int)
    requires paddingIndex <= PadCount(filled, totalBits) && filled + 8 * paddingIndex < totalBits
    ensures paddingIndex + 1 <= PadCount(filled, totalBits)
    ensures PadBytes(paddingIndex + 1) == PadBytes(paddingIndex) + ["11101100", "00010001"][paddingIndex % 2]
  {
  }

  /** Once the target is reached the loop has appended exactly PadCount bytes. */
  lemma PadExit(filled: nat, paddingIndex: nat, totalBits: int)
    requires paddingIndex <= PadCount(filled, totalBits) && filled + 8 * paddingIndex >= totalBits
    ensures paddingIndex == PadCount(filled, totalBits)
  {
  }

  /** addPadding. */
  method AddPadding(dataString: string, totalBits: int) returns (r: Result<string>)
    ensures r == Padded(dataString, totalBits)
  {
    var result := dataString;
    var terminatorLength := Min(4, totalBits - |result|);
    if terminatorLength < 0 {
      return Err(NegativeRepeat(terminatorLength));
    }
    result := Terminate(result, terminatorLength);
    ghost var filled := result;
    var paddingBytes := ["11101100", "00010001"];
    var paddingIndex := 0;
    while |result| < totalBits
      invariant result == filled + PadBytes(paddingIndex)
      invariant paddingIndex <= PadCount(|filled|, totalBits)
      decreases totalBits - |result|
    {
      PadStep(|filled|, paddingIndex, totalBits);
      ConcatAssociates(filled, PadBytes(paddingIndex), paddingBytes[paddingIndex % 2]);
      result := result + paddingBytes[paddingIndex % 2];
      paddingIndex := paddingIndex + 1;
    }
    PadExit(|filled|, paddingIndex, totalBits);
    r := Ok(result[..totalBits]);
  }

  /** The terminator zeros, then zeros up to the next byte boundary. */
  method Terminate(dataString: string, terminatorLength: nat) returns (result: string)
    ensures result == Terminated(dataString, terminatorLength)
  {
    result := dataString + Repeat('0', terminatorLength);
    var remainder := |result| % 8;
    if remainder != 0 {
      result := result + Repeat('0', 8 - remainder);
    }
  }

  /** addPadding succeeds exactly when the stream fits, and then keeps it as a prefix of exactly `totalBits` bits. */
  lemma PaddedFits(s: string, totalBits: int)
    ensures Padded(s, totalBits).Ok? <==> |s| <= totalBits
    ensures Padded(s, totalBits).Ok? ==>
      |Padded(s, totalBits).value| == totalBits && Padded(s, totalBits).value[..|s|] == s
  {
    if |s| <= totalBits {
      var t := Min(4, totalBits - |s|);
      var f := Terminated(s, t);
      assert f[..|s|] == s;
    }
  }

  /** Padding a bit string adds only '0' and '1' characters. */
  lemma PaddedIsBits(s: string, totalBits: int)
    requires IsBits(s) && Padded(s, totalBits).Ok?
    ensures IsBits(Padded(s, totalBits).value)
  {
    var t := Min(4, totalBits - |s|);
    var f := Terminated(s, t);
    var padded := f + PadBytes(PadCount(|f|, totalBits));
    PadBytesAreBits(PadCount(|f|, totalBits));
    assert IsBits(f);
    BitsConcat(f, PadBytes(PadCount(|f|, totalBits)));
  }

  lemma {:induction false} PadBytesAreBits(k: nat)
    ensures IsBits(PadBytes(k))
  {
    if k > 0 {
      PadBytesAreBits(k - 1);
      BitsConcat(PadBytes(k - 1), PadByte(k - 1));
    }
  }

  /** Pad byte j sits at bits 8j .. 8j + 7 of the pad run. */
  lemma {:induction false} PadBytesAt(k: nat, j: nat)
    requires j < k
    ensures PadBytes(k)[8 * j..8 * j + 8] == PadByte(j)
  {
    var front, last := PadBytes(k - 1), PadByte(k - 1);
    assert PadBytes(k) == front + last;
    var lo, hi := 8 * j, 8 * j + 8;
    if j < k - 1 {
      PadBytesAt(k - 1, j);
      ByteEndsBefore(j, k - 1);
      SliceOfFront(front, last, lo, hi);
    } else {
      SliceOfBack(front, last);
    }
  }

  lemma ByteEndsBefore(j: nat, k: nat)
    requires j < k
    ensures 8 * j + 8 <= 8 * k
  {
  }

  /** The part after the first one of a concatenation is the second part. */
  lemma SliceOfBack(front: string, back: string)
    ensures (front + back)[|front|..|front| + |back|] == back
  {
  }

  /** A slice that ends inside the first part of a concatenation is a slice of that part. */
  lemma SliceOfFront(front: string, back: string, lo: nat, hi: nat)
    requires lo <= hi <= |front|
    ensures (front + back)[lo..hi] == front[lo..hi]
  {
    assert forall i | 0 <= i < hi - lo :: (front + back)[lo..hi][i] == front[lo + i];
  }

  /**
   * For a whole number of bytes nothing is cut off: the result is the
   * stream, then zeros (between 0 and 4 + 7 of them, ending on a byte
   * boundary), then the alternating pad bytes.
   */
  lemma PaddedLayout(s: string, totalBits: nat)
    requires |s| <= totalBits && totalBits % 8 == 0
    ensures var t := Min(4, totalBits - |s|);
      var f := |Terminated(s, t)|;
      var r := Padded(s, totalBits).value;
      |s| <= f <= totalBits && f % 8 == 0 && f - |s| <= 11
      && (forall i | |s| <= i < f :: r[i] == '0')
      && r[f..] == PadBytes((totalBits - f) / 8)
  {
    var t := Min(4, totalBits - |s|);
    var f := Terminated(s, t);
    TerminatedLayout(s, t, totalBits);
    var padded := f + PadBytes(PadCount(|f|, totalBits));
    assert PadCount(|f|, totalBits) == (totalBits - |f|) / 8;
    assert |padded| == totalBits;
    assert padded[..totalBits] == padded;
    assert Padded(s, totalBits).value == padded;
    assert padded[|f|..] == PadBytes((totalBits - |f|) / 8);
  }

  /** The terminator and the fill reach a byte boundary within the capacity, 0 to 11 zeros after the stream. */
  lemma TerminatedLayout(s: string, t: nat, totalBits: nat)
    requires |s| <= totalBits && totalBits % 8 == 0 && t == Min(4, totalBits - |s|)
    ensures var f := Terminated(s, t);
      |s| <= |f| <= totalBits && |f| % 8 == 0 && |f| - |s| <= 11
      && (forall i | |s| <= i < |f| :: f[i] == '0')
  {
    var u := s + Repeat('0', t);
    assert forall i | |s| <= i < |u| :: u[i] == '0';
    if |u| % 8 != 0 {
      var f := u + Repeat('0', 8 - |u| % 8);
      assert forall i | |s| <= i < |f| :: f[i] == '0';
      assert |u| / 8 < totalBits / 8;
    }
  }

  // ---------------------------------------------------------------------------
  // bitsToBytes
  // ---------------------------------------------------------------------------

  lemma {:induction false} Pow2Monotone(j: nat, k: nat)
    requires j <= k
    ensures Pow2(j) <= Pow2(k)
    decreases k - j
  {
    if j < k {
      Pow2Monotone(j, k - 1);
    }
  }

  /** 2^k is at most 256 for k <= 8. */
  lemma Pow2AtMost256(k: nat)
    requires k <= 8
    ensures Pow2(k) <= 256
  {
    Pow2Monotone(k, 8);
    assert Pow2(8) == 256;
  }

  /** The bytes of a bit string: groups of 8 from the left, a shorter last group read as it is. */
  function BytesOf(bits: string): (bytes: seq<byte>)
    requires IsBits(bits)
    decreases |bits|
  {
    if |bits| == 0 then []
    else
      var n := Min(8, |bits|);
      Pow2AtMost256(n);
      [FromBinary(bits[..n]) as byte] + BytesOf(bits[n..])
  }

  /** The byte the conversion loop appends for the group starting at i. */
  function BytePiece(bits: string, i: nat): byte
    requires IsBits(bits) && i < |bits|
  {
    var chunk := bits[i..Min(i + 8, |bits|)];
    Pow2AtMost256(|chunk|);
    FromBinary(chunk) as byte
  }

  /** Unfolding the conversion at group start i: its byte, then the bytes of what follows. */
  lemma BytesOfUnfold(bits: string, i: nat)
    requires IsBits(bits) && i < |bits|
    ensures BytesOf(bits[i..]) == [BytePiece(bits, i)] + BytesOf(bits[Min(i + 8, |bits|)..])
  {
    var end := Min(i + 8, |bits|);
    assert bits[i..][..end - i] == bits[i..end] && bits[i..][end - i..] == bits[end..];
  }

  /** One turn of the conversion loop keeps `bytes + BytesOf(rest) == BytesOf(bits)`. */
  lemma BytesOfStep(bits: string, i: nat, bytes: seq<byte>)
    requires IsBits(bits) && i < |bits|
    requires bytes + BytesOf(bits[i..]) == BytesOf(bits)
    ensures (bytes + [BytePiece(bits, i)]) + BytesOf(bits[Min(i + 8, |bits|)..]) == BytesOf(bits)
  {
    BytesOfUnfold(bits, i);
    ConcatAssociates(bytes, [BytePiece(bits, i)], BytesOf(bits[Min(i + 8, |bits|)..]));
  }

  /** bitsToBytes. */
  method BitsToBytes(bits: string) returns (bytes: seq<byte>)
    requires IsBits(bits)
    ensures bytes == BytesOf(bits)
  {
    bytes := [];
    var i := 0;
    while i < |bits|
      invariant 0 <= i
      invariant bytes + BytesOf(bits[Min(i, |bits|)..]) == BytesOf(bits)
      decreases |bits| - i
    {
      var chunk := bits[i..Min(i + 8, |bits|)];
      Pow2AtMost256(|chunk|);
      var value := FromBinary(chunk) as byte;
      BytesOfStep(bits, i, bytes);
      assert value == BytePiece(bits, i);
      bytes := bytes + [value];
      i := i + 8;
    }
  }

  /** One byte per started group of 8 bits. */
  lemma {:induction false} BytesOfLength(bits: string)
    requires IsBits(bits)
    ensures |BytesOf(bits)| == (|bits| + 7) / 8
    decreases |bits|
  {
    if |bits| > 0 {
      BytesOfLength(bits[Min(8, |bits|)..]);
    }
  }

  /** Each byte back in 8 bits, concatenated: the bytes-to-bits direction. */
  function BytesToBits(bytes: seq<byte>): (bits: string)
    ensures IsBits(bits) && |bits| == 8 * |bytes|
  {
    if |bytes| == 0 then ""
    else
      ToBinaryWidth(bytes[0], 8);
      ToBinaryValue(bytes[0], 8);
      ToBinary(bytes[0], 8) + BytesToBits(bytes[1..])
  }

  /** For a whole number of bytes, writing the bytes back out in 8 bits each restores the bit string. */
  lemma {:induction false} BytesOfRoundTrip(bits: string)
    requires IsBits(bits) && |bits| % 8 == 0
    ensures BytesToBits(BytesOf(bits)) == bits
    decreases |bits|
  {
    if |bits| > 0 {
      ToBinaryOfFromBinary(bits[..8]);
      BytesOfRoundTrip(bits[8..]);
      assert bits == bits[..8] + bits[8..];
    }
  }

  /** Reading 8-bit groups back gives the bytes that were written. */
  lemma {:induction false} BytesToBitsRoundTrip(bytes: seq<byte>)
    ensures BytesOf(BytesToBits(bytes)) == bytes
    decreases |bytes|
  {
    if |bytes| > 0 {
      var bits := BytesToBits(bytes);
      ToBinaryWidth(bytes[0], 8);
      assert bits[..8] == ToBinary(bytes[0], 8);
      assert bits[8..] == BytesToBits(bytes[1..]);
      FromBinaryOfToBinary(bytes[0], 8);
      BytesToBitsRoundTrip(bytes[1..]);
    }
  }

  /** Character codes of a text whose codes are all below 256. */
  function Codes(data: string): (bytes: seq<byte>)
    requires AllBytes(data)
    ensures |bytes| == |data| && forall i | 0 <= i < |data| :: bytes[i] == data[i] as int
  {
    seq(|data|, i requires 0 <= i < |data| => data[i] as int as byte)
  }

  /** Byte mode writes each character code as one byte: reading the bytes back gives the codes. */
  lemma {:induction false} ByteBitsAreCodes(data: string)
    requires AllBytes(data)
    ensures ByteBits(data) == BytesToBits(Codes(data))
    ensures IsBits(ByteBits(data)) && BytesOf(ByteBits(data)) == Codes(data)
    decreases |data|
  {
    if |data| > 0 {
      ByteBitsAreCodes(data[1..]);
      assert Codes(data)[1..] == Codes(data[1..]);
    }
    BytesToBitsRoundTrip(Codes(data));
  }
}
