/**
  The number printers: `print_dec` and `print_hex` of `kernel/kernel_main64.cpp`
  and `print_number` of `kernel/kernel.cpp`, as the buffers they fill, against
  reading the digits back.
 */
module Numbers {
  import opened Options
  import opened CText
  import opened Words

  const ZERO: CChar := 48

  // -------------------------------------------------------------- decimal ---

  /** Decimal digits, most significant first; none for 0. */
  function Digits(n: nat): seq<CChar>
  {
    if n == 0 then [] else Digits(n / 10) + [ZERO + n % 10]
  }

  /** The decimal numeral of `n`. */
  function Dec(n: nat): seq<CChar>
  {
    if n == 0 then [ZERO] else Digits(n)
  }

  function ReadDec(s: seq<CChar>): int
  {
    if s == [] then 0 else ReadDec(s[..|s| - 1]) * 10 + (s[|s| - 1] as int - 48)
  }

  ghost predicate AreDigits(s: seq<CChar>)
  {
    forall i :: 0 <= i < |s| ==> 48 <= s[i] <= 57
  }

  /** Digits only, and no leading zero except in "0" itself. */
  ghost predicate IsNumeral(s: seq<CChar>)
  {
    s != [] && AreDigits(s) && (s[0] == 48 ==> |s| == 1)
  }

  lemma {:induction false} DigitsReadBack(n: nat)
    ensures AreDigits(Digits(n)) && ReadDec(Digits(n)) == n
    ensures n > 0 ==> Digits(n) != [] && Digits(n)[0] != ZERO
  {
    if n > 0 {
      DigitsReadBack(n / 10);
      var d: CChar := ZERO + n % 10;
      assert (Digits(n / 10) + [d])[..|Digits(n / 10)|] == Digits(n / 10);
    }
  }

  lemma {:induction false} ReadDecBounds(s: seq<CChar>)
    requires AreDigits(s)
    ensures ReadDec(s) >= 0
    ensures s != [] && s[0] != ZERO ==> ReadDec(s) > 0
  {
    if s != [] {
      ReadDecBounds(s[..|s| - 1]);
    }
  }

  /** Every digit string without leading zero is the numeral of the number it reads as. */
  lemma {:induction false} DigitsAreUnique(s: seq<CChar>)
    requires AreDigits(s) && (s != [] ==> s[0] != ZERO)
    ensures ReadDec(s) >= 0 && Digits(ReadDec(s)) == s
  {
    if s != [] {
      var init, d := s[..|s| - 1], s[|s| - 1];
      DigitsAreUnique(init);
      ReadDecBounds(s);
      assert ReadDec(s) / 10 == ReadDec(init) && ReadDec(s) % 10 == d - ZERO;
      assert s == init + [d];
    }
  }

  /** `Dec` and reading are inverse to each other on numbers and numerals. */
  lemma DecRoundTrip(n: nat, s: seq<CChar>)
    ensures IsNumeral(Dec(n)) && ReadDec(Dec(n)) == n
    ensures IsNumeral(s) ==> ReadDec(s) >= 0 && Dec(ReadDec(s)) == s
  {
    DigitsReadBack(n);
    if IsNumeral(s) {
      if s[0] == ZERO {
        assert s == [ZERO];
        assert ReadDec(s) == ReadDec(s[..0]) * 10;
      } else {
        DigitsAreUnique(s);
        ReadDecBounds(s);
      }
    }
  }

  function Pow10(k: nat): nat
  {
    if k == 0 then 1 else 10 * Pow10(k - 1)
  }

  lemma {:induction false} DigitCount(n: nat, k: nat)
    requires n < Pow10(k)
    ensures |Digits(n)| <= k
  {
    if n > 0 {
      DigitCount(n / 10, k - 1);
    }
  }

  lemma TenDigits(n: nat)
    requires n < 0x1_0000_0000
    ensures |Digits(n)| <= 10
  {
    assert Pow10(5) == 100000;
    assert Pow10(10) == 10000000000;
    DigitCount(n, 10);
  }

  lemma TwentyDigits(n: Word64)
    ensures |Digits(n)| <= 20
  {
    assert Pow10(5) == 100000;
    assert Pow10(10) == 10000000000;
    assert Pow10(15) == 1000000000000000;
    assert Pow10(20) == 100000000000000000000;
    DigitCount(n, 20);
  }

  lemma MoveDigit(v: nat, tail: seq<CChar>)
    requires v > 0
    ensures Digits(v) + tail == Digits(v / 10) + ([ZERO + v % 10] + tail)
    ensures |Digits(v)| == |Digits(v / 10)| + 1
  {
  }

  /** The loop of `print_dec`: it never gets below the front of the buffer. */
  method FillFromBack(value: Word64, buffer: array<CChar>) returns (pos: nat)
    requires buffer.Length == 21 && buffer[20] == 0
    modifies buffer
    ensures pos <= 20 && buffer[pos..20] == Digits(value) && buffer[20] == 0
  {
    TwentyDigits(value);
    pos := 20;
    var v: nat := value;
    while v > 0
      invariant pos <= 20 && buffer[20] == 0
      invariant Digits(value) == Digits(v) + buffer[pos..20]
    {
      ghost var tail := buffer[pos..20];
      MoveDigit(v, tail);
      pos := pos - 1;
      buffer[pos] := ZERO + v % 10;
      assert buffer[pos..20] == [ZERO + v % 10] + tail;
      v := v / 10;
    }
  }

  /** `print_dec`: digits go into a 21-byte buffer from the back. */
  method FormatDec(value: Word64) returns (text: seq<CChar>)
    ensures text == Dec(value)
  {
    if value == 0 {
      return [ZERO];
    }
    var buffer := new CChar[21](_ => 0);
    var pos := FillFromBack(value, buffer);
    assert buffer[pos..] == Digits(value) + [0] + [];
    DigitsReadBack(value);
    CStringStops(Digits(value), []);
    text := CString(buffer[pos..]);
  }

  function Reversed(s: seq<CChar>): (r: seq<CChar>)
    ensures |r| == |s| && forall i :: 0 <= i < |s| ==> r[i] == s[|s| - 1 - i]
  {
    if s == [] then [] else [s[|s| - 1]] + Reversed(s[..|s| - 1])
  }

  lemma ReversedSnoc(s: seq<CChar>, c: CChar)
    ensures Reversed(s + [c]) == [c] + Reversed(s)
  {
    assert (s + [c])[..|s|] == s;
  }

  /** The first loop of `print_number`. */
  method FillFromFront(num: nat, buffer: array<CChar>) returns (i: nat)
    requires num < 0x1_0000_0000 && buffer.Length == 32
    modifies buffer
    ensures i <= 10 && Reversed(buffer[..i]) == Digits(num)
  {
    TenDigits(num);
    i := 0;
    var n := num;
    while n > 0
      invariant i + |Digits(n)| <= 10
      invariant Digits(num) == Digits(n) + Reversed(buffer[..i])
    {
      ghost var before := buffer[..i];
      MoveDigit(n, Reversed(before));
      buffer[i] := ZERO + n % 10;
      i := i + 1;
      assert buffer[..i] == before + [ZERO + n % 10];
      ReversedSnoc(before, ZERO + n % 10);
      n := n / 10;
    }
  }

  /** `print_number`: digits go into a buffer from the front and are emitted backwards. */
  method FormatNumber(num: nat) returns (text: seq<CChar>)
    requires num < 0x1_0000_0000
    ensures text == Dec(num)
  {
    if num == 0 {
      return [ZERO];
    }
    var buffer := new CChar[32](_ => 0);
    var i := FillFromFront(num, buffer);
    text := [];
    while i > 0
      invariant 0 <= i <= 32
      invariant Digits(num) == text + Reversed(buffer[..i])
    {
      i := i - 1;
      assert buffer[..i + 1] == buffer[..i] + [buffer[i]];
      ReversedSnoc(buffer[..i], buffer[i]);
      text := text + [buffer[i]];
    }
  }

  // ---------------------------------------------------------- hexadecimal ---

  type Nibble = d: nat | d < 16

  /** `k` nibbles, least significant first. */
  function Nibbles(v: nat, k: nat): (s: seq<Nibble>)
    ensures |s| == k
  {
    if k == 0 then [] else [v % 16] + Nibbles(v / 16, k - 1)
  }

  /** The number whose nibbles are given least significant first. */
  function ReadNibbles(s: seq<Nibble>): nat
  {
    if s == [] then 0 else s[0] + 16 * ReadNibbles(s[1..])
  }

  function Pow16(k: nat): (p: nat)
    ensures p > 0
  {
    if k == 0 then 1 else 16 * Pow16(k - 1)
  }

  lemma {:induction false} NibblesReadBack(v: nat, k: nat)
    requires v < Pow16(k)
    ensures ReadNibbles(Nibbles(v, k)) == v
  {
    if k > 0 {
      NibblesReadBack(v / 16, k - 1);
      assert Nibbles(v, k)[1..] == Nibbles(v / 16, k - 1);
    }
  }

  lemma {:induction false} ReadNibblesBack(s: seq<Nibble>)
    ensures Nibbles(ReadNibbles(s), |s|) == s
  {
    if s != [] {
      ReadNibblesBack(s[1..]);
      assert ReadNibbles(s) / 16 == ReadNibbles(s[1..]);
      assert s == [s[0]] + s[1..];
    }
  }

  /** `v >> (4 * i)`. */
  function ShiftNibbles(v: nat, i: nat): nat
  {
    if i == 0 then v else ShiftNibbles(v / 16, i - 1)
  }

  lemma {:induction false} NibbleAt(v: nat, k: nat, i: nat)
    requires i < k
    ensures Nibbles(v, k)[i] == ShiftNibbles(v, i) % 16
  {
    if i > 0 {
      NibbleAt(v / 16, k - 1, i - 1);
    }
  }

  /** The character for a digit of `hex_chars`. */
  function HexChar(d: Nibble): (c: CChar)
    ensures d < 10 ==> c == 48 + d
    ensures d >= 10 ==> c == 65 + (d - 10)
  {
    if d < 10 then ZERO + d else 55 + d
  }

  /** The value of a hexadecimal digit in upper case; other characters have none. */
  function HexValue(c: CChar): Option<Nibble>
  {
    if 48 <= c <= 57 then Some(c - 48) else if 65 <= c <= 70 then Some(c - 55) else None
  }

  function HexChars(s: seq<Nibble>): seq<CChar>
  {
    seq(|s|, i requires 0 <= i < |s| => HexChar(s[i]))
  }

  /** Hexadecimal digits read one by one; none if there is another character among them. */
  function HexValues(s: seq<CChar>): Option<seq<Nibble>>
  {
    if s == [] then Some([])
    else
      match (HexValue(s[0]), HexValues(s[1..]))
      case (Some(d), Some(rest)) => Some([d] + rest)
      case _ => None
  }

  lemma {:induction false} HexCharsReadBack(s: seq<Nibble>)
    ensures HexValues(HexChars(s)) == Some(s)
  {
    if s != [] {
      HexCharsReadBack(s[1..]);
      assert HexChars(s)[1..] == HexChars(s[1..]);
      assert [s[0]] + s[1..] == s;
    }
  }

  const PREFIX: seq<CChar> := [48, 120]

  /** What `print_hex` prints. */
  function HexText(value: Word64): seq<CChar>
  {
    PREFIX + HexChars(Nibbles(value, 16))
  }

  lemma {:induction false} ShiftIsDivision(v: nat, i: nat)
    ensures ShiftNibbles(v, i) == v / Pow16(i)
  {
    if i > 0 {
      ShiftIsDivision(v / 16, i - 1);
      DivideBySixteenMore(v, Pow16(i - 1));
    }
  }

  lemma DivideBySixteenMore(v: nat, p: nat)
    requires p > 0
    ensures v / 16 / p == v / (16 * p)
  {
    var y, z := v / 16 / p, v / 16 % p;
    var py := p * y;
    assert v / 16 == py + z;
    ProductMoves(p, y);
    QuotientIs(v, 16 * p, y, 16 * z + v % 16);
  }

  lemma ProductMoves(p: nat, y: nat)
    ensures 16 * p * y == 16 * (p * y)
  {
  }

  lemma QuotientIs(v: nat, a: nat, q: nat, r: nat)
    requires v == a * q + r && r < a
    ensures v / a == q
  {
    if v / a < q {
      MultiplyGrows(a, v / a + 1, q);
    } else if v / a > q {
      MultiplyGrows(a, q + 1, v / a);
    }
  }

  lemma MultiplyGrows(a: nat, b: nat, c: nat)
    requires b <= c
    ensures a * b <= a * c
  {
  }

  /** `print_hex`: "0x", then the digit of each nibble, the lowest first. */
  method FormatHex(value: Word64) returns (text: seq<CChar>)
    ensures text == HexText(value)
    ensures |text| == 18 && text[0] == 48 && text[1] == 120
    ensures forall i :: 0 <= i < 16 ==>
      var n := value / Pow16(i) % 16; text[i + 2] == if n < 10 then 48 + n else 55 + n
  {
    var buffer := new CChar[19](_ => 0);
    buffer[0], buffer[1] := 48, 120;
    var i := 15;
    while i >= 0
      invariant -1 <= i <= 15 && buffer[0] == 48 && buffer[1] == 120
      invariant forall j :: i < j <= 15 ==> buffer[j + 2] == HexChar(Nibbles(value, 16)[j])
    {
      NibbleAt(value, 16, i);
      buffer[i + 2] := HexChar(ShiftNibbles(value, i) % 16);
      i := i - 1;
    }
    buffer[18] := 0;
    ghost var shown := HexText(value);
    assert buffer[..] == shown + [0] + [];
    CStringStops(shown, []);
    text := CString(buffer[..]);
    forall i | 0 <= i < 16
      ensures var n := value / Pow16(i) % 16; text[i + 2] == if n < 10 then 48 + n else 55 + n
    {
      NibbleAt(value, 16, i);
      ShiftIsDivision(value, i);
    }
  }

  function Flipped<T>(s: seq<T>): (r: seq<T>)
    ensures |r| == |s|
  {
    seq(|s|, i requires 0 <= i < |s| => s[|s| - 1 - i])
  }

  /** Hexadecimal text after its "0x", read with the lowest digit first. */
  function ReadLowFirst(digits: seq<CChar>): Option<nat>
  {
    match HexValues(digits)
    case None => None
    case Some(s) => Some(ReadNibbles(s))
  }

  /** The same as a reader expects it: most significant digit first. */
  function ReadHex(digits: seq<CChar>): Option<nat>
  {
    ReadLowFirst(Flipped(digits))
  }

  /** Read least significant nibble first, the printed digits give the value back. */
  lemma HexReadsBackLowFirst(value: Word64)
    ensures HexText(value)[..2] == [48, 120] && ReadLowFirst(HexText(value)[2..]) == Some(value)
  {
    var s := Nibbles(value, 16);
    assert HexText(value)[2..] == HexChars(s);
    HexCharsReadBack(s);
    SixteenNibbles();
    NibblesReadBack(value, 16);
  }

  lemma SixteenNibbles()
    ensures Pow16(16) == 0x1_0000_0000_0000_0000
  {
    assert Pow16(4) == 0x1_0000;
    assert Pow16(8) == 0x1_0000_0000;
    assert Pow16(12) == 0x1_0000_0000_0000;
  }

  /** Read the usual way they do so exactly for values whose nibbles are a palindrome. */
  lemma HexReadsBackIffPalindrome(value: Word64)
    ensures ReadHex(HexText(value)[2..]) == Some(value) <==> Flipped(Nibbles(value, 16)) == Nibbles(value, 16)
  {
    var s := Nibbles(value, 16);
    assert HexText(value)[2..] == HexChars(s);
    assert Flipped(HexChars(s)) == HexChars(Flipped(s));
    HexCharsReadBack(Flipped(s));
    SixteenNibbles();
    NibblesReadBack(value, 16);
    ReadNibblesBack(Flipped(s));
  }
}
