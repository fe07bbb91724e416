/**
Integers in hexadecimal: the width selection and the hexa branch of gen_print.py, and `to_signed` of gen_misc.py.

Python integers are unbounded, and `&` with a negative operand acts on its infinite two's complement; a test of
one bit and a mask of low bits are therefore written with division and remainder by powers of two.
*/
module HexPrint {

  function Pow2(n: nat): (p: int)
    ensures p > 0
  {
    if n == 0 then 1 else 2 * Pow2(n - 1)
  }

  const DIGIT_LENGTH_IN_BITS := 4
  const WORD_LENGTH_IN_DIGITS := 8

  /** number & 2**k is not zero */
  predicate BitSet(number: nat, k: nat) {
    number / Pow2(k) % 2 == 1
  }

  /** len(bin(number)) - 2 */
  function BinaryDigits(number: nat): nat
    requires number > 0
  {
    if number < 2 then 1 else 1 + BinaryDigits(number / 2)
  }

  /** Negative numbers are measured by the positive number with the same magnitude bits. */
  function WorkingNumber(number: int): nat {
    if number < 0 then -number - 1 else number
  }

  /** `bit_length` */
  function BitLength(number: int): nat {
    var working := WorkingNumber(number);
    if working == 0 then 0 else BinaryDigits(working)
  }

  /** `get_req_num_hex_digits` */
  function RequiredHexDigits(number: int): nat {
    var working := WorkingNumber(number);
    if working == 0 then WORD_LENGTH_IN_DIGITS
    else
      var digits := WithSignDigit(working, WholeDigits(BitLength(working)));
      var words := digits / WORD_LENGTH_IN_DIGITS;
      (if digits % WORD_LENGTH_IN_DIGITS > 0 || words == 0 then words + 1 else words) * WORD_LENGTH_IN_DIGITS
  }

  function WholeDigits(bits: nat): nat {
    bits / DIGIT_LENGTH_IN_BITS + if bits % DIGIT_LENGTH_IN_BITS > 0 then 1 else 0
  }

  /** One digit more when the sign bit of the leading digit is taken by the magnitude. */
  function WithSignDigit(working: nat, digits: nat): nat {
    if digits > 0 && BitSet(working, digits * 4 - 1) then digits + 1 else digits
  }

  /** `to_signed` with an explicit width */
  function ToSigned(number: int, width: nat): int
    requires width > 0
  {
    if number < 0 then number
    else if BitSet(number, width - 1) then -(Pow2(width) - number)
    else number
  }

  // ----- Powers of two -----

  lemma {:induction false} Pow2Monotonic(a: nat, b: nat)
    requires a <= b
    ensures Pow2(a) <= Pow2(b)
    ensures a < b ==> 2 * Pow2(a) <= Pow2(b)
    decreases b
  {
    if a < b {
      Pow2Monotonic(a, b - 1);
    }
  }

  lemma {:induction false} Pow2Adds(a: nat, b: nat)
    ensures Pow2(a + b) == Pow2(a) * Pow2(b)
    decreases b
  {
    if b > 0 {
      Pow2Adds(a, b - 1);
      assert Pow2(a + b) == 2 * Pow2(a + (b - 1));
    }
  }

  /** For a number below 2**(k + 1), bit k is set exactly when the number reaches 2**k. */
  lemma TopBit(number: nat, k: nat)
    requires number < 2 * Pow2(k)
    ensures BitSet(number, k) <==> Pow2(k) <= number
  {
    DivideExactly(number, Pow2(k), if Pow2(k) <= number then 1 else 0);
  }

  lemma Multiples(a: int, b: int, p: nat)
    requires a <= b
    ensures a * p <= b * p
  {
  }

  /** Quotient and remainder of a number between two multiples of p. */
  lemma DivideExactly(number: int, p: int, q: int)
    requires p > 0 && q * p <= number < (q + 1) * p
    ensures number / p == q && number % p == number - q * p
  {
    var r := number / p;
    assert number == r * p + number % p;
    if r < q {
      Multiples(r + 1, q, p);
    } else if r > q {
      Multiples(q + 1, r, p);
    }
  }

  // ----- The width of a number -----

  lemma {:induction false} BinaryDigitsBound(number: nat)
    requires number > 0
    ensures BinaryDigits(number) > 0
    ensures Pow2(BinaryDigits(number) - 1) <= number < Pow2(BinaryDigits(number))
    decreases number
  {
    if number >= 2 {
      BinaryDigitsBound(number / 2);
    }
  }

  /** `bit_length` is the length of the magnitude: 2**(b - 1) <= x < 2**b for the working number x. */
  lemma BitLengthIsExact(number: int, b: nat)
    ensures BitLength(number) == b <==>
            if b == 0 then number == 0 || number == -1 else Pow2(b - 1) <= WorkingNumber(number) < Pow2(b)
  {
    var working := WorkingNumber(number);
    if working > 0 {
      BinaryDigitsBound(working);
      var c := BitLength(number);
      if b > 0 && b < c {
        Pow2Monotonic(b, c - 1);
      } else if b > c {
        Pow2Monotonic(c, b - 1);
      }
    }
  }

  /** The number can be written in d digits of two's complement. */
  predicate Fits(number: int, d: nat)
    requires d > 0
  {
    -Pow2(4 * d - 1) <= number < Pow2(4 * d - 1)
  }

  lemma FitsByMagnitude(number: int, d: nat)
    requires d > 0
    ensures Fits(number, d) <==> WorkingNumber(number) < Pow2(4 * d - 1)
  {
  }

  /** Whole digits hold the magnitude. */
  lemma WholeDigitsHold(working: nat)
    requires working > 0
    ensures var whole := WholeDigits(BitLength(working));
            whole > 0 && Pow2(4 * whole - 4) <= working < Pow2(4 * whole)
  {
    var b := BinaryDigits(working);
    assert BitLength(working) == b;
    BinaryDigitsBound(working);
    Pow2Monotonic(b, 4 * WholeDigits(b));
    Pow2Monotonic(4 * WholeDigits(b) - 4, b - 1);
  }

  /** The last bit of the first digit decides whether the sign needs one digit more. */
  lemma SignDigitIsNeeded(working: nat, whole: nat)
    requires whole > 0 && working < Pow2(4 * whole)
    ensures WithSignDigit(working, whole) == if Pow2(4 * whole - 1) <= working then whole + 1 else whole
  {
    TopBit(working, 4 * whole - 1);
  }

  /** Before rounding to words: the least number of digits that hold the number and its sign. */
  lemma SignedDigitsAreLeast(working: nat, d: nat)
    requires working > 0
    ensures var h := WithSignDigit(working, WholeDigits(BitLength(working)));
            h > 0 && (d > 0 ==> (working < Pow2(4 * d - 1) <==> h <= d))
  {
    var whole := WholeDigits(BitLength(working));
    WholeDigitsHold(working);
    SignDigitIsNeeded(working, whole);
    if d > whole {
      Pow2Monotonic(4 * whole, 4 * d - 1);
    } else if 0 < d < whole {
      Pow2Monotonic(4 * d - 1, 4 * whole - 4);
    }
  }

  /** `get_req_num_hex_digits`: the least positive multiple of eight digits in which the number fits. */
  lemma RequiredHexDigitsIsLeast(number: int)
    ensures var d := RequiredHexDigits(number);
            && d > 0 && d % 8 == 0 && Fits(number, d)
            && forall e: nat :: 0 < e && e % 8 == 0 && Fits(number, e) ==> d <= e
  {
    var working := WorkingNumber(number);
    var d := RequiredHexDigits(number);
    if working == 0 {
      FitsByMagnitude(number, d);
    } else {
      SignedDigitsAreLeast(working, d);
      FitsByMagnitude(number, d);
      forall e: nat | 0 < e && e % 8 == 0 && Fits(number, e)
        ensures d <= e
      {
        SignedDigitsAreLeast(working, e);
        FitsByMagnitude(number, e);
      }
    }
  }

  // ----- to_signed -----

  /** What `to_signed` is for: on a number that a field of the given width can hold, it is the one number in the signed
      range with the same remainder modulo 2**width. */
  lemma ToSignedOnField(number: nat, width: nat)
    requires width > 0 && number < Pow2(width)
    ensures -Pow2(width - 1) <= ToSigned(number, width) < Pow2(width - 1)
    ensures ToSigned(number, width) == number || ToSigned(number, width) == number - Pow2(width)
    ensures ToSigned(ToSigned(number, width), width) == ToSigned(number, width)
  {
    TopBit(number, width - 1);
  }

  /** On every number: a negative one is returned as it is, and 2**width is taken from another exactly when its
      remainder lies in the upper half of the field. */
  lemma ToSignedExactly(number: int, width: nat)
    requires width > 0
    ensures ToSigned(number, width)
            == if number >= 0 && number % Pow2(width) >= Pow2(width - 1) then number - Pow2(width) else number
  {
    if number >= 0 {
      BitByRemainder(number, width);
    }
  }

  lemma BitByRemainder(number: nat, width: nat)
    requires width > 0
    ensures BitSet(number, width - 1) <==> number % Pow2(width) >= Pow2(width - 1)
  {
    var p := Pow2(width - 1);
    var q, r := number / (2 * p), number % (2 * p);
    assert number == q * (2 * p) + r;
    if r < p {
      assert (2 * q) * p == q * (2 * p);
      DivideExactly(number, p, 2 * q);
    } else {
      assert (2 * q + 1) * p == q * (2 * p) + p;
      DivideExactly(number, p, 2 * q + 1);
    }
  }

  lemma BitClearStays(number: nat, width: nat)
    requires width > 0 && Pow2(width) <= number && BitSet(number, width - 1)
    ensures number >= Pow2(width) + Pow2(width - 1)
  {
    var p := Pow2(width - 1);
    assert Pow2(width) == 2 * p;
    if number < 3 * p {
      DivideExactly(number, p, 2);
    }
  }

  /** The result lies in the signed range exactly when the argument is not beyond the field: an argument is never
      reduced modulo 2**width. */
  lemma ToSignedRangeExactly(number: int, width: nat)
    requires width > 0
    ensures -Pow2(width - 1) <= ToSigned(number, width) < Pow2(width - 1)
            <==> -Pow2(width - 1) <= number < Pow2(width)
  {
    if 0 <= number < Pow2(width) {
      ToSignedOnField(number, width);
    } else if number >= Pow2(width) {
      if BitSet(number, width - 1) {
        BitClearStays(number, width);
      }
    }
  }

  // ----- Printing and reading back -----

  function HexDigit(value: nat): char
    requires value < 16
  {
    "0123456789abcdef"[value]
  }

  function DigitValue(c: char): nat {
    if '0' <= c <= '9' then c as int - '0' as int
    else if 'a' <= c <= 'f' then c as int - 'a' as int + 10
    else 0
  }

  /** "%x" */
  function Hex(value: nat): string {
    if value < 16 then [HexDigit(value)] else Hex(value / 16) + [HexDigit(value % 16)]
  }

  function Zeros(n: nat): string {
    if n == 0 then [] else ['0'] + Zeros(n - 1)
  }

  /** "%0<width>x" */
  function ZeroPadded(value: nat, width: nat): string {
    var digits := Hex(value);
    if |digits| < width then Zeros(width - |digits|) + digits else digits
  }

  function ReadHex(text: string): nat
    decreases |text|
  {
    if text == [] then 0 else 16 * ReadHex(text[..|text| - 1]) + DigitValue(text[|text| - 1])
  }

  function Max(a: nat, b: nat): nat {
    if a >= b then a else b
  }

  /** The number of digits the hexa branch prints; `maxSize` is sys.maxsize. */
  function PrintedDigits(number: int, maxSize: nat): nat {
    Max(RequiredHexDigits(maxSize), RequiredHexDigits(number))
  }

  /** The value formatted with a width of 8 is masked once more. */
  function FormatHexa(value: nat, width: nat): string {
    ZeroPadded(if width == 8 then value % 0x1_0000_0000 else value, width)
  }

  /** The digits the hexa branch of `sprint_varx` prints after "0x". */
  function PrintHexa(number: int, maxSize: nat): string {
    var width := PrintedDigits(number, maxSize);
    FormatHexa(number % Pow2(4 * width), width)
  }

  lemma {:induction false} HexLength(value: nat, width: nat)
    requires width > 0 && value < Pow2(4 * width)
    ensures |Hex(value)| <= width
    decreases width
  {
    if value >= 16 {
      assert Pow2(4) == 16;
      assert width > 1;
      Pow2Adds(4 * (width - 1), 4);
      assert value / 16 < Pow2(4 * (width - 1));
      HexLength(value / 16, width - 1);
    }
  }

  lemma {:induction false} ReadHexOfHex(value: nat)
    ensures ReadHex(Hex(value)) == value
    decreases value
  {
    assert DigitValue(HexDigit(value % 16)) == value % 16;
    if value < 16 {
      assert ReadHex([HexDigit(value)][..0]) == 0;
    } else {
      ReadHexOfHex(value / 16);
      assert Hex(value)[..|Hex(value)| - 1] == Hex(value / 16);
    }
  }

  lemma {:induction false} LeadingZeros(n: nat, text: string)
    ensures |Zeros(n)| == n && ReadHex(Zeros(n) + text) == ReadHex(text)
    decreases n, |text|
  {
    if text != [] {
      var init := text[..|text| - 1];
      assert (Zeros(n) + text)[..|Zeros(n) + text| - 1] == Zeros(n) + init;
      LeadingZeros(n, init);
    } else if n > 0 {
      LeadingZeros(n - 1, "0");
      LeadingZeros(n - 1, "");
      ZerosAtEnd(n);
      assert Zeros(n) + text == Zeros(n - 1) + "0";
      assert "0"[..0] == "";
    }
  }

  lemma {:induction false} ZerosAtEnd(n: nat)
    requires n > 0
    ensures Zeros(n) == Zeros(n - 1) + "0"
    decreases n
  {
    if n > 1 {
      ZerosAtEnd(n - 1);
    }
  }

  lemma PaddedDigits(value: nat, width: nat)
    requires width > 0 && value < Pow2(4 * width)
    ensures |ZeroPadded(value, width)| == width && ReadHex(ZeroPadded(value, width)) == value
  {
    HexLength(value, width);
    ReadHexOfHex(value);
    LeadingZeros(width - |Hex(value)|, Hex(value));
  }

  /** The residue of a number in the signed range, as `to_signed` undoes it. */
  lemma ResidueToSigned(number: int, width: nat)
    requires width > 0 && -Pow2(width - 1) <= number < Pow2(width - 1)
    ensures ToSigned(number % Pow2(width), width) == number
  {
    var p := Pow2(width);
    assert p == 2 * Pow2(width - 1);
    DivideExactly(number, p, if number >= 0 then 0 else -1);
    TopBit(number % p, width - 1);
  }

  lemma FitsInWider(number: int, d: nat, e: nat)
    requires 0 < d <= e && Fits(number, d)
    ensures Fits(number, e)
  {
    Pow2Monotonic(4 * d - 1, 4 * e - 1);
  }

  lemma ThirtyTwoBits()
    ensures Pow2(32) == 0x1_0000_0000
  {
    assert Pow2(8) == 256;
    Pow2Adds(8, 8);
    Pow2Adds(16, 16);
  }

  lemma WordFits(value: nat, width: nat)
    requires width == 8 && value < Pow2(4 * width)
    ensures value % 0x1_0000_0000 == value
  {
    ThirtyTwoBits();
    assert 4 * width == 32;
  }

  lemma FormattedDigits(value: nat, width: nat)
    requires width > 0 && value < Pow2(4 * width)
    ensures |FormatHexa(value, width)| == width && ReadHex(FormatHexa(value, width)) == value
  {
    assert FormatHexa(value, width) == ZeroPadded(value, width) by {
      if width == 8 {
        WordFits(value, width);
      }
    }
    PaddedDigits(value, width);
  }

  /** The number of digits: the least positive multiple of eight in which both the number and sys.maxsize fit. */
  lemma PrintedDigitsIsLeast(number: int, maxSize: nat)
    ensures var d := PrintedDigits(number, maxSize);
            && d > 0 && d % 8 == 0 && Fits(number, d) && Fits(maxSize, d)
            && forall e: nat :: 0 < e && e % 8 == 0 && Fits(number, e) && Fits(maxSize, e) ==> d <= e
  {
    RequiredHexDigitsIsLeast(number);
    RequiredHexDigitsIsLeast(maxSize);
    var d := PrintedDigits(number, maxSize);
    FitsInWider(number, RequiredHexDigits(number), d);
    FitsInWider(maxSize, RequiredHexDigits(maxSize), d);
  }

  predicate IsHex(text: string) {
    forall i :: 0 <= i < |text| ==> text[i] in "0123456789abcdef"
  }

  lemma {:induction false} HexIsHex(value: nat)
    ensures IsHex(Hex(value))
    decreases value
  {
    assert HexDigit(value % 16) in "0123456789abcdef";
    if value >= 16 {
      HexIsHex(value / 16);
    }
  }

  lemma {:induction false} ZerosAreHex(n: nat)
    ensures IsHex(Zeros(n))
  {
    if n > 0 {
      ZerosAreHex(n - 1);
    }
  }

  lemma PrintedIsHex(number: int, maxSize: nat)
    ensures IsHex(PrintHexa(number, maxSize))
  {
    var width := PrintedDigits(number, maxSize);
    var residue := number % Pow2(4 * width);
    var value := if width == 8 then residue % 0x1_0000_0000 else residue;
    HexIsHex(value);
    if |Hex(value)| < width {
      ZerosAreHex(width - |Hex(value)|);
    }
  }

  /** Round trip: every integer is printed in exactly the chosen number of digits, and reading those digits back with
      `to_signed` at the same width gives the integer. */
  lemma HexRoundTrip(number: int, maxSize: nat)
    ensures var width := PrintedDigits(number, maxSize);
            var text := PrintHexa(number, maxSize);
            && width > 0
            && |text| == width && IsHex(text)
            && ReadHex(text) == number % Pow2(4 * width)
            && ToSigned(ReadHex(text), 4 * width) == number
  {
    var width := PrintedDigits(number, maxSize);
    RequiredHexDigitsIsLeast(number);
    RequiredHexDigitsIsLeast(maxSize);
    FitsInWider(number, RequiredHexDigits(number), width);
    FormattedDigits(number % Pow2(4 * width), width);
    PrintedIsHex(number, maxSize);
    ResidueToSigned(number, 4 * width);
  }

  /** A width is the required one if the number fits in it but not in one word less. */
  lemma RequiredIs(number: int, d: nat)
    requires d > 0 && d % WORD_LENGTH_IN_DIGITS == 0 && Fits(number, d)
    requires d > 8 ==> !Fits(number, d - 8)
    ensures RequiredHexDigits(number) == d
  {
    RequiredHexDigitsIsLeast(number);
    var r := RequiredHexDigits(number);
    if r < d {
      assert r <= d - 8;
      FitsInWider(number, r, d - 8);
    }
  }

  lemma AllOnesLength(w: nat, ones: nat)
    requires w > 0 && ones == Pow2(w) - 1
    ensures BitLength(ones) == w
  {
    assert Pow2(w) == 2 * Pow2(w - 1);
    BitLengthIsExact(ones, w);
  }

  lemma AllOnesDigits(d: nat, ones: nat)
    requires d > 0 && d % WORD_LENGTH_IN_DIGITS == 0 && ones == Pow2(4 * d - 1) - 1
    ensures RequiredHexDigits(ones) == d
  {
    if d > 8 {
      Pow2Monotonic(4 * (d - 8) - 1, 4 * d - 1);
    }
    RequiredIs(ones, d);
  }

  /** When sys.maxsize is 2**(4 * d - 1) - 1 for a whole number of words, `to_signed` by default assumes the width in
      which the hexa branch prints by default: every number that fits in it is recovered without naming a width. */
  lemma DefaultRoundTrip(number: int, d: nat, maxSize: nat)
    requires d > 0 && d % WORD_LENGTH_IN_DIGITS == 0 && maxSize == Pow2(4 * d - 1) - 1
    requires Fits(number, d)
    ensures BitLength(maxSize) + 1 == 4 * d
    ensures ToSigned(ReadHex(PrintHexa(number, maxSize)), 4 * d) == number
  {
    AllOnesLength(4 * d - 1, maxSize);
    AllOnesDigits(d, maxSize);
    RequiredHexDigitsIsLeast(number);
    assert PrintedDigits(number, maxSize) == d;
    HexRoundTrip(number, maxSize);
  }
}
