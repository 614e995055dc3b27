/** Numerals in a positional system: the digits the kernel prints for a number. */
module Numerals {

  newtype byte = x: int | 0 <= x < 256

  type Base = b: nat | 2 <= b <= 16 witness 2

  /** Digits of a positive number, the lowest first, as repeated division finds them. */
  function LowFirst(n: nat, base: Base): (digits: seq<nat>)
    ensures n != 0 ==> digits != []
    decreases n
  {
    if n == 0 then [] else [n % base] + LowFirst(n / base, base)
  }

  /** Digits of a positive number, the highest first, as they are printed. */
  function HighFirst(n: nat, base: Base): seq<nat>
    decreases n
  {
    if n == 0 then [] else HighFirst(n / base, base) + [n % base]
  }

  lemma {:induction false} Reversed(n: nat, base: Base)
    ensures |HighFirst(n, base)| == |LowFirst(n, base)|
    ensures forall i :: 0 <= i < |LowFirst(n, base)| ==>
      LowFirst(n, base)[i] == HighFirst(n, base)[|LowFirst(n, base)| - 1 - i]
    decreases n
  {
    if n != 0 {
      Reversed(n / base, base);
    }
  }

  function Value(digits: seq<nat>, base: Base): nat {
    if digits == [] then 0
    else Value(digits[..|digits| - 1], base) * base + digits[|digits| - 1]
  }

  /** A numeral without leading zeros. */
  ghost predicate Canonical(digits: seq<nat>, base: Base) {
    && (forall i :: 0 <= i < |digits| ==> digits[i] < base)
    && (digits != [] ==> digits[0] != 0)
  }

  lemma DivMod(n: nat, base: Base)
    ensures n == n / base * base + n % base
  {}

  lemma {:induction false} ReadBack(n: nat, base: Base)
    ensures Value(HighFirst(n, base), base) == n
    ensures Canonical(HighFirst(n, base), base)
    decreases n
  {
    if n != 0 {
      var high := HighFirst(n / base, base);
      ReadBack(n / base, base);
      assert (high + [n % base])[..|high|] == high;
      DivMod(n, base);
      if n / base == 0 {
        assert high == [];
      } else {
        assert high != [];
      }
    }
  }

  lemma Magnitude(d: int, b: int)
    requires b >= 0
    ensures d >= 1 ==> d * b >= b
    ensures d <= -1 ==> d * b <= -b
  {}

  lemma Compose(q: nat, r: nat, base: Base)
    requires r < base
    ensures (q * base + r) / base == q && (q * base + r) % base == r
  {
    var n := q * base + r;
    DivMod(n, base);
    var d := n / base - q;
    assert d * base == r - n % base;
    Magnitude(d, base);
  }

  lemma {:induction false} Positive(digits: seq<nat>, base: Base)
    requires digits != [] && digits[0] != 0
    ensures Value(digits, base) > 0
  {
    if |digits| > 1 {
      var front := digits[..|digits| - 1];
      Positive(front, base);
      assert Value(front, base) * base >= 1;
    }
  }

  lemma ValueStep(front: seq<nat>, last: nat, base: Base)
    ensures Value(front + [last], base) == Value(front, base) * base + last
  {
    assert (front + [last])[..|front|] == front;
  }

  lemma HighStep(n: nat, base: Base)
    ensures HighFirst(n, base) == if n == 0 then [] else HighFirst(n / base, base) + [n % base]
  {}

  lemma NoValue(base: Base)
    ensures Value([], base) == 0
  {}

  /** A number has one canonical numeral only: the digits printed for it. */
  lemma {:induction false} OnlyNumeral(digits: seq<nat>, base: Base)
    requires Canonical(digits, base)
    ensures HighFirst(Value(digits, base), base) == digits
  {
    hide HighFirst, Value;
    if digits == [] {
      assert Value([], base) == 0 by { NoValue(base); }
      HighStep(0, base);
    } else {
      var k := |digits| - 1;
      var front, last := digits[..k], digits[k];
      assert digits == front + [last];
      OnlyNumeral(front, base);
      ValueStep(front, last, base);
      Compose(Value(front, base), last, base);
      Positive(digits, base);
      HighStep(Value(digits, base), base);
    }
  }

  function Power(base: Base, k: nat): nat {
    if k == 0 then 1 else base * Power(base, k - 1)
  }

  lemma Times(a: nat, b: nat, c: nat)
    ensures a >= b ==> a * c >= b * c
  {}

  lemma {:induction false} DigitCount(n: nat, base: Base, k: nat)
    requires n < Power(base, k)
    ensures |LowFirst(n, base)| <= k
    decreases k
  {
    if n != 0 {
      DivMod(n, base);
      Times(n / base, Power(base, k - 1), base);
      DigitCount(n / base, base, k - 1);
    }
  }

  /** The character printed for a digit. */
  function DigitChar(d: nat): byte
    requires d < 16
  {
    if d < 10 then (48 + d) as byte else (55 + d) as byte
  }

  function DigitText(digits: seq<nat>): (text: seq<byte>)
    requires forall i :: 0 <= i < |digits| ==> digits[i] < 16
    ensures |text| == |digits|
  {
    seq(|digits|, i requires 0 <= i < |digits| => DigitChar(digits[i]))
  }

  /** What `%d`, `%x` and the digits of `%p` look like. */
  function Numeral(n: nat, base: Base): seq<byte> {
    if n == 0 then [48]
    else
      ReadBack(n, base);
      DigitText(HighFirst(n, base))
  }

  function SignedNumeral(v: int): seq<byte> {
    if v < 0 then [0x2d] + Numeral(-v, 10) else Numeral(v, 10)
  }

  /** `%p` puts one NUL before the digits of a nonzero address. */
  function AddressText(n: nat): seq<byte> {
    if n == 0 then [48] else [0] + Numeral(n, 16)
  }

  function CharDigit(c: byte): int {
    if 48 <= c <= 57 then c as int - 48 else c as int - 55
  }

  /** Reading a numeral from its text. */
  function Parse(text: seq<byte>, base: Base): int {
    if text == [] then 0
    else Parse(text[..|text| - 1], base) * base + CharDigit(text[|text| - 1])
  }

  lemma {:induction false} ParseDigits(digits: seq<nat>, base: Base)
    requires forall i :: 0 <= i < |digits| ==> digits[i] < 16
    ensures Parse(DigitText(digits), base) == Value(digits, base)
  {
    if digits != [] {
      var k := |digits| - 1;
      ParseDigits(digits[..k], base);
      assert DigitText(digits)[..k] == DigitText(digits[..k]);
    }
  }

  /** Reading back what was printed gives the number, and only zero starts with a `0`. */
  lemma NumeralReadsBack(n: nat, base: Base)
    ensures Parse(Numeral(n, base), base) == n
    ensures Numeral(n, base) != [] && (Numeral(n, base)[0] == 48 <==> n == 0)
  {
    if n == 0 {
      assert Numeral(n, base)[..0] == [];
    } else {
      ReadBack(n, base);
      ParseDigits(HighFirst(n, base), base);
    }
  }

  /** A decimal number without leading zeros. */
  ghost predicate Decimal(text: seq<byte>) {
    text != [] && (forall i :: 0 <= i < |text| ==> 48 <= text[i] <= 57) && (text[0] == 48 ==> |text| == 1)
  }

  /** A hexadecimal number in upper case without leading zeros. */
  ghost predicate Hexadecimal(text: seq<byte>) {
    && text != [] && text[0] != 48
    && forall i :: 0 <= i < |text| ==> 48 <= text[i] <= 57 || 65 <= text[i] <= 70
  }

  lemma DigitTextIs(digits: seq<nat>, i: nat)
    requires (forall k :: 0 <= k < |digits| ==> digits[k] < 16) && i < |digits|
    ensures var c := DigitText(digits)[i] as int;
      && (digits[i] < 10 ==> 48 <= c <= 57) && (digits[i] >= 10 ==> 65 <= c <= 70)
      && (c == 48 <==> digits[i] == 0)
  {}

  lemma NumeralDigits(n: nat, base: Base)
    requires 0 < n
    ensures var digits := HighFirst(n, base);
      && digits != [] && Canonical(digits, base) && digits[0] != 0
      && Numeral(n, base) == DigitText(digits)
  {
    ReadBack(n, base);
  }

  lemma NumeralIsDecimal(n: nat)
    ensures Decimal(Numeral(n, 10))
  {
    if n > 0 {
      hide HighFirst, DigitText, Numeral;
      NumeralDigits(n, 10);
      var digits := HighFirst(n, 10);
      forall i | 0 <= i < |digits| ensures 48 <= DigitText(digits)[i] <= 57 {
        DigitTextIs(digits, i);
      }
      DigitTextIs(digits, 0);
    }
  }

  lemma NumeralIsHexadecimal(n: nat)
    requires 0 < n
    ensures Hexadecimal(Numeral(n, 16))
  {
    hide HighFirst, DigitText, Numeral;
    NumeralDigits(n, 16);
    var digits := HighFirst(n, 16);
    forall i | 0 <= i < |digits| ensures 48 <= DigitText(digits)[i] <= 57 || 65 <= DigitText(digits)[i] <= 70 {
      DigitTextIs(digits, i);
    }
    DigitTextIs(digits, 0);
  }

  function ParseSigned(text: seq<byte>): int {
    if text != [] && text[0] == 0x2d then -Parse(text[1..], 10) else Parse(text, 10)
  }

  lemma NoSign(n: nat)
    ensures Numeral(n, 10)[0] != 0x2d
  {
    NumeralReadsBack(n, 10);
    if n != 0 {
      ReadBack(n, 10);
    }
  }

  lemma SignedNumeralReadsBack(v: int)
    ensures ParseSigned(SignedNumeral(v)) == v
  {
    hide Numeral, Parse;
    if v < 0 {
      NumeralReadsBack(-v, 10);
      assert SignedNumeral(v)[1..] == Numeral(-v, 10);
    } else {
      NumeralReadsBack(v, 10);
      NoSign(v);
    }
  }

  lemma TenPowers()
    ensures Power(10, 10) == 10_000_000_000
  {
    assert Power(10, 2) == 100;
    assert Power(10, 4) == 10_000;
    assert Power(10, 6) == 1_000_000;
    assert Power(10, 8) == 100_000_000;
  }

  lemma SixteenPowers()
    ensures Power(16, 16) == 0x1_0000_0000_0000_0000
  {
    assert Power(16, 2) == 0x100;
    assert Power(16, 4) == 0x1_0000;
    assert Power(16, 6) == 0x100_0000;
    assert Power(16, 8) == 0x1_0000_0000;
    assert Power(16, 10) == 0x100_0000_0000;
    assert Power(16, 12) == 0x1_0000_0000_0000;
    assert Power(16, 14) == 0x100_0000_0000_0000;
  }

  /** Every number of 32 bits takes at most 10 decimal digits, every one of 64 bits at most 16
      hexadecimal digits. */
  lemma DigitsFitScratch(n: nat)
    ensures n < 0x1_0000_0000 ==> |LowFirst(n, 10)| <= 10
    ensures n < 0x1_0000_0000_0000_0000 ==> |LowFirst(n, 16)| <= 16
  {
    if n < 0x1_0000_0000 {
      TenPowers();
      DigitCount(n, 10, 10);
    }
    if n < 0x1_0000_0000_0000_0000 {
      SixteenPowers();
      DigitCount(n, 16, 16);
    }
  }
}
