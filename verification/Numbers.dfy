// Two number printers and one parser (standard/strings.h, standard/stdio.h): itoa, ft_putnum, atoi.
// `int` is 32-bit two's complement with wrap-around.
module Numbers {
  import opened Machine

  const INT_MIN: int := -0x8000_0000
  const MINUS: byte := 45
  const ZERO: byte := 48

  type int32 = x: int | -0x8000_0000 <= x < 0x8000_0000

  function WrapInt(x: int): int32 {
    var u := x % TWO32;
    if u < TWO31 then u else u - TWO32
  }

  // C's division truncates toward zero.
  function Quot(n: int, b: int): int
    requires b > 0
  {
    if n >= 0 then n / b else -((-n) / b)
  }

  function Rem(n: int, b: int): int
    requires b > 0
  {
    n - b * Quot(n, b)
  }

  lemma DivParts(n: nat, b: nat)
    requires b > 0
    ensures n == b * (n / b) + n % b && 0 <= n % b < b
  {
  }

  lemma NegatedProduct(b: int, q: int)
    ensures b * (-q) == -(b * q)
  {
  }

  lemma RemRange(n: int, b: int)
    requires b > 0
    ensures n >= 0 ==> 0 <= Rem(n, b) < b && Rem(n, b) == n % b
    ensures n <= 0 ==> -b < Rem(n, b) <= 0
    ensures n == b * Quot(n, b) + Rem(n, b)
  {
    if n >= 0 {
      DivParts(n, b);
    } else {
      DivParts(-n, b);
      NegatedProduct(b, (-n) / b);
    }
  }

  lemma TwiceAtMost(b: int, q: int)
    requires b >= 2 && q >= 0
    ensures 2 * q <= b * q
  {
    assert b * q == 2 * q + (b - 2) * q;
  }

  lemma DivSmaller(n: nat, b: nat)
    requires b >= 2 && n > 0
    ensures 0 <= n / b < n && n == b * (n / b) + n % b
  {
    TwiceAtMost(b, n / b);
  }

  lemma DivPositive(n: nat, b: nat)
    requires 0 < b <= n
    ensures n / b > 0
  {
    DivSmaller(n, if b >= 2 then b else 2);
  }

  lemma QuotSmaller(n: int, b: int)
    requires b >= 2 && n != 0
    ensures n > 0 ==> 0 <= Quot(n, b) < n
    ensures n < 0 ==> n < Quot(n, b) <= 0
  {
    DivSmaller(if n > 0 then n else -n, b);
  }

  function Size(n: int): nat { if n >= 0 then n else -n }

  // ---------------------------------------------------------------- numerals

  /** itoa's character for remainder r, which is negative when the number is (lines 52-56). */
  function DigitChar(r: int): byte
    requires -32 < r < 32
  {
    if r >= 10 then 65 + (r - 10) else 48 + r
  }

  /** The digits of n, least significant first, as itoa produces them; none for 0. */
  function DigitsUp(n: int, b: nat): seq<byte>
    requires 2 <= b <= 32
    decreases Size(n)
  {
    if n == 0 then []
    else
      RemRange(n, b);
      QuotSmaller(n, b);
      [DigitChar(Rem(n, b))] + DigitsUp(Quot(n, b), b)
  }

  /** The text that itoa's final reverse leaves. */
  function Mirrored(s: seq<byte>): seq<byte> {
    if s == [] then [] else Mirrored(s[1..]) + [s[0]]
  }

  /** Character k from the front is character k from the back, of a text of the same length. */
  lemma {:induction false} MirrorImage(s: seq<byte>)
    ensures |Mirrored(s)| == |s| && forall k :: 0 <= k < |s| ==> Mirrored(s)[k] == s[|s| - 1 - k]
  {
    if s != [] { MirrorImage(s[1..]); }
  }

  /** Positional notation: the meaning of ft_putnum, most significant digit first. */
  function Numeral(n: nat, b: nat, digits: seq<byte>): (r: seq<byte>)
    requires 2 <= b <= |digits|
    ensures |r| > 0
  {
    if n < b then [digits[n]]
    else
      DivSmaller(n, b);
      Numeral(n / b, b, digits) + [digits[n % b]]
  }

  /** No leading zero, except for zero itself. */
  lemma {:induction false} NumeralLeading(n: nat, b: nat, digits: seq<byte>)
    requires 2 <= b <= |digits| && forall i, j :: 0 <= i < j < b ==> digits[i] != digits[j]
    ensures Numeral(n, b, digits)[0] == digits[0] <==> n == 0
  {
    if n >= b {
      DivSmaller(n, b);
      DivPositive(n, b);
      NumeralLeading(n / b, b, digits);
    }
  }

  lemma {:induction false} NumeralChars(n: nat, b: nat, digits: seq<byte>)
    requires 2 <= b <= |digits|
    ensures forall i :: 0 <= i < |Numeral(n, b, digits)| ==> Numeral(n, b, digits)[i] in digits
  {
    DivSmallerOrZero(n, b);
    if n >= b { NumeralChars(n / b, b, digits); }
  }

  /** What the characters of `s` denote in base b, by their position in `digits`. */
  function Value(s: seq<byte>, b: nat, digits: seq<byte>): nat {
    if s == [] then 0 else Value(s[..|s| - 1], b, digits) * b + Place(digits, s[|s| - 1])
  }

  function Place(digits: seq<byte>, c: byte): (i: nat)
    ensures i <= |digits| && (i < |digits| ==> digits[i] == c) && forall j :: 0 <= j < i ==> digits[j] != c
  {
    if digits == [] || digits[0] == c then 0 else Place(digits[1..], c) + 1
  }

  lemma ValueAppend(s: seq<byte>, c: byte, b: nat, digits: seq<byte>)
    ensures Value(s + [c], b, digits) == Value(s, b, digits) * b + Place(digits, c)
  {
    assert (s + [c])[..|s|] == s;
  }

  lemma PlaceOf(digits: seq<byte>, b: nat, r: nat)
    requires r < b <= |digits| && forall i, j :: 0 <= i < j < b ==> digits[i] != digits[j]
    ensures Place(digits, digits[r]) == r
  {
  }

  /** Numerals denote their number; so different numbers have different numerals. */
  lemma {:induction false} NumeralValue(n: nat, b: nat, digits: seq<byte>)
    requires 2 <= b <= |digits| && forall i, j :: 0 <= i < j < b ==> digits[i] != digits[j]
    ensures Value(Numeral(n, b, digits), b, digits) == n
  {
    hide Value, Place;
    DivSmallerOrZero(n, b);
    var q, r := n / b, n % b;
    PlaceOf(digits, b, r);
    if n < b {
      ValueAppend([], digits[r], b, digits);
      NoValue(b, digits);
      assert [] + [digits[r]] == [digits[r]];
    } else {
      NumeralValue(q, b, digits);
      ValueAppend(Numeral(q, b, digits), digits[r], b, digits);
    }
  }

  lemma NoValue(b: nat, digits: seq<byte>)
    ensures Value([], b, digits) * b == 0
  {
  }

  lemma DivSmallerOrZero(n: nat, b: nat)
    requires b >= 2
    ensures n == n / b * b + n % b && 0 <= n % b < b && (n >= b ==> n / b < n) && (n < b ==> n % b == n)
  {
    if n > 0 { DivSmaller(n, b); }
  }

  /** `t` writes n in base b with these digits: its value is n, and it has no leading zero but for 0 itself. */
  ghost predicate IsNumeral(t: seq<byte>, n: nat, b: nat, digits: seq<byte>)
    requires 2 <= b == |digits|
  {
    && t != [] && (forall i :: 0 <= i < |t| ==> t[i] in digits)
    && Value(t, b, digits) == n
    && (t[0] == digits[0] ==> |t| == 1)
  }

  lemma {:induction false} NumeralIs(n: nat, b: nat, digits: seq<byte>)
    requires 2 <= b == |digits| && forall i, j :: 0 <= i < j < b ==> digits[i] != digits[j]
    ensures IsNumeral(Numeral(n, b, digits), n, b, digits)
  {
    NumeralChars(n, b, digits);
    NumeralValue(n, b, digits);
    NumeralLeading(n, b, digits);
  }

  const DECIMAL: seq<byte> := [48, 49, 50, 51, 52, 53, 54, 55, 56, 57]
  const HEX_UPPER: seq<byte> := [48, 49, 50, 51, 52, 53, 54, 55, 56, 57, 65, 66, 67, 68, 69, 70]
  const HEX_LOWER: seq<byte> := [48, 49, 50, 51, 52, 53, 54, 55, 56, 57, 97, 98, 99, 100, 101, 102]
  const OCTAL: seq<byte> := [48, 49, 50, 51, 52, 53, 54, 55]

  /** One more digit in front of the reversed rest. */
  lemma {:induction false} DigitsUpStep(n: nat, b: nat)
    requires 2 <= b <= 32 && n > 0
    ensures n / b < n && 0 <= n % b < b
    ensures Mirrored(DigitsUp(n, b)) == Mirrored(DigitsUp(n / b, b)) + [DigitChar(n % b)]
  {
    RemRange(n, b);
    DivSmaller(n, b);
    assert DigitsUp(n, b)[1..] == DigitsUp(n / b, b);
  }

  lemma NumeralStep(n: nat, b: nat, digits: seq<byte>)
    requires 2 <= b <= |digits|
    ensures n < b ==> Numeral(n, b, digits) == [digits[n]] && n / b == 0 && n % b == n
    ensures n >= b ==>
      n / b > 0 && n % b < |digits| && Numeral(n, b, digits) == Numeral(n / b, b, digits) + [digits[n % b]]
  {
    DivSmallerOrZero(n, b);
    if n >= b { DivPositive(n, b); }
  }

  /** itoa's digits, turned round, are the numeral in the same digits. */
  lemma {:induction false} DigitsUpNumeral(n: nat, b: nat, digits: seq<byte>)
    requires 2 <= b <= |digits| && b <= 32 && n > 0
    requires forall r :: 0 <= r < b ==> digits[r] == DigitChar(r)
    ensures Mirrored(DigitsUp(n, b)) == Numeral(n, b, digits)
  {
    hide DigitsUp, Mirrored, Numeral;
    DigitsUpStep(n, b);
    NumeralStep(n, b, digits);
    if n < b { NoDigits(b); } else { DigitsUpNumeral(n / b, b, digits); }
  }

  lemma NoDigits(b: nat)
    requires 2 <= b <= 32
    ensures Mirrored(DigitsUp(0, b)) == []
  {
  }

  // ---------------------------------------------------------------- itoa's text

  /** abs on a wrapping int. */
  function Abs(v: int32): int32 { if v < 0 then WrapInt(-(v as int)) else v }

  /** The characters itoa leaves before the terminator. */
  function Itoa(v: int32, b: nat): seq<byte>
    requires 2 <= b <= 32
  {
    Mirrored(Unsigned(v, b) + if v < 0 && b == 10 then [MINUS] else [])
  }

  function Unsigned(v: int32, b: nat): seq<byte>
    requires 2 <= b <= 32
  {
    var up := DigitsUp(Abs(v), b);
    if up == [] then [ZERO] else up
  }

  lemma {:induction false} AbsNumeral(v: int32, b: nat, digits: seq<byte>)
    requires v as int != INT_MIN && 2 <= b <= |digits| && b <= 32
    requires forall r :: 0 <= r < b ==> digits[r] == DigitChar(r)
    ensures Mirrored(Unsigned(v, b)) == Numeral(if v >= 0 then v as int else -(v as int), b, digits)
  {
    var a := Abs(v) as int;
    assert a == if v >= 0 then v as int else -(v as int);
    if a == 0 {
      assert Mirrored([ZERO]) == Mirrored([]) + [ZERO];
    } else {
      DigitsUpNumeral(a, b, digits);
    }
  }

  /** The first b of the digits 0-9 and A-V. */
  function DigitsOf(b: nat): seq<byte>
    requires b <= 32
  {
    [48, 49, 50, 51, 52, 53, 54, 55, 56, 57, 65, 66, 67, 68, 69, 70, 71, 72, 73, 74, 75, 76,
     77, 78, 79, 80, 81, 82, 83, 84, 85, 86][..b]
  }

  lemma DigitsOfAt(b: nat)
    requires b <= 32
    ensures |DigitsOf(b)| == b && forall r :: 0 <= r < b ==> DigitsOf(b)[r] == DigitChar(r)
    ensures forall i, j :: 0 <= i < j < b ==> DigitsOf(b)[i] != DigitsOf(b)[j]
  {
  }

  /**
    What itoa writes, in every base and for every int above INT_MIN: a numeral of the magnitude, after a
    minus sign for a negative number in base 10 only.
   */
  lemma {:induction false} ItoaMeaning(v: int32, b: nat)
    requires 2 <= b <= 32 && v as int != INT_MIN
    ensures |DigitsOf(b)| == b && Itoa(v, b) != []
    ensures var n := if v < 0 then -(v as int) else v as int;
      if v < 0 && b == 10 then Itoa(v, b)[0] == 45 && IsNumeral(Itoa(v, b)[1..], n, b, DigitsOf(b))
      else IsNumeral(Itoa(v, b), n, b, DigitsOf(b))
  {
    hide Unsigned, Mirrored, Numeral, IsNumeral, DigitsOf, DigitChar;
    var n := if v < 0 then -(v as int) else v as int;
    var up := Unsigned(v, b);
    DigitsOfAt(b);
    AbsNumeral(v, b, DigitsOf(b));
    NumeralIs(n, b, DigitsOf(b));
    if v < 0 && b == 10 {
      MirroredAppend(up, MINUS);
    } else {
      assert up + [] == up;
    }
  }

  /** For INT_MIN the remainders are negative, and the text is "-./,),(-*,(". */
  lemma {:induction false} ItoaIntMin()
    ensures Itoa(INT_MIN, 10) == [45, 46, 47, 44, 41, 44, 40, 45, 42, 44, 40]
  {
    hide DigitsUp, Mirrored;
    NegativeStep(-214748364, -8);
    NegativeStep(-21474836, -4);
    NegativeStep(-2147483, -6);
    NegativeStep(-214748, -3);
    NegativeStep(-21474, -8);
    NegativeStep(-2147, -4);
    NegativeStep(-214, -7);
    NegativeStep(-21, -4);
    NegativeStep(-2, -1);
    NegativeStep(0, -2);
    assert DigitsUp(0, 10) == [] by { NoDigitsUp(10); }
    var up := [40, 44, 42, 45, 40, 44, 41, 44, 47, 46];
    assert DigitsUp(INT_MIN, 10) == up;
    assert Abs(INT_MIN) as int == INT_MIN;
    assert Unsigned(INT_MIN, 10) + [MINUS] == up + [45];
    MirrorImage(up + [45]);
  }

  lemma NoDigitsUp(b: nat)
    requires 2 <= b <= 32
    ensures DigitsUp(0, b) == []
  {
  }

  /** The first digit of a negative number, from its quotient and remainder. */
  lemma NegativeStep(q: int, r: int)
    requires q <= 0 && -10 < r <= 0 && q + r < 0
    ensures DigitsUp(10 * q + r, 10) == [48 + r] + DigitsUp(q, 10)
  {
    assert Quot(10 * q + r, 10) == q;
  }

  // ---------------------------------------------------------------- atoi

  /** `char` is signed. */
  function SignedChar(c: byte): int { if c < 128 then c as int else c as int - 256 }

  /** The unbounded sum behind atoi's loop. */
  function Sum(s: seq<byte>): int {
    if s == [] then 0 else Sum(s[..|s| - 1]) * 10 + (SignedChar(s[|s| - 1]) - 48)
  }

  /** atoi, with its sum wrapping at every step being the wrapped sum. */
  function Atoi(s: seq<byte>): int32 {
    if s != [] && s[0] == MINUS then WrapInt(-(WrapInt(Sum(s[1..])) as int)) else WrapInt(Sum(s))
  }

  /** Decimal digits sum to their number, of either sign. */
  lemma {:induction false} DigitsSum(n: int)
    ensures Sum(Mirrored(DigitsUp(n, 10))) == n
    decreases Size(n)
  {
    if n != 0 {
      RemRange(n, 10);
      QuotSmaller(n, 10);
      var up := DigitsUp(n, 10);
      var s := Mirrored(up);
      assert up[1..] == DigitsUp(Quot(n, 10), 10);
      DigitsSum(Quot(n, 10));
      assert s == Mirrored(up[1..]) + [up[0]];
      assert s[..|s| - 1] == Mirrored(up[1..]) && s[|s| - 1] == up[0];
    }
  }

  lemma {:induction false} MirroredAppend(s: seq<byte>, c: byte)
    ensures Mirrored(s + [c]) == [c] + Mirrored(s)
  {
    if s == [] {
      assert s + [c] == [c];
      assert Mirrored([c]) == Mirrored([]) + [c];
    } else {
      assert (s + [c])[1..] == s[1..] + [c];
      MirroredAppend(s[1..], c);
    }
  }

  /** The text of a non-negative number starts with a digit. */
  lemma ItoaFirst(v: int32)
    requires v >= 0
    ensures Mirrored(Unsigned(v, 10)) != [] && Mirrored(Unsigned(v, 10))[0] != MINUS
  {
    var up := Unsigned(v, 10);
    MirrorImage(up);
    DigitsRange(v);
  }

  lemma {:induction false} DigitsRange(n: nat)
    ensures forall i :: 0 <= i < |DigitsUp(n, 10)| ==> 48 <= DigitsUp(n, 10)[i] <= 57
  {
    if n != 0 {
      RemRange(n, 10);
      QuotSmaller(n, 10);
      DigitsRange(n / 10);
    }
  }

  lemma UnsignedSum(v: int32)
    ensures Sum(Mirrored(Unsigned(v, 10))) == Abs(v)
  {
    DigitsSum(Abs(v));
    if DigitsUp(Abs(v), 10) == [] {
      assert Mirrored([ZERO]) == Mirrored([]) + [ZERO];
      assert Sum([ZERO]) == Sum([ZERO][..0]) * 10 + 0;
    }
  }

  /**
    atoi undoes itoa for every 32-bit int. For INT_MIN, whose absolute value wraps to itself, the
    text is not a decimal numeral, but reading it back still gives INT_MIN.
   */
  lemma {:induction false} RoundTrip(v: int32)
    ensures Atoi(Itoa(v, 10)) == v
  {
    hide Unsigned, Mirrored, Sum;
    UnsignedSum(v);
    var up := Unsigned(v, 10);
    if v < 0 {
      MirroredAppend(up, MINUS);
      assert Itoa(v, 10)[1..] == Mirrored(up);
      NegateTwice(v);
    } else {
      ItoaFirst(v);
      assert up + [] == up;
    }
  }

  lemma NegateTwice(v: int32)
    requires v < 0
    ensures WrapInt(-(WrapInt(Abs(v)) as int)) == v
  {
  }
}
