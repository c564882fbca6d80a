// The format interpreter of standard/stdio.h: a subset of printf (section 7.21.6.1 of C11)
// written as mutually recursive handlers, each printing one conversion and resuming the scan.
module Printf {
  import opened Machine
  import opened Numbers

  const PERCENT: byte := 37

  /** One variadic argument: a machine word, or a pointer to a C string that may be null. */
  datatype Arg = Word(w: word) | Null | Str(s: seq<byte>)

  datatype Conversion = Char | Decimal | Octal | Unsigned | HexLower | HexUpper | String

  /** ft_print_dispatch. */
  function Dispatch(c: byte): (r: seq<Conversion>)
    ensures |r| <= 1
  {
    if c == 99 then [Char]
    else if c == 100 || c == 105 then [Decimal]
    else if c == 111 then [Octal]
    else if c == 117 then [Unsigned]
    else if c == 120 then [HexLower]
    else if c == 88 then [HexUpper]
    else if c == 115 then [String]
    else []
  }

  // ---------------------------------------------------------------- what a format means

  datatype Piece = Lit(c: byte) | Conv(kind: Conversion)

  /** A format as literal characters and conversions; a '%' at the very end is dropped. */
  function Pieces(fmt: seq<byte>): seq<Piece> {
    if fmt == [] then []
    else if fmt[0] != PERCENT then [Lit(fmt[0])] + Pieces(fmt[1..])
    else if |fmt| == 1 then []
    else (if Dispatch(fmt[1]) == [] then [Lit(fmt[1])] else [Conv(Dispatch(fmt[1])[0])]) + Pieces(fmt[2..])
  }

  /** A word for a word, a string pointer for a string; a C string holds no zero byte. */
  predicate Suits(kind: Conversion, arg: Arg) {
    if kind == String then !arg.Word? && (arg.Str? ==> 0 !in arg.s) else arg.Word?
  }

  /** Every conversion finds an argument of its kind. */
  ghost predicate Matches(pieces: seq<Piece>, args: seq<Arg>)
    decreases pieces
  {
    if pieces == [] then true
    else if pieces[0].Lit? then Matches(pieces[1..], args)
    else args != [] && Suits(pieces[0].kind, args[0]) && Matches(pieces[1..], args[1..])
  }

  /** `int` read from a machine word. */
  function Signed(w: word): int32 { if w as int < TWO31 then w else w as int - TWO32 }

  /** The characters one conversion prints. */
  function Text(kind: Conversion, arg: Arg): seq<byte>
    requires Suits(kind, arg)
  {
    match kind
    case Char => [Byte0(arg.w)]
    case Decimal =>
      var v := Signed(arg.w) as int;
      if v < 0 then [MINUS] + Numeral(-v, 10, DECIMAL) else Numeral(v, 10, DECIMAL)
    case Octal => Numeral(arg.w, 8, OCTAL)
    case Unsigned => Numeral(arg.w, 10, DECIMAL)
    case HexLower => Numeral(arg.w, 16, HEX_LOWER)
    case HexUpper => Numeral(arg.w, 16, HEX_UPPER)
    case String => if arg.Null? then [40, 110, 117, 108, 108, 41] else arg.s
  }

  /** Literals as they are, conversions with their arguments in order. */
  function Expand(pieces: seq<Piece>, args: seq<Arg>): seq<byte>
    requires Matches(pieces, args)
    decreases pieces
  {
    if pieces == [] then []
    else if pieces[0].Lit? then [pieces[0].c] + Expand(pieces[1..], args)
    else Text(pieces[0].kind, args[0]) + Expand(pieces[1..], args[1..])
  }

  /** A format that does not break off inside a conversion. */
  predicate Whole(fmt: seq<byte>) {
    fmt == [] || (if fmt[0] != PERCENT then Whole(fmt[1..]) else |fmt| > 1 && Whole(fmt[2..]))
  }

  lemma {:induction false} PiecesConcat(f: seq<byte>, g: seq<byte>)
    requires Whole(f)
    ensures Pieces(f + g) == Pieces(f) + Pieces(g)
  {
    if f == [] {
      assert f + g == g;
    } else if f[0] != PERCENT {
      assert (f + g)[1..] == f[1..] + g;
      PiecesConcat(f[1..], g);
    } else {
      assert (f + g)[2..] == f[2..] + g;
      PiecesConcat(f[2..], g);
    }
  }

  lemma ExpandLitFront(c: byte, pieces: seq<Piece>, args: seq<Arg>)
    requires Matches(pieces, args)
    ensures Matches([Lit(c)] + pieces, args) && Expand([Lit(c)] + pieces, args) == [c] + Expand(pieces, args)
  {
    assert ([Lit(c)] + pieces)[1..] == pieces;
  }

  lemma ExpandConvFront(kind: Conversion, pieces: seq<Piece>, arg: Arg, args: seq<Arg>)
    requires Suits(kind, arg) && Matches(pieces, args)
    ensures Matches([Conv(kind)] + pieces, [arg] + args)
    ensures Expand([Conv(kind)] + pieces, [arg] + args) == Text(kind, arg) + Expand(pieces, args)
  {
    assert ([Conv(kind)] + pieces)[1..] == pieces && ([arg] + args)[1..] == args;
  }

  lemma {:induction false} ExpandConcat(p: seq<Piece>, q: seq<Piece>, args: seq<Arg>, more: seq<Arg>)
    requires Matches(p, args) && Matches(q, more) && |args| == Conversions(p)
    ensures Matches(p + q, args + more) && Expand(p + q, args + more) == Expand(p, args) + Expand(q, more)
    decreases p
  {
    hide Matches, Expand, Text, Suits;
    if p == [] {
      assert p + q == q && args + more == more;
      PiecesEnd([], args);
    } else {
      assert p + q == [p[0]] + (p[1..] + q);
      if p[0].Lit? {
        ExpandLit(p, args, []);
        assert [] + Expand(p, args) == Expand(p, args) && [] + [p[0].c] == [p[0].c];
        ExpandConcat(p[1..], q, args, more);
        ExpandLitFront(p[0].c, p[1..] + q, args + more);
      } else {
        ExpandConv(p, args);
        ExpandConcat(p[1..], q, args[1..], more);
        ExpandConvFront(p[0].kind, p[1..] + q, args[0], args[1..] + more);
        assert args + more == [args[0]] + (args[1..] + more);
      }
    }
  }

  function Conversions(pieces: seq<Piece>): nat {
    if pieces == [] then 0 else (if pieces[0].Conv? then 1 else 0) + Conversions(pieces[1..])
  }

  /** Printing two formats after each other is printing them joined, with their arguments joined. */
  lemma PrintConcat(f: seq<byte>, g: seq<byte>, args: seq<Arg>, more: seq<Arg>)
    requires Whole(f) && Matches(Pieces(f), args) && |args| == Conversions(Pieces(f)) && Matches(Pieces(g), more)
    ensures Matches(Pieces(f + g), args + more)
    ensures Expand(Pieces(f + g), args + more) == Expand(Pieces(f), args) + Expand(Pieces(g), more)
  {
    PiecesConcat(f, g);
    ExpandConcat(Pieces(f), Pieces(g), args, more);
  }

  // ---------------------------------------------------------------- what each specifier prints

  /** `fmt` takes these arguments and prints `out`. */
  ghost predicate Prints(fmt: seq<byte>, args: seq<Arg>, out: seq<byte>) {
    Matches(Pieces(fmt), args) && Expand(Pieces(fmt), args) == out
  }

  /** A literal character, a '%' before a character that is no specifier, and a '%' at the end. */
  lemma FormatLiteral(c: byte)
    ensures c != 37 ==> Whole([c]) && Conversions(Pieces([c])) == 0 && Prints([c], [], [c])
    ensures c !in [99, 100, 105, 111, 117, 120, 88, 115] ==>
      Whole([37, c]) && Conversions(Pieces([37, c])) == 0 && Prints([37, c], [], [c])
    ensures !Whole([37]) && Prints([37], [], [])
  {
    assert [c][1..] == [] && [37, c][2..] == [];
  }

  /** A specifier takes one argument and prints its text. */
  lemma FormatOne(c: byte, arg: Arg)
    requires Dispatch(c) != [] && Suits(Dispatch(c)[0], arg)
    ensures Whole([37, c]) && Conversions(Pieces([37, c])) == 1
    ensures Prints([37, c], [arg], Text(Dispatch(c)[0], arg))
  {
    assert [37, c][2..] == [];
    assert Pieces([37, c]) == [Conv(Dispatch(c)[0])];
    ExpandConvFront(Dispatch(c)[0], [], arg, []);
    assert [Conv(Dispatch(c)[0])] + [] == [Conv(Dispatch(c)[0])] && [arg] + [] == [arg];
  }

  /** `fmt` takes one word and prints a numeral of n. */
  ghost predicate PrintsNumeral(fmt: seq<byte>, w: word, n: nat, b: nat, digits: seq<byte>)
    requires 2 <= b == |digits|
  {
    Matches(Pieces(fmt), [Word(w)]) && IsNumeral(Expand(Pieces(fmt), [Word(w)]), n, b, digits)
  }

  /** %d and %i: the decimal numeral of the signed word, after a '-' when it is negative. */
  lemma {:induction false} FormatDecimal(c: byte, w: word)
    requires c == 100 || c == 105
    ensures Whole([37, c]) && Conversions(Pieces([37, c])) == 1 && Matches(Pieces([37, c]), [Word(w)])
    ensures var out := Expand(Pieces([37, c]), [Word(w)]);
      if (w as int) < 0x8000_0000 then IsNumeral(out, w as int, 10, [48, 49, 50, 51, 52, 53, 54, 55, 56, 57])
      else
        && out != [] && out[0] == 45
        && IsNumeral(out[1..], 0x1_0000_0000 - w as int, 10, [48, 49, 50, 51, 52, 53, 54, 55, 56, 57])
  {
    hide Numeral, IsNumeral;
    FormatOne(c, Word(w));
    var n := if (w as int) < 0x8000_0000 then w as int else 0x1_0000_0000 - w as int;
    NumeralIs(n, 10, DECIMAL);
    var t := Numeral(n, 10, DECIMAL);
    assert Text(Decimal, Word(w)) == if (w as int) < 0x8000_0000 then t else [45] + t;
  }

  /** %u, %o, %x and %X: the numeral of the word in base 10, 8, 16 and 16. */
  lemma {:induction false} FormatUnsigned(c: byte, w: word)
    requires c == 117 || c == 111 || c == 120 || c == 88
    ensures Whole([37, c]) && Conversions(Pieces([37, c])) == 1
    ensures c == 117 ==> PrintsNumeral([37, c], w, w, 10, [48, 49, 50, 51, 52, 53, 54, 55, 56, 57])
    ensures c == 111 ==> PrintsNumeral([37, c], w, w, 8, [48, 49, 50, 51, 52, 53, 54, 55])
    ensures c == 120 ==>
      PrintsNumeral([37, c], w, w, 16, [48, 49, 50, 51, 52, 53, 54, 55, 56, 57, 97, 98, 99, 100, 101, 102])
    ensures c == 88 ==>
      PrintsNumeral([37, c], w, w, 16, [48, 49, 50, 51, 52, 53, 54, 55, 56, 57, 65, 66, 67, 68, 69, 70])
  {
    hide Numeral, IsNumeral, Matches, Expand, Pieces;
    FormatOne(c, Word(w));
    if c == 117 {
      NumeralIs(w, 10, DECIMAL);
    } else if c == 111 {
      NumeralIs(w, 8, OCTAL);
    } else if c == 120 {
      NumeralIs(w, 16, HEX_LOWER);
    } else {
      NumeralIs(w, 16, HEX_UPPER);
    }
  }

  /** %c: the low byte. %s: the string, or "(null)". */
  lemma FormatText(w: word, s: seq<byte>)
    requires 0 !in s
    ensures Whole([37, 99]) && Conversions(Pieces([37, 99])) == 1 && Prints([37, 99], [Word(w)], [w as int % 256])
    ensures Whole([37, 115]) && Conversions(Pieces([37, 115])) == 1 && Prints([37, 115], [Str(s)], s)
    ensures Prints([37, 115], [Null], [40, 110, 117, 108, 108, 41])
  {
    hide Prints;
    FormatOne(99, Word(w));
    FormatOne(115, Str(s));
    FormatOne(115, Null);
  }

  lemma PiecesLit(fmt: seq<byte>)
    requires fmt != [] && fmt[0] != PERCENT
    ensures Pieces(fmt) != [] && Pieces(fmt)[1..] == Pieces(fmt[1..]) && Pieces(fmt)[0] == Lit(fmt[0])
  {
  }

  lemma PiecesPercent(fmt: seq<byte>)
    requires |fmt| > 1 && fmt[0] == PERCENT
    ensures Pieces(fmt) != [] && Pieces(fmt)[1..] == Pieces(fmt[2..])
    ensures Pieces(fmt)[0] == if Dispatch(fmt[1]) == [] then Lit(fmt[1]) else Conv(Dispatch(fmt[1])[0])
  {
  }

  /** Nothing follows the end of a format, or a lone '%'. */
  lemma PiecesEnd(fmt: seq<byte>, args: seq<Arg>)
    requires fmt == [] || fmt == [PERCENT]
    ensures Pieces(fmt) == [] && Matches([], args) && Expand([], args) == []
  {
  }

  lemma ExpandLit(pieces: seq<Piece>, args: seq<Arg>, before: seq<byte>)
    requires Matches(pieces, args) && pieces != [] && pieces[0].Lit?
    ensures Matches(pieces[1..], args)
    ensures before + Expand(pieces, args) == before + [pieces[0].c] + Expand(pieces[1..], args)
    ensures |Expand(pieces, args)| == 1 + |Expand(pieces[1..], args)|
  {
  }

  lemma ExpandConv(pieces: seq<Piece>, args: seq<Arg>)
    requires Matches(pieces, args) && pieces != [] && pieces[0].Conv?
    ensures args != [] && Suits(pieces[0].kind, args[0]) && Matches(pieces[1..], args[1..])
    ensures Expand(pieces, args) == Text(pieces[0].kind, args[0]) + Expand(pieces[1..], args[1..])
  {
  }

  class Console {
    var out: seq<byte>

    method PutChar(c: byte)
      modifies this
      ensures out == old(out) + [c]
    {
      out := out + [c];
    }

    /** ft_putnum: prints the numeral and returns how many digits it has. */
    method PutNum(n: nat, base: nat, digits: seq<byte>) returns (res: nat)
      requires 2 <= base <= |digits|
      modifies this
      ensures out == old(out) + Numeral(n, base, digits) && res == |Numeral(n, base, digits)|
      decreases n
    {
      res := 1;
      if n >= base {
        DivSmaller(n, base);
        var more := PutNum(n / base, base, digits);
        res := res + more;
      }
      PutChar(digits[n % base]);
    }

    /** ft_printf_aux: the scan of a C string. */
    method Scan(fmt: seq<byte>, args: seq<Arg>, len: nat) returns (r: nat)
      requires 0 !in fmt && Matches(Pieces(fmt), args)
      modifies this
      ensures out == old(out) + Expand(Pieces(fmt), args) && r == len + |Expand(Pieces(fmt), args)|
      decreases |fmt|, 1
    {
      hide Pieces, Expand, Matches, Dispatch, Text;
      ghost var all := out + Expand(Pieces(fmt), args);
      var rest, n: nat := fmt, len;
      while rest != []
        invariant |rest| <= |fmt| && 0 !in rest && Matches(Pieces(rest), args)
        invariant out + Expand(Pieces(rest), args) == all
        invariant n + |Expand(Pieces(rest), args)| == len + |Expand(Pieces(fmt), args)|
        decreases |rest|
      {
        var c := rest[0];
        if c != PERCENT {
          PiecesLit(rest);
          ExpandLit(Pieces(rest), args, out);
          PutChar(c);
          n, rest := n + 1, rest[1..];
        } else if |rest| == 1 {
          PiecesEnd(rest, args);
          break;
        } else {
          PiecesPercent(rest);
          c := rest[1];
          if Dispatch(c) == [] {
            ExpandLit(Pieces(rest), args, out);
            PutChar(c);
            n, rest := n + 1, rest[2..];
          } else {
            ExpandConv(Pieces(rest), args);
            r := Handle(Dispatch(c)[0], rest[2..], args, n);
            return;
          }
        }
      }
      PiecesEnd(rest, args);
      return n;
    }

    /** The handlers ft_print_c to ft_print_s: one argument, then the rest of the format. */
    method Handle(kind: Conversion, fmt: seq<byte>, args: seq<Arg>, len: nat) returns (r: nat)
      requires 0 !in fmt && args != [] && Suits(kind, args[0]) && Matches(Pieces(fmt), args[1..])
      modifies this
      ensures out == old(out) + (Text(kind, args[0]) + Expand(Pieces(fmt), args[1..]))
      ensures r == len + |Text(kind, args[0])| + |Expand(Pieces(fmt), args[1..])|
      decreases |fmt|, 2
    {
      hide Pieces, Expand, Matches, Numeral;
      ghost var was := out;
      var n := len;
      match kind {
      case Char =>
        PutChar(Byte0(args[0].w));
        n := n + 1;
      case Decimal =>
        n := PrintDecimal(args[0].w, len);
      case Octal =>
        var k := PutNum(args[0].w, 8, OCTAL);
        n := n + k;
      case Unsigned =>
        var k := PutNum(args[0].w, 10, DECIMAL);
        n := n + k;
      case HexLower =>
        var k := PutNum(args[0].w, 16, HEX_LOWER);
        n := n + k;
      case HexUpper =>
        var k := PutNum(args[0].w, 16, HEX_UPPER);
        n := n + k;
      case String =>
        n := PrintString(if args[0].Null? then [40, 110, 117, 108, 108, 41] else args[0].s, len);
      }
      assert out == was + Text(kind, args[0]) && n == len + |Text(kind, args[0])|;
      r := Scan(fmt, args[1..], n);
    }

    /** ft_print_d: the magnitude is taken on the unsigned word, so INT_MIN prints right. */
    method PrintDecimal(w: word, len: nat) returns (n: nat)
      modifies this
      ensures out == old(out) + Text(Decimal, Word(w)) && n == len + |Text(Decimal, Word(w))|
    {
      n := len;
      var u := w as int;
      if w as int >= TWO31 {
        PutChar(MINUS);
        n := n + 1;
        u := TWO32 - w as int;
      }
      var k := PutNum(u, 10, DECIMAL);
      n := n + k;
    }

    method PrintString(s: seq<byte>, len: nat) returns (n: nat)
      modifies this
      ensures out == old(out) + s && n == len + |s|
    {
      n := len;
      for i := 0 to |s|
        invariant out == old(out) + s[..i] && n == len + i
      {
        PutChar(s[i]);
        n := n + 1;
      }
    }
  }

  // ---------------------------------------------------------------- agreement with itoa

  /** %d prints what itoa writes in base 10, for every int but the one whose absolute value wraps. */
  lemma DecimalIsItoa(w: word)
    requires Signed(w) as int != INT_MIN
    ensures Text(Decimal, Word(w)) == Itoa(Signed(w), 10)
  {
    var v := Signed(w);
    var up := Numbers.Unsigned(v, 10);
    AbsNumeral(v, 10, DECIMAL);
    if v < 0 { MirroredAppend(up, MINUS); } else { assert up + [] == up; }
  }

  /** The digits of a negative number end, most significant last, in a character below '0'. */
  lemma {:induction false} NegativeDigits(n: int, b: nat)
    requires n < 0 && 2 <= b <= 32
    ensures var up := DigitsUp(n, b); up != [] && up[|up| - 1] < ZERO
    decreases Size(n)
  {
    RemRange(n, b);
    QuotSmaller(n, b);
    if Quot(n, b) != 0 { NegativeDigits(Quot(n, b), b); }
  }

  /** %X prints what itoa writes in base 16 exactly for the non-negative ints. */
  lemma HexIsItoaIff(w: word)
    ensures Text(HexUpper, Word(w)) == Itoa(Signed(w), 16) <==> Signed(w) >= 0
  {
    hide Numeral, Value, Mirrored, DigitsUp, Numbers.Unsigned;
    var v := Signed(w);
    var up := Numbers.Unsigned(v, 16);
    assert up + [] == up;
    if v as int == INT_MIN {
      IntMinHex();
    } else {
      AbsNumeral(v, 16, HEX_UPPER);
      NumeralValue(w, 16, HEX_UPPER);
      NumeralValue(if v >= 0 then v as int else -(v as int), 16, HEX_UPPER);
    }
  }

  /** itoa of INT_MIN, whose absolute value wraps to itself, is no hexadecimal numeral. */
  lemma IntMinHex()
    ensures Text(HexUpper, Word(0x8000_0000)) != Itoa(INT_MIN, 16)
  {
    hide Numeral, Mirrored, DigitsUp;
    var up := Numbers.Unsigned(INT_MIN, 16);
    assert Abs(INT_MIN) as int == INT_MIN;
    NegativeDigits(INT_MIN, 16);
    assert up + [] == up;
    MirrorImage(up);
    NumeralChars(0x8000_0000, 16, HEX_UPPER);
    assert Itoa(INT_MIN, 16)[0] < ZERO;
  }

  /** The one int on which itoa and %d differ: itoa's digits are not digits. */
  lemma DecimalIntMin()
    ensures Text(Decimal, Word(0x8000_0000)) != Itoa(INT_MIN, 10)
  {
    var t := Itoa(INT_MIN, 10);
    var up := Numbers.Unsigned(INT_MIN, 10);
    assert Abs(INT_MIN) as int == INT_MIN;
    assert Quot(INT_MIN, 10) == -214748364 && Rem(INT_MIN, 10) == -8;
    assert up[0] == 40;
    MirroredAppend(up, MINUS);
    MirrorImage(up);
    var s := Numeral(2147483648, 10, DECIMAL);
    assert 2147483648 % 10 == 8 && s[|s| - 1] == 56;
    assert t[|t| - 1] == 40;
  }
}
