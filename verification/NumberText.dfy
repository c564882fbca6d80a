// The in-place number routines of standard/strings.h: reverse, itoa, atoi.
module NumberText {
  import opened Machine
  import opened Numbers

  /** The characters at buffer[0..] up to the terminator. */
  ghost predicate HoldsString(m: seq<byte>, s: seq<byte>) {
    |s| < |m| && m[..|s|] == s && m[|s|] == 0 && forall i :: 0 <= i < |s| ==> s[i] != 0
  }

  /** reverse(buffer, 0, n - 1). */
  method Reverse(buffer: array<byte>, n: nat)
    requires n <= buffer.Length
    modifies buffer
    ensures buffer[..n] == Mirrored(old(buffer[..n])) && buffer[n..] == old(buffer[n..])
  {
    ghost var s := buffer[..n];
    var i, j := 0, n - 1;
    while i < j
      invariant 0 <= i <= j + 2 && j == n - 1 - i
      invariant forall k :: 0 <= k < i ==> buffer[k] == s[n - 1 - k] && buffer[n - 1 - k] == s[k]
      invariant forall k :: i <= k <= j ==> buffer[k] == s[k]
      invariant buffer[n..] == old(buffer[n..])
      decreases j - i
    {
      buffer[i], buffer[j] := buffer[j], buffer[i];
      i, j := i + 1, j - 1;
    }
    MirrorImage(s);
  }

  lemma {:induction false} DigitsNonzero(n: int, b: nat)
    requires 2 <= b <= 32
    ensures forall i :: 0 <= i < |DigitsUp(n, b)| ==> DigitsUp(n, b)[i] != 0
    decreases Size(n)
  {
    if n != 0 {
      RemRange(n, b);
      QuotSmaller(n, b);
      DigitsNonzero(Quot(n, b), b);
    }
  }

  lemma MirroredNonzero(s: seq<byte>)
    requires forall i :: 0 <= i < |s| ==> s[i] != 0
    ensures |Mirrored(s)| == |s| && forall i :: 0 <= i < |s| ==> Mirrored(s)[i] != 0
  {
    MirrorImage(s);
  }

  /** The digit loop of itoa (lines 51-59): it leaves the digits, least significant first. */
  method EmitDigits(value: int, buffer: array<byte>, base: nat) returns (i: nat)
    requires 2 <= base <= 32 && |DigitsUp(value, base)| <= buffer.Length
    modifies buffer
    ensures i == |DigitsUp(value, base)| && buffer[..i] == DigitsUp(value, base) && buffer[i..] == old(buffer[i..])
  {
    hide DigitChar, Quot, Rem;
    var n := value;
    ghost var up, m := DigitsUp(value, base), buffer[..];
    i := 0;
    while n != 0
      invariant i + |DigitsUp(n, base)| == |up| && buffer[..i] + DigitsUp(n, base) == up
      invariant forall k :: i <= k < buffer.Length ==> buffer[k] == m[k]
      decreases Size(n)
    {
      RemRange(n, base);
      QuotSmaller(n, base);
      ghost var done, c := buffer[..i], DigitChar(Rem(n, base));
      buffer[i] := DigitChar(Rem(n, base));
      assert DigitsUp(n, base) == [c] + DigitsUp(Quot(n, base), base);
      assert buffer[..i + 1] == done + [c];
      i := i + 1;
      n := Quot(n, base);
    }
  }

  /** Appending one character to the text so far. */
  lemma Appended(m: seq<byte>, n: seq<byte>, i: nat, c: byte)
    requires i < |m| == |n| && n == m[i := c]
    ensures n[..i + 1] == m[..i] + [c] && n[i + 1..] == m[i + 1..]
  {
  }

  /** itoa, into a buffer with room for the text and its terminator; other bases leave it alone. */
  method ItoaInto(value: int32, buffer: array<byte>, base: int)
    requires 2 <= base <= 32 ==> |Itoa(value, base)| < buffer.Length
    modifies buffer
    ensures !(2 <= base <= 32) ==> buffer[..] == old(buffer[..])
    ensures 2 <= base <= 32 ==> HoldsString(buffer[..], Itoa(value, base))
    ensures 2 <= base <= 32 ==> buffer[|Itoa(value, base)| + 1..] == old(buffer[|Itoa(value, base)| + 1..])
  {
    hide DigitsUp, Mirrored, HoldsString;
    if base < 2 || base > 32 {
      return;
    }
    ghost var text := Unsigned(value, base) + if value < 0 && base == 10 then [MINUS] else [];
    MirrorImage(text);
    ghost var m0 := buffer[..];
    var i := EmitDigits(Abs(value), buffer, base);
    ghost var m1 := buffer[..];
    if i == 0 {
      buffer[i] := ZERO;
      Appended(m1, buffer[..], i, ZERO);
      i := i + 1;
    }
    assert buffer[..i] == Unsigned(value, base);
    ghost var m2 := buffer[..];
    if value < 0 && base == 10 {
      buffer[i] := MINUS;
      Appended(m2, buffer[..], i, MINUS);
      i := i + 1;
    }
    assert buffer[..i] == text;
    ghost var m3 := buffer[..];
    buffer[i] := 0;
    Appended(m3, buffer[..], i, 0);
    assert buffer[..i] == text;
    ghost var m4 := buffer[..];
    Reverse(buffer, i);
    Terminated(value, base, m4, buffer[..], i);
    TailsKept(m0, m1, m2, m3, |DigitsUp(Abs(value), base)|, i);
    assert m4[i + 1..] == m0[i + 1..];
    assert buffer[..][i..][1..] == buffer[..][i + 1..] && m4[i..][1..] == m4[i + 1..];
  }

  lemma TailsKept(m0: seq<byte>, m1: seq<byte>, m2: seq<byte>, m3: seq<byte>, d: nat, i: nat)
    requires |m0| == |m1| == |m2| == |m3| && d <= i < |m0|
    requires m1[d..] == m0[d..]
    requires forall k :: i <= k < |m0| ==> m2[k] == m1[k] && m3[k] == m2[k]
    ensures m3[i..] == m0[i..] && m3[i + 1..] == m0[i + 1..]
  {
    forall k | i <= k < |m0| ensures m1[k] == m0[k] { assert m1[d..][k - d] == m1[k] && m0[d..][k - d] == m0[k]; }
  }

  lemma Terminated(value: int32, base: nat, m: seq<byte>, n: seq<byte>, i: nat)
    requires 2 <= base <= 32 && i < |m| == |n| && m[i] == 0 && n[i..] == m[i..]
    requires m[..i] == Unsigned(value, base) + if value < 0 && base == 10 then [MINUS] else []
    requires n[..i] == Mirrored(m[..i])
    ensures HoldsString(n, Itoa(value, base))
  {
    DigitsNonzero(Abs(value), base);
    MirroredNonzero(m[..i]);
    assert n[i..][0] == m[i..][0];
  }

  lemma WrapStep(x: int, d: int)
    ensures WrapInt(WrapInt(x) as int * 10 + d) == WrapInt(x * 10 + d)
  {
    var k := (x - WrapInt(x) as int) / TWO32;
    assert x == WrapInt(x) as int + TWO32 * k;
    assert x * 10 + d == (WrapInt(x) as int * 10 + d) + TWO32 * (10 * k);
    WrapShift(WrapInt(x) as int * 10 + d, 10 * k);
  }

  lemma WrapShift(y: int, k: int)
    ensures WrapInt(y + TWO32 * k) == WrapInt(y)
  {
    assert (y + TWO32 * k) % TWO32 == y % TWO32;
  }

  lemma WrapNegated(x: int)
    ensures WrapInt(-(WrapInt(x) as int)) == WrapInt(-x)
  {
    var k := (x - WrapInt(x) as int) / TWO32;
    assert x == WrapInt(x) as int + TWO32 * k;
    WrapShift(-x, k);
  }

  /**
    What atoi reads, character by character and for any characters: a leading '-' changes the sign, every
    other character c, the first included, multiplies by 10 and adds c - '0', all modulo 2^32.
   */
  lemma AtoiReads(s: seq<byte>, c: byte)
    ensures Atoi([]) == 0 && Atoi([45]) == 0
    ensures s != [] || c != 45 ==>
      var d := (if c < 128 then c as int else c as int - 256) - 48;
      Atoi(s + [c]) == WrapInt(Atoi(s) as int * 10 + if s != [] && s[0] == 45 then -d else d)
  {
    assert [45][1..] == [];
    var d := SignedChar(c) - 48;
    if s != [] && s[0] == MINUS {
      var t := s[1..];
      assert (s + [c])[1..] == t + [c] && (t + [c])[..|t|] == t;
      WrapNegated(Sum(t + [c]));
      WrapNegated(Sum(t));
      WrapStep(-Sum(t), -d);
    } else {
      assert (s + [c])[..|s|] == s;
      WrapStep(Sum(s), d);
    }
  }

  /** atoi of the C string in `buffer`. */
  method AtoiFrom(buffer: array<byte>, ghost s: seq<byte>) returns (r: int32)
    requires HoldsString(buffer[..], s)
    ensures r == Atoi(s)
  {
    var res: int32, negative, i := 0, false, 0;
    if buffer[0] == MINUS {
      negative, i := true, 1;
    }
    ghost var t := s[i..];
    assert forall k :: 0 <= k < |s| ==> buffer[k] == buffer[..][..|s|][k] == s[k];
    while buffer[i] != 0
      invariant |s| - |t| <= i <= |s| && res == WrapInt(Sum(t[..i - (|s| - |t|)]))
      decreases |s| - i
    {
      ghost var k := i - (|s| - |t|);
      assert t[k] == buffer[i];
      assert t[..k + 1][..k] == t[..k];
      WrapStep(Sum(t[..k]), SignedChar(buffer[i]) - 48);
      res := WrapInt(res as int * 10 + SignedChar(buffer[i]) - 48);
      i := i + 1;
    }
    assert t[..|t|] == t;
    assert s[0..] == s;
    return if negative then WrapInt(-(res as int)) else res;
  }
}
