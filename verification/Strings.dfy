// In-place C strings of standard/strings.h: strlen, clearchar, strshl and strtok.
module Strings {
  import opened Machine

  /** The C string at the start of `m`: its bytes up to the first zero. */
  function StrOf(m: seq<byte>): (s: seq<byte>)
    ensures |s| <= |m| && s == m[..|s|] && (|s| < |m| ==> m[|s|] == 0)
    ensures forall i :: 0 <= i < |s| ==> s[i] != 0
  {
    if m == [] || m[0] == 0 then [] else [m[0]] + StrOf(m[1..])
  }

  /** The string ends inside `m`. */
  ghost predicate Terminated(m: seq<byte>) { |StrOf(m)| < |m| }

  /** Everything after the string is zero. */
  ghost predicate ZeroPadded(m: seq<byte>) {
    Terminated(m) && forall i :: |StrOf(m)| <= i < |m| ==> m[i] == 0
  }

  lemma {:induction false} StrOfIs(m: seq<byte>, n: nat)
    requires n < |m| && m[n] == 0 && forall i :: 0 <= i < n ==> m[i] != 0
    ensures StrOf(m) == m[..n] && Terminated(m)
  {
    if n > 0 {
      StrOfIs(m[1..], n - 1);
      assert m[..n] == [m[0]] + m[1..][..n - 1];
    }
  }

  /** The string's bytes in memory: none is zero, and a zero follows. */
  lemma StrBytes(m: seq<byte>)
    ensures forall k :: 0 <= k < |StrOf(m)| ==> m[k] != 0 && m[k] == StrOf(m)[k]
    ensures Terminated(m) ==> m[|StrOf(m)|] == 0
  {
  }

  /** A cleared buffer is a zero-padded empty string. */
  lemma ClearedBuffer(m: seq<byte>)
    requires |m| > 0 && forall i :: 0 <= i < |m| ==> m[i] == 0
    ensures ZeroPadded(m) && StrOf(m) == []
  {
  }

  method StrLen(str: array<byte>) returns (len: nat)
    requires Terminated(str[..])
    ensures len == |StrOf(str[..])|
  {
    hide StrOf;
    StrBytes(str[..]);
    len := 0;
    while str[len] != 0
      invariant len <= |StrOf(str[..])|
      decreases |StrOf(str[..])| - len
    {
      len := len + 1;
    }
  }

  /** memset(str, 0, n). */
  method Zero(str: array<byte>, n: nat)
    requires n <= str.Length
    modifies str
    ensures forall k :: 0 <= k < str.Length ==> str[k] == if k < n then 0 else old(str[k])
  {
    for i := 0 to n
      invariant forall k :: 0 <= k < str.Length ==> str[k] == if k < i then 0 else old(str[k])
    {
      str[i] := 0;
    }
  }

  /** What strshl leaves: nothing when nothing is to be dropped, else the string without its first `amt` characters. */
  function Shifted(s: seq<byte>, amt: nat): seq<byte> {
    if amt == 0 || amt >= |s| then [] else s[amt..]
  }

  /** The loop of strshl (lines 140-145). */
  method ShlLoop(str: array<byte>, size: nat, amt: nat)
    requires amt < size < str.Length
    modifies str
    ensures Shuffled(old(str[..]), str[..], size, amt)
  {
    ghost var m := str[..];
    for i := 0 to size - amt
      invariant forall k :: 0 <= k < i ==> str[k] == if amt == 0 then 0 else m[k + amt]
      invariant forall k :: i <= k < i + amt ==> str[k] == if k >= amt then 0 else m[k]
      invariant forall k :: i + amt <= k < str.Length ==> str[k] == m[k]
    {
      str[i] := str[i + amt];
      str[i + amt] := 0;
    }
  }

  /**
    Memory `n` after strshl's loop on `m`: each byte copied has been zeroed, which for amt == 0 is
    the copy itself; when more than half is dropped, old bytes remain behind the result.
   */
  ghost predicate Shuffled(m: seq<byte>, n: seq<byte>, size: nat, amt: nat) {
    && amt < size < |m| == |n|
    && (forall k :: 0 <= k < size - amt ==> n[k] == if amt == 0 then 0 else m[k + amt])
    && (forall k :: size - amt <= k < size ==> n[k] == if k >= amt then 0 else m[k])
    && (forall k :: size <= k < |m| ==> n[k] == m[k])
  }

  /** strshl. */
  method StrShl(str: array<byte>, amt: nat)
    requires Terminated(str[..])
    modifies str
    ensures StrOf(str[..]) == Shifted(old(StrOf(str[..])), amt) && Terminated(str[..])
    ensures forall k :: |old(StrOf(str[..]))| <= k < str.Length ==> str[k] == old(str[k])
  {
    hide StrOf, Shuffled;
    ghost var m := str[..];
    StrBytes(m);
    var size := StrLen(str);
    if amt >= size {
      Zero(str, size);
      StrOfIs(str[..], 0);
      return;
    }
    ShlLoop(str, size, amt);
    ghost var n := str[..];
    ShlLength(m, n, size, amt);
    var len := StrLen(str);
    if len > size - amt {
      str[size - amt] := 0;
      ShlCut(m, n, str[..], size, amt);
    } else {
      ShlCut(m, n, n, size, amt);
    }
  }

  /** Memory after strshl's loop, before the cut. */
  lemma {:induction false} ShlLength(m: seq<byte>, n: seq<byte>, size: nat, amt: nat)
    requires size == |StrOf(m)| && Terminated(m) && Shuffled(m, n, size, amt)
    ensures Terminated(n)
    ensures |StrOf(n)| == if amt == 0 then 0 else if amt <= size - amt then size - amt else amt
    ensures forall k :: size <= k < |m| ==> n[k] == m[k]
  {
    hide StrOf;
    StrBytes(m);
    StrOfIs(n, if amt == 0 then 0 else if amt <= size - amt then size - amt else amt);
  }

  /** After the cut, the string is the tail of the old one. */
  lemma ShlCut(m: seq<byte>, n: seq<byte>, o: seq<byte>, size: nat, amt: nat)
    requires size == |StrOf(m)| && Terminated(m) && Shuffled(m, n, size, amt) && |o| == |n|
    requires o == if 0 < amt && size - amt < amt then n[size - amt := 0] else n
    ensures StrOf(o) == Shifted(StrOf(m), amt) && Terminated(o)
  {
    hide StrOf;
    StrBytes(m);
    if amt == 0 {
      StrOfIs(o, 0);
    } else {
      StrOfIs(o, size - amt);
      var s := StrOf(m);
      forall k | 0 <= k < size - amt ensures o[..size - amt][k] == s[amt..][k] {
        assert o[k] == m[k + amt] == s[k + amt];
      }
    }
  }

  /** strshl(str, k) leaves str + k exactly when k > 0 or the string is empty. */
  lemma ShiftedIff(s: seq<byte>, amt: nat)
    ensures Shifted(s, amt) == s[if amt < |s| then amt else |s|..] <==> amt > 0 || s == []
    ensures Shifted(s, 0) == []
  {
    if amt == 0 && s != [] { assert |s[0..]| == |s|; }
  }

  // ---------------------------------------------------------------- strtok with one delimiter

  /** The characters before the first `d`. */
  function Token(s: seq<byte>, d: byte): (t: seq<byte>)
    ensures |t| <= |s| && t == s[..|t|] && d !in t && (|t| < |s| ==> s[|t|] == d)
  {
    if s == [] || s[0] == d then [] else [s[0]] + Token(s[1..], d)
  }

  /** What follows the first `d`. */
  function Rest(s: seq<byte>, d: byte): seq<byte> {
    var n := |Token(s, d)|;
    if n < |s| then s[n + 1..] else []
  }

  /** Nothing is lost: the string is its token, the delimiter if there is one, and the rest. */
  lemma TokenLossless(s: seq<byte>, d: byte)
    ensures s == Token(s, d) + (if d in s then [d] else []) + Rest(s, d)
  {
    hide Token;
    var n := |Token(s, d)|;
    if n < |s| {
      assert s[n] == d;
      assert s == s[..n] + [s[n]] + s[n + 1..];
    }
  }

  /** clearchar of a zero-padded buffer empties it. */
  method ClearChar(str: array<byte>)
    requires ZeroPadded(str[..])
    modifies str
    ensures forall k :: 0 <= k < str.Length ==> str[k] == 0
  {
    var n := StrLen(str);
    Zero(str, n);
  }

  /**
    strtok(dest, src, "d"): the token moves to the zero-padded `dest`, the rest stays in `src`.
    The result is whether the source returns `dest` and not a null pointer.
   */
  method StrTok(dest: array<byte>, src: array<byte>, d: byte) returns (found: bool)
    requires dest != src && d != 0 && Terminated(src[..]) && ZeroPadded(dest[..])
    requires |StrOf(src[..])| < dest.Length
    modifies dest, src
    ensures Terminated(src[..]) && ZeroPadded(dest[..])
    ensures var s := old(StrOf(src[..]));
      && (found <==> s != [] && s[0] != d)
      && (s == [] ==> dest[..] == old(dest[..]) && src[..] == old(src[..]))
      && (s != [] ==> StrOf(dest[..]) == Token(s, d) && StrOf(src[..]) == Rest(s, d))
  {
    hide StrOf, Token, Rest;
    ghost var s := StrOf(src[..]);
    StrBytes(src[..]);
    RestIs(s, d);
    if src[0] == 0 {
      return false;
    }
    ClearChar(dest);
    var i := 0;
    while src[i] != d && src[i] != 0
      invariant i <= |Token(s, d)| && src[..] == old(src[..])
      invariant forall k :: 0 <= k < dest.Length ==> dest[k] == if k < i then s[k] else 0
      decreases |s| - i
    {
      dest[i] := src[i];
      i := i + 1;
    }
    assert i == |Token(s, d)|;
    StrOfIs(dest[..], i);
    assert dest[..][..i] == Token(s, d);
    StrShl(src, i + 1);
    return dest[0] != 0;
  }

  /** The rest is what strshl leaves when the token and its delimiter are dropped. */
  lemma RestIs(s: seq<byte>, d: byte)
    ensures Rest(s, d) == Shifted(s, |Token(s, d)| + 1)
  {
  }

  /** The tokens that repeated calls deliver, empty ones included. */
  function Tokens(s: seq<byte>, d: byte): seq<seq<byte>>
    decreases |s|
  {
    if s == [] then [] else [Token(s, d)] + Tokens(Rest(s, d), d)
  }

  /** The C string in a buffer, as a value. */
  method StrCopy(str: array<byte>) returns (s: seq<byte>)
    requires Terminated(str[..])
    ensures s == StrOf(str[..])
  {
    hide StrOf;
    var n := StrLen(str);
    return str[..n];
  }

  /** Calling strtok until the string is used up delivers its tokens in order. */
  method SplitAll(dest: array<byte>, src: array<byte>, d: byte) returns (tokens: seq<seq<byte>>)
    requires dest != src && d != 0 && Terminated(src[..]) && ZeroPadded(dest[..])
    requires |StrOf(src[..])| < dest.Length
    modifies dest, src
    ensures Terminated(src[..]) && ZeroPadded(dest[..]) && StrOf(src[..]) == []
    ensures tokens == Tokens(old(StrOf(src[..])), d)
  {
    hide StrOf, Token, Rest, ZeroPadded;
    ghost var all := StrOf(src[..]);
    tokens := [];
    var rest := StrCopy(src);
    NoTokens(d);
    while rest != []
      invariant Terminated(src[..]) && ZeroPadded(dest[..]) && rest == StrOf(src[..]) && |rest| < dest.Length
      invariant tokens + Tokens(rest, d) == Tokens(all, d)
      decreases |rest|
    {
      RestShorter(rest, d);
      var found := StrTok(dest, src, d);
      var token := StrCopy(dest);
      tokens := tokens + [token];
      rest := StrCopy(src);
    }
  }

  function Join(ts: seq<seq<byte>>, d: byte): seq<byte> {
    if |ts| == 0 then [] else if |ts| == 1 then ts[0] else ts[0] + [d] + Join(ts[1..], d)
  }

  /** Joining the tokens gives the string back, but for a delimiter at its very end. */
  lemma {:induction false} TokensJoin(s: seq<byte>, d: byte)
    ensures forall t :: t in Tokens(s, d) ==> d !in t
    ensures s == Join(Tokens(s, d), d) + if s != [] && s[|s| - 1] == d then [d] else []
    decreases |s|
  {
    hide Token, Tokens, Join, Rest;
    if s == [] {
      NoTokens(d);
    } else {
      var t, rest := Token(s, d), Rest(s, d);
      TokenLossless(s, d);
      RestShorter(s, d);
      TokensJoin(rest, d);
      TokensHead(s, d);
      if d in s && rest != [] { assert (t + [d] + rest)[|s| - 1] == rest[|rest| - 1]; }
    }
  }

  lemma NoTokens(d: byte)
    ensures Tokens([], d) == [] && Join([], d) == []
  {
  }

  lemma RestShorter(s: seq<byte>, d: byte)
    requires s != []
    ensures |Rest(s, d)| < |s| && d !in Token(s, d) && (d !in s ==> Rest(s, d) == [])
  {
  }

  lemma TokensHead(s: seq<byte>, d: byte)
    requires s != []
    ensures Tokens(s, d) == [Token(s, d)] + Tokens(Rest(s, d), d)
    ensures Rest(s, d) == [] ==> Tokens(s, d) == [Token(s, d)] && Join(Tokens(s, d), d) == Token(s, d)
    ensures Rest(s, d) != [] ==> Join(Tokens(s, d), d) == Token(s, d) + [d] + Join(Tokens(Rest(s, d), d), d)
  {
    hide Token;
    if Rest(s, d) != [] { assert |Tokens(Rest(s, d), d)| > 0; }
  }
}
