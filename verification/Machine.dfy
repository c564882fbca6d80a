// Bytes, 32-bit words, and byte-addressed little-endian memory (i386).
module Machine {
  const TWO31: int := 0x8000_0000
  const TWO32: int := 0x1_0000_0000

  type byte = x: int | 0 <= x < 256
  type word = x: int | 0 <= x < 0x1_0000_0000

  /** Arithmetic on 32-bit words: the result modulo 2^32. */
  function Wrap(x: int): word { x % TWO32 }

  /** The word with these bytes, least significant first. */
  function Combine(b0: byte, b1: byte, b2: byte, b3: byte): word {
    b0 as int + 0x100 * b1 as int + 0x1_0000 * b2 as int + 0x100_0000 * b3 as int
  }

  function Byte0(v: word): byte { v as int % 0x100 }
  function Byte1(v: word): byte { v as int / 0x100 % 0x100 }
  function Byte2(v: word): byte { v as int / 0x1_0000 % 0x100 }
  function Byte3(v: word): byte { v as int / 0x100_0000 }

  lemma CombineBytes(v: word)
    ensures Combine(Byte0(v), Byte1(v), Byte2(v), Byte3(v)) == v
  {
    var h := v as int / 0x100;
    var q := h / 0x100;
    assert v as int / 0x1_0000 == q;
    assert v as int / 0x100_0000 == q / 0x100;
  }

  /** The 32-bit word stored at byte address `a`. */
  function Peek(m: seq<byte>, a: nat): word
    requires a + 4 <= |m|
  {
    Combine(m[a], m[a + 1], m[a + 2], m[a + 3])
  }

  /** Words are stored least significant byte first. */
  lemma LittleEndian(m: seq<byte>, a: nat)
    requires a + 4 <= |m|
    ensures var w := Peek(m, a) as int;
      && w % 256 == m[a] as int && w / 256 % 256 == m[a + 1] as int
      && w / 65536 % 256 == m[a + 2] as int && w / 16777216 == m[a + 3] as int
  {
    var b1, b2, b3 := m[a + 1] as int, m[a + 2] as int, m[a + 3] as int;
    var w := Peek(m, a) as int;
    assert w == m[a] as int + 256 * (b1 + 256 * (b2 + 256 * b3));
    assert w / 256 == b1 + 256 * (b2 + 256 * b3);
    assert w / 65536 == w / 256 / 256 == b2 + 256 * b3;
    assert w / 16777216 == w / 65536 / 256;
  }

  /** `w & 0x7fffffff` and `w | 0x80000000` as arithmetic. */
  function LowBits(w: word): word { if w as int < TWO31 then w else w as int - TWO31 }
  function SetTopBit(w: word): word { if w as int < TWO31 then w as int + TWO31 else w }

  /** `m` and `n` hold the same bytes on [lo, hi). */
  ghost predicate SameOn(m: seq<byte>, n: seq<byte>, lo: int, hi: int) {
    |m| == |n| && forall a :: 0 <= a < |m| && lo <= a < hi ==> n[a] == m[a]
  }

  /** `m` and `n` hold the same bytes except possibly on [lo, hi). */
  ghost predicate SameOutside(m: seq<byte>, n: seq<byte>, lo: int, hi: int) {
    |m| == |n| && forall a :: 0 <= a < |m| && !(lo <= a < hi) ==> n[a] == m[a]
  }

  lemma PeekSame(m: seq<byte>, n: seq<byte>, a: nat)
    requires a + 4 <= |m| && SameOn(m, n, a, a + 4)
    ensures Peek(n, a) == Peek(m, a)
  {
  }

  /** A 32-bit store. */
  method Poke(ram: array<byte>, a: nat, v: word)
    requires a + 4 <= ram.Length
    modifies ram
    ensures Peek(ram[..], a) == v
    ensures SameOutside(old(ram[..]), ram[..], a, a + 4)
    ensures forall x :: 0 <= x && (x + 4 <= a || (a + 4 <= x && x + 4 <= ram.Length)) ==>
      Peek(ram[..], x) == old(Peek(ram[..], x))
  {
    ram[a], ram[a + 1], ram[a + 2], ram[a + 3] := Byte0(v), Byte1(v), Byte2(v), Byte3(v);
    CombineBytes(v);
  }
}
