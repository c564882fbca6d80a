// standard/bitmap.h: a set of block numbers packed into 32-bit words.
module Bitmap {

  // ---------------------------------------------------------------- single words

  /** `1 << j`. */
  function Mask(j: nat): bv32 {
    if j == 0 then 1 else Mask(j - 1) << 1
  }

  predicate Test(w: bv32, m: bv32) { w & m != 0 }
  function With(w: bv32, m: bv32): bv32 { w | m }
  function Without(w: bv32, m: bv32): bv32 { w & !m }

  lemma {:induction false} MasksApart(j: nat, k: nat)
    requires j != k
    ensures !Test(Mask(j), Mask(k))
  {
    if j > 0 && k > 0 {
      MasksApart(j - 1, k - 1);
      ShiftAnd(Mask(j - 1), Mask(k - 1));
    } else {
      OneAnd(Mask((if j > 0 then j else k) - 1));
    }
  }

  lemma ShiftAnd(a: bv32, b: bv32)
    ensures (a << 1) & (b << 1) == (a & b) << 1
  {
  }

  lemma OneAnd(a: bv32)
    ensures 1 & (a << 1) == 0 && (a << 1) & 1 == 0
  {
  }

  lemma UpdateApart(w: bv32, m: bv32, n: bv32)
    requires !Test(m, n)
    ensures Test(With(w, m), n) <==> Test(w, n)
    ensures Test(Without(w, m), n) <==> Test(w, n)
  {
    hide *;
    if Test(w, n) { StaysSet(w, m, n); } else { StaysClear(w, m, n); }
  }

  lemma StaysSet(w: bv32, m: bv32, n: bv32)
    requires !Test(m, n) && Test(w, n)
    ensures Test(With(w, m), n) && Test(Without(w, m), n)
  {
  }

  lemma StaysClear(w: bv32, m: bv32, n: bv32)
    requires !Test(m, n) && !Test(w, n)
    ensures !Test(With(w, m), n) && !Test(Without(w, m), n)
  {
  }

  lemma UpdateSame(w: bv32, m: bv32)
    requires m != 0
    ensures Test(With(w, m), m) && !Test(Without(w, m), m)
  {
  }

  lemma MaskValues()
    ensures Mask(0) == 0x1 && Mask(1) == 0x2 && Mask(2) == 0x4 && Mask(3) == 0x8
    ensures Mask(4) == 0x10 && Mask(5) == 0x20 && Mask(6) == 0x40 && Mask(7) == 0x80
    ensures Mask(8) == 0x100 && Mask(9) == 0x200 && Mask(10) == 0x400 && Mask(11) == 0x800
    ensures Mask(12) == 0x1000 && Mask(13) == 0x2000 && Mask(14) == 0x4000 && Mask(15) == 0x8000
    ensures Mask(16) == 0x1_0000 && Mask(17) == 0x2_0000 && Mask(18) == 0x4_0000 && Mask(19) == 0x8_0000
    ensures Mask(20) == 0x10_0000 && Mask(21) == 0x20_0000 && Mask(22) == 0x40_0000 && Mask(23) == 0x80_0000
    ensures Mask(24) == 0x100_0000 && Mask(25) == 0x200_0000 && Mask(26) == 0x400_0000 && Mask(27) == 0x800_0000
    ensures Mask(28) == 0x1000_0000 && Mask(29) == 0x2000_0000 && Mask(30) == 0x4000_0000 && Mask(31) == 0x8000_0000
  {
    MaskLowValues();
    assert Mask(16) == 0x1_0000;
    assert Mask(17) == 0x2_0000;
    assert Mask(18) == 0x4_0000;
    assert Mask(19) == 0x8_0000;
    assert Mask(20) == 0x10_0000;
    assert Mask(21) == 0x20_0000;
    assert Mask(22) == 0x40_0000;
    assert Mask(23) == 0x80_0000;
    assert Mask(24) == 0x100_0000;
    assert Mask(25) == 0x200_0000;
    assert Mask(26) == 0x400_0000;
    assert Mask(27) == 0x800_0000;
    assert Mask(28) == 0x1000_0000;
    assert Mask(29) == 0x2000_0000;
    assert Mask(30) == 0x4000_0000;
    assert Mask(31) == 0x8000_0000;
  }

  lemma MaskLowValues()
    ensures Mask(0) == 0x1 && Mask(1) == 0x2 && Mask(2) == 0x4 && Mask(3) == 0x8
    ensures Mask(4) == 0x10 && Mask(5) == 0x20 && Mask(6) == 0x40 && Mask(7) == 0x80
    ensures Mask(8) == 0x100 && Mask(9) == 0x200 && Mask(10) == 0x400 && Mask(11) == 0x800
    ensures Mask(12) == 0x1000 && Mask(13) == 0x2000 && Mask(14) == 0x4000 && Mask(15) == 0x8000
  {
    assert Mask(0) == 0x1;
    assert Mask(1) == 0x2;
    assert Mask(2) == 0x4;
    assert Mask(3) == 0x8;
    assert Mask(4) == 0x10;
    assert Mask(5) == 0x20;
    assert Mask(6) == 0x40;
    assert Mask(7) == 0x80;
    assert Mask(8) == 0x100;
    assert Mask(9) == 0x200;
    assert Mask(10) == 0x400;
    assert Mask(11) == 0x800;
    assert Mask(12) == 0x1000;
    assert Mask(13) == 0x2000;
    assert Mask(14) == 0x4000;
    assert Mask(15) == 0x8000;
  }

  predicate Below32(j: nat) {
    || j == 0 || j == 1 || j == 2 || j == 3 || j == 4 || j == 5 || j == 6 || j == 7
    || j == 8 || j == 9 || j == 10 || j == 11 || j == 12 || j == 13 || j == 14 || j == 15
    || j == 16 || j == 17 || j == 18 || j == 19 || j == 20 || j == 21 || j == 22 || j == 23
    || j == 24 || j == 25 || j == 26 || j == 27 || j == 28 || j == 29 || j == 30 || j == 31
  }

  lemma MaskNonzero(j: nat)
    requires j < 32
    ensures Mask(j) != 0
  {
    hide Mask;
    MaskValues();
    assert Below32(j);
  }

  /** Setting or clearing bit j of a word changes bit j only. */
  lemma {:induction false} WordUpdated(w: bv32, j: nat, k: nat)
    requires j < 32 && k < 32
    ensures Test(With(w, Mask(j)), Mask(k)) <==> j == k || Test(w, Mask(k))
    ensures Test(Without(w, Mask(j)), Mask(k)) <==> j != k && Test(w, Mask(k))
  {
    hide *;
    MaskNonzero(j);
    if j == k { UpdateSame(w, Mask(j)); } else { MasksApart(j, k); UpdateApart(w, Mask(j), Mask(k)); }
  }

  ghost predicate Agree(x: bv32, y: bv32, j: nat) { Test(x, Mask(j)) == Test(y, Mask(j)) }

  /** A word is determined by its 32 bits. */
  lemma SameWord(x: bv32, y: bv32)
    requires forall j: nat :: j < 32 ==> Agree(x, y, j)
    ensures x == y
  {
    hide Mask;
    MaskValues();
    assert Agree(x, y, 0) && Agree(x, y, 1) && Agree(x, y, 2) && Agree(x, y, 3);
    assert Agree(x, y, 4) && Agree(x, y, 5) && Agree(x, y, 6) && Agree(x, y, 7);
    assert Agree(x, y, 8) && Agree(x, y, 9) && Agree(x, y, 10) && Agree(x, y, 11);
    assert Agree(x, y, 12) && Agree(x, y, 13) && Agree(x, y, 14) && Agree(x, y, 15);
    assert Agree(x, y, 16) && Agree(x, y, 17) && Agree(x, y, 18) && Agree(x, y, 19);
    assert Agree(x, y, 20) && Agree(x, y, 21) && Agree(x, y, 22) && Agree(x, y, 23);
    assert Agree(x, y, 24) && Agree(x, y, 25) && Agree(x, y, 26) && Agree(x, y, 27);
    assert Agree(x, y, 28) && Agree(x, y, 29) && Agree(x, y, 30) && Agree(x, y, 31);
  }

  /** 0xffffffff has every bit set. */
  lemma FullWord(j: nat)
    requires j < 32
    ensures Test(0xFFFF_FFFF, Mask(j))
  {
    MaskNonzero(j);
    AllOnes(Mask(j));
  }

  lemma AllOnes(m: bv32)
    requires m != 0
    ensures Test(0xFFFF_FFFF, m)
  {
  }

  // ---------------------------------------------------------------- the packed set

  function Covers(words: seq<bv32>): nat { 32 * |words| }

  /** bit_test. */
  predicate Bit(words: seq<bv32>, b: nat)
    requires b < Covers(words)
  {
    Test(words[b / 32], Mask(b % 32))
  }

  /** The members of the packed set. */
  ghost function Members(words: seq<bv32>): set<nat> {
    set b: nat | b < Covers(words) && Bit(words, b)
  }

  lemma {:induction false} BitUpdated(words: seq<bv32>, b: nat, c: nat)
    requires b < Covers(words) && c < Covers(words)
    ensures Bit(words[b / 32 := With(words[b / 32], Mask(b % 32))], c) <==> c == b || Bit(words, c)
    ensures Bit(words[b / 32 := Without(words[b / 32], Mask(b % 32))], c) <==> c != b && Bit(words, c)
  {
    hide Mask, Test, With, Without;
    if b / 32 == c / 32 {
      WordUpdated(words[b / 32], b % 32, c % 32);
      assert b == 32 * (b / 32) + b % 32 && c == 32 * (c / 32) + c % 32;
    }
  }

  /** bit_set. */
  method BitSet(words: array<bv32>, b: nat)
    requires b < 32 * words.Length
    modifies words
    ensures Members(words[..]) == old(Members(words[..])) + {b}
  {
    hide Mask, Test, With, Without, Bit;
    ghost var was := words[..];
    words[b / 32] := With(words[b / 32], Mask(b % 32));
    assert words[..] == was[b / 32 := With(was[b / 32], Mask(b % 32))];
    forall c: nat ensures c in Members(words[..]) <==> c in Members(was) + {b} {
      if c < Covers(was) { BitUpdated(was, b, c); }
    }
  }

  /** bit_unset. */
  method BitUnset(words: array<bv32>, b: nat)
    requires b < 32 * words.Length
    modifies words
    ensures Members(words[..]) == old(Members(words[..])) - {b}
  {
    hide Mask, Test, With, Without, Bit;
    ghost var was := words[..];
    words[b / 32] := Without(words[b / 32], Mask(b % 32));
    assert words[..] == was[b / 32 := Without(was[b / 32], Mask(b % 32))];
    forall c: nat ensures c in Members(words[..]) <==> c in Members(was) - {b} {
      if c < Covers(was) { BitUpdated(was, b, c); }
    }
  }

  /** The packing is faithful: the words are determined by the set. */
  lemma SameMembers(v: seq<bv32>, w: seq<bv32>)
    requires |v| == |w| && Members(v) == Members(w)
    ensures v == w
  {
    hide Mask, Test;
    forall i | 0 <= i < |v| ensures v[i] == w[i] {
      forall j: nat | j < 32 ensures Agree(v[i], w[i], j) {
        var b := 32 * i + j;
        assert b / 32 == i && b % 32 == j;
        assert Bit(v, b) <==> b in Members(v);
        assert Bit(w, b) <==> b in Members(w);
      }
      SameWord(v[i], w[i]);
    }
  }
}
