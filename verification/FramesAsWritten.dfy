// The lines of mem/mem.h that Frames.dfy repairs, taken literally.
module FramesAsWritten {
  import opened Machine
  import opened Bitmap
  import opened Frames
  import opened FramesTheorems

  // ---------------------------------------------------------------- line 49

  /**
    mem_init_region lowers the counter once for each block it frees, then takes block 0 without
    counting it: the counter stays right exactly when block 0 was taken and not in the region.
   */
  lemma InitCountIff(taken: set<nat>, start: nat, blocks: nat)
    ensures var after := taken - Range(start, blocks) + {0}; var counter := |taken| - |taken * Range(start, blocks)|;
      counter == |after| <==> 0 in taken && (start > 0 || blocks == 0)
  {
    var r := Range(start, blocks);
    assert taken == (taken - r) + (taken * r);
    assert |taken| == |taken - r| + |taken * r|;
    if 0 in taken - r {
      assert taken - r + {0} == taken - r;
    }
  }

  /** A region whose base lies in block 0, below 4096, leaves that block uncounted. */
  lemma {:induction false} InitCountFails()
    ensures var taken := Range(0, 64);
      |taken| - |taken * Range(0, 32)| == 32 && |taken - Range(0, 32) + {0}| == 33
  {
    hide Range;
    RangeSize(0, 64);
    RangeSize(0, 32);
    RangeSize(32, 32);
    assert Range(0, 64) * Range(0, 32) == Range(0, 32);
    assert Range(0, 64) - Range(0, 32) == Range(32, 32);
  }

  // ---------------------------------------------------------------- line 174

  /** A map filled with 0x0f bytes disagrees with the counter `blocks_max`, unless it is empty. */
  lemma FillCountIff(words: seq<bv32>)
    requires forall i :: 0 <= i < |words| ==> words[i] == 0x0F0F_0F0F
    ensures |Members(words)| == Covers(words) <==> |words| == 0
  {
    var max := Covers(words);
    FullIff(Members(words), max);
    if |words| == 0 {
      assert Members(words) == {};
    } else {
      MaskLowValues();
      assert !Bit(words, 4);
      assert 4 !in Members(words) && LeastFree(Members(words), 0, max) <= 4;
    }
  }

  // ---------------------------------------------------------------- lines 81-96

  /** Bit b counted from the start of the map: the map's own below `max`, whatever memory holds beyond. */
  ghost predicate ReadsTaken(taken: set<nat>, max: nat, beyond: nat -> bool, b: nat) {
    if b < max then b in taken else beyond(b)
  }

  ghost function Bits(taken: set<nat>, max: nat, beyond: nat -> bool): iset<nat> {
    iset b: nat | ReadsTaken(taken, max, beyond, b)
  }

  /** How many of the n bits from `start` read as free. */
  ghost function CountFree(bits: iset<nat>, start: nat, n: nat): nat {
    if n == 0 then 0 else CountFree(bits, start, n - 1) + if start + n - 1 in bits then 0 else 1
  }

  lemma {:induction false} CountFreeGrows(bits: iset<nat>, start: nat, m: nat, n: nat)
    requires m <= n
    ensures CountFree(bits, start, m) <= CountFree(bits, start, n) <= CountFree(bits, start, m) + (n - m)
  {
    if m < n { CountFreeGrows(bits, start, m, n - 1); }
  }

  function Pow2(j: nat): nat { if j == 0 then 1 else 2 * Pow2(j - 1) }

  /** Lines 86-87: for block 32i+j the search starts at 32i plus the value of bit j, not its position. */
  function StartAsWritten(b: nat): nat { 32 * (b / 32) + Pow2(b % 32) }

  lemma {:induction false} Pow2Above(j: nat)
    ensures Pow2(j) > j
  {
    if j > 0 { Pow2Above(j - 1); }
  }

  lemma StartAbove(b: nat)
    ensures StartAsWritten(b) > b
  {
    Pow2Above(b % 32);
  }

  /** What the inner loop looks at for block b: size+1 blocks of which `size` must be free. */
  ghost predicate WindowFree(bits: iset<nat>, b: nat, size: nat) {
    CountFree(bits, StartAsWritten(b), size + 1) >= size
  }

  ghost predicate Accepted(bits: iset<nat>, b: nat, size: nat) { b !in bits && WindowFree(bits, b, size) }

  /** The least accepted block in [b, n), or n. */
  ghost function LeastAccepted(bits: iset<nat>, b: nat, n: nat, size: nat): (f: nat)
    requires b <= n
    ensures b <= f <= n
    ensures forall c: nat :: b <= c < f ==> !Accepted(bits, c, size)
    ensures f < n ==> Accepted(bits, f, size)
    decreases n - b
  {
    if b == n || Accepted(bits, b, size) then b else LeastAccepted(bits, b + 1, n, size)
  }

  /** The inner loop of lines 88-94: it stops as soon as `size` of the blocks seen were free. */
  method Probe(frames: FrameMap, beyond: nat -> bool, start: nat, size: nat) returns (found: bool)
    requires frames.Valid() && size > 0
    ensures found <==> CountFree(Bits(frames.Taken(), frames.max, beyond), start, size + 1) >= size
  {
    hide Members;
    ghost var bits := Bits(frames.Taken(), frames.max, beyond);
    var free := 0;
    for count := 0 to size + 1
      invariant free == CountFree(bits, start, count) && free < size
    {
      var taken := TestBit(frames, beyond, start + count);
      if !taken {
        free := free + 1;
      }
      if free == size {
        CountFreeGrows(bits, start, count + 1, size + 1);
        return true;
      }
    }
    return false;
  }

  /** mmap_test, which checks no bound. */
  method TestBit(frames: FrameMap, beyond: nat -> bool, b: nat) returns (taken: bool)
    requires frames.Valid()
    ensures taken <==> b in Bits(frames.Taken(), frames.max, beyond)
  {
    hide Mask, Test, Members;
    if b < frames.max as int {
      BitMember(frames.words[..], b);
      return Bit(frames.words[..], b);
    }
    return beyond(b);
  }

  /** Line 82: a word with every bit set is skipped. */
  method WordFull(frames: FrameMap, beyond: nat -> bool, i: nat) returns (full: bool)
    requires frames.Valid()
    ensures full ==> forall b: nat :: 32 * i <= b < 32 * i + 32 ==> ReadsTaken(frames.Taken(), frames.max, beyond, b)
  {
    hide Mask, Test, Members;
    if i < frames.words.Length {
      full := frames.words[i] == 0xFFFF_FFFF;
      forall b: nat | full && 32 * i <= b < 32 * i + 32 ensures ReadsTaken(frames.Taken(), frames.max, beyond, b) {
        BitMember(frames.words[..], b);
        FullWord(b % 32);
      }
    } else {
      full := true;
      for j := 0 to 32
        invariant full ==> forall b: nat :: 32 * i <= b < 32 * i + j ==>
          ReadsTaken(frames.Taken(), frames.max, beyond, b)
      {
        full := full && beyond(32 * i + j);
      }
    }
  }

  /**
    mmap_first_free_s with lines 86-94 as written, looking at `limit` words of memory: the number of
    words of the map, or with line 81 as written the number of its blocks.
   */
  method FirstFreeAsWritten(frames: FrameMap, beyond: nat -> bool, limit: nat, size: word) returns (frame: int)
    requires frames.Valid()
    ensures size == 0 ==> frame == -1
    ensures size == 1 ==>
      var f := LeastFree(frames.Taken(), 0, frames.max);
      frame == if f < frames.max as int then f else -1
    ensures size > 1 ==>
      var f := LeastAccepted(Bits(frames.Taken(), frames.max, beyond), 0, 32 * limit, size);
      frame == if f < 32 * limit then f else -1
  {
    hide Members, Accepted, CountFree;
    if size == 0 {
      return -1;
    }
    if size == 1 {
      frame := frames.FindFree();
      return;
    }
    ghost var bits := Bits(frames.Taken(), frames.max, beyond);
    for i := 0 to limit
      invariant forall b: nat :: b < 32 * i ==> !Accepted(bits, b, size)
    {
      var full := WordFull(frames, beyond, i);
      if !full {
        for j := 0 to 32
          invariant forall b: nat :: b < 32 * i + j ==> !Accepted(bits, b, size)
        {
          var taken := TestBit(frames, beyond, 32 * i + j);
          var found := false;
          assert (32 * i + j) / 32 == i && (32 * i + j) % 32 == j;
          if !taken {
            found := Probe(frames, beyond, 32 * i + Pow2(j), size as int);
          }
          AcceptedIs(bits, 32 * i + j, size as int);
          if found {
            return 32 * i + j;
          }
        }
      } else {
        TakenRefused(frames.Taken(), frames.max, beyond, 32 * i, 32 * i + 32, size as int);
      }
    }
    return -1;
  }

  lemma TakenRefused(taken: set<nat>, max: nat, beyond: nat -> bool, lo: nat, hi: nat, size: nat)
    requires forall b: nat :: lo <= b < hi ==> ReadsTaken(taken, max, beyond, b)
    ensures forall b: nat :: lo <= b < hi ==> !Accepted(Bits(taken, max, beyond), b, size)
  {
  }

  lemma AcceptedIs(bits: iset<nat>, b: nat, size: nat)
    ensures Accepted(bits, b, size) <==> b !in bits && CountFree(bits, StartAsWritten(b), size + 1) >= size
  {
  }

  // What a caller wants of the answer.

  /** The lowest start of `size` free blocks in a row at or above b, or max. */
  ghost function LeastRun(taken: set<nat>, max: nat, b: nat, size: nat): (g: nat)
    requires b <= max
    ensures b <= g <= max
    ensures forall c: nat :: b <= c < g ==> !FreeRun(taken, max, c, size)
    ensures g < max ==> FreeRun(taken, max, g, size)
    decreases max - b
  {
    if b == max || FreeRun(taken, max, b, size) then b else LeastRun(taken, max, b + 1, size)
  }

  /** The answer to a search over n >= max blocks is right: the lowest free run, or none where there is none. */
  ghost predicate RightAnswer(taken: set<nat>, max: nat, n: nat, size: nat, f: nat) {
    if f < n then FreeRun(taken, max, f, size) && forall c: nat :: c < f ==> !FreeRun(taken, max, c, size)
    else forall c: nat :: !FreeRun(taken, max, c, size)
  }

  /**
    On any map and for any request, the search as written answers right exactly when its window at
    the lowest free run has room, and its window at every lower free block has none.
   */
  lemma SearchRightIff(taken: set<nat>, max: nat, beyond: nat -> bool, n: nat, size: nat)
    requires size > 1 && n >= max
    ensures var bits, g := Bits(taken, max, beyond), LeastRun(taken, max, 0, size);
      RightAnswer(taken, max, n, size, LeastAccepted(bits, 0, n, size))
      <==> && (g < max ==> WindowFree(bits, g, size))
           && forall b: nat :: b < (if g < max then g else n) && b !in bits ==> !WindowFree(bits, b, size)
  {
    hide WindowFree;
    var bits, g := Bits(taken, max, beyond), LeastRun(taken, max, 0, size);
    var f := LeastAccepted(bits, 0, n, size);
    forall c: nat | FreeRun(taken, max, c, size) ensures g <= c < max && c !in bits {}
    forall b: nat | b < f ensures b in bits || !WindowFree(bits, b, size) { assert !Accepted(bits, b, size); }
    if f < n { assert f !in bits && WindowFree(bits, f, size); }
  }

  /**
    Line 81 alone: looking at 32 times the words of the map changes the answer exactly when the map
    holds no accepted block and the memory after it does; that answer is no block of the map.
   */
  lemma ExtraWordsIff(bits: iset<nat>, max: nat, n: nat, size: nat)
    requires n >= max
    ensures var f, h := LeastAccepted(bits, 0, max, size), LeastAccepted(bits, 0, n, size);
      && (f < max ==> h == f) && (f == max ==> h >= max)
      && (h < max || h == n <==> f < max || forall b: nat :: max <= b < n ==> !Accepted(bits, b, size))
  {
  }

  /**
    Of 32 blocks only 30 is free, and bits after the map are: a request for two blocks, which line 122
    lets through, is answered with block 32, which does not exist.
   */
  lemma ExtraWordsFails()
    ensures var taken := Range(0, 32) - {30};
      && (|taken| - 32) % TWO32 > 2
      && LeastAccepted(Bits(taken, 32, b => !(32 <= b < 100)), 0, 32 * 32, 2) == 32
  {
    hide Range, CountFree;
    var taken := Range(0, 32) - {30};
    RangeSize(0, 32);
    var bits := Bits(taken, 32, b => !(32 <= b < 100));
    assert forall b: nat :: b < 32 && b != 30 ==> b in bits;
    Pow2Above(30);
    assert StartAsWritten(30) >= 100 by { assert Pow2(7) == 128; Pow2Grows(7, 30); }
    StretchCount(bits, 32, 100, StartAsWritten(30), 3);
    StretchCount(bits, 32, 100, StartAsWritten(32), 3);
    assert Accepted(bits, 32, 2) && !Accepted(bits, 30, 2);
  }

  lemma {:induction false} Pow2Grows(i: nat, j: nat)
    requires i <= j
    ensures Pow2(i) <= Pow2(j)
  {
    if i < j { Pow2Grows(i, j - 1); }
  }

  /** Blocks lo..hi exist and none is taken. */
  ghost predicate FreeUpTo(taken: set<nat>, max: nat, lo: nat, hi: nat) {
    hi <= max && forall b: nat :: lo <= b < hi ==> b !in taken
  }

  /**
    Any map: when the blocks from the lowest free one, f, to the end of its window are in the map
    and free, the answer is f, and right.
   */
  lemma {:induction false} OpenStretchRight(taken: set<nat>, max: nat, beyond: nat -> bool, n: nat, size: nat)
    requires size > 1 && n >= max
    requires var f := LeastFree(taken, 0, max); FreeUpTo(taken, max, f, StartAsWritten(f) + size)
    ensures var f := LeastFree(taken, 0, max);
      LeastAccepted(Bits(taken, max, beyond), 0, n, size) == f && RightAnswer(taken, max, n, size, f)
  {
    var bits, f := Bits(taken, max, beyond), LeastFree(taken, 0, max);
    StartAbove(f);
    assert FreeRun(taken, max, f, size) && f !in bits;
    StretchCount(bits, f, StartAsWritten(f) + size, StartAsWritten(f), size);
    CountFreeGrows(bits, StartAsWritten(f), size, size + 1);
    assert Accepted(bits, f, size);
    forall c: nat | c < f ensures !Accepted(bits, c, size) && !FreeRun(taken, max, c, size) {
      assert c in taken && c in bits;
    }
  }

  /** Among n blocks from `start` on, those of a free stretch [lo, hi) below which nothing is asked. */
  lemma {:induction false} StretchCount(bits: iset<nat>, lo: nat, hi: nat, start: nat, n: nat)
    requires lo <= start && forall b: nat :: lo <= b < hi ==> b !in bits
    ensures CountFree(bits, start, n) >= if hi <= start then 0 else if start + n <= hi then n else hi - start
    ensures (forall b: nat :: hi <= b ==> b in bits) ==>
      CountFree(bits, start, n) == if hi <= start then 0 else if start + n <= hi then n else hi - start
  {
    if n > 0 { StretchCount(bits, lo, hi, start, n - 1); }
  }

  /** All and only the blocks lo..hi are free, in the map and beyond. */
  ghost predicate OneStretch(bits: iset<nat>, lo: nat, hi: nat) {
    forall b: nat :: b !in bits <==> lo <= b < hi
  }

  lemma StretchRuns(taken: set<nat>, max: nat, beyond: nat -> bool, lo: nat, hi: nat, size: nat)
    requires size > 1 && lo <= hi <= max && OneStretch(Bits(taken, max, beyond), lo, hi)
    ensures LeastRun(taken, max, 0, size) == if lo + size <= hi then lo else max
  {
    var bits := Bits(taken, max, beyond);
    forall c: nat | FreeRun(taken, max, c, size) ensures lo <= c && c + size <= hi {
      assert c !in bits && c + size - 1 !in bits;
    }
    if lo + size <= hi {
      forall b: nat | lo <= b < lo + size ensures b !in taken { assert b !in bits; }
      assert FreeRun(taken, max, lo, size);
    }
  }

  /**
    When the free blocks are one stretch [lo, hi), as after the first region is described, the search as
    written is right exactly if the window at lo ends inside the stretch or the stretch is too short.
   */
  lemma {:induction false} OneStretchIff(taken: set<nat>, max: nat, beyond: nat -> bool, n: nat, lo: nat, hi: nat,
    size: nat)
    requires size > 1 && n >= max && lo <= hi <= max && OneStretch(Bits(taken, max, beyond), lo, hi)
    ensures RightAnswer(taken, max, n, size, LeastAccepted(Bits(taken, max, beyond), 0, n, size))
      <==> StartAsWritten(lo) + size <= hi || hi < lo + size
  {
    hide CountFree;
    var bits, g := Bits(taken, max, beyond), LeastRun(taken, max, 0, size);
    SearchRightIff(taken, max, beyond, n, size);
    forall b: nat | lo <= b < hi ensures WindowFree(bits, b, size) <==> StartAsWritten(b) + size <= hi {
      StartAbove(b);
      StretchCount(bits, lo, hi, StartAsWritten(b), size + 1);
    }
    StretchRuns(taken, max, beyond, lo, hi, size);
    if lo + size > hi {
      forall b: nat | b !in bits ensures !WindowFree(bits, b, size) { StartAbove(b); }
    }
  }

  /** With blocks 0 and 2 taken, a request for two blocks is answered with 1 and 2, whatever lies beyond. */
  lemma SearchFails(beyond: nat -> bool)
    ensures LeastAccepted(Bits({0, 2}, 32, beyond), 0, 32, 2) == 1 && !FreeRun({0, 2}, 32, 1, 2)
  {
    var bits := Bits({0, 2}, 32, beyond);
    assert StartAsWritten(1) == 2;
    assert CountFree(bits, 2, 0) == 0 && CountFree(bits, 2, 1) == 0 && CountFree(bits, 2, 2) == 1
      && CountFree(bits, 2, 3) == 2;
    assert Accepted(bits, 1, 2) && !Accepted(bits, 0, 2);
    assert LeastAccepted(bits, 0, 32, 2) == LeastAccepted(bits, 1, 32, 2);
  }

  /** That map is met: describe a region of 32 blocks, allocate two, free the first. */
  lemma SearchFailsReached()
    ensures var boot := BlockState(Range(0, 32), {});
      var run := [boot, BlockState({0}, {}), BlockState({0, 1}, {1}), BlockState({0, 1, 2}, {1, 2}),
        BlockState({0, 2}, {2})];
      Safe(boot) && IsRun(run, 32)
  {
    hide FreeRun, Range, LeastFree;
    var boot := BlockState(Range(0, 32), {});
    assert boot.taken - Range(0, 32) + {0} == {0};
    assert InitStep(boot, BlockState({0}, {}), 0, 32, 32);
    AllocatesNext({0}, {}, 1);
    AllocatesNext({0, 1}, {1}, 2);
    assert {0} + {1} == {0, 1} && {0, 1} + {2} == {0, 1, 2} && {1} + {2} == {1, 2};
    assert Range(1, 1) == {1} && {0, 1, 2} - {1} == {0, 2} && {1, 2} - {1} == {2};
    assert FramesTheorems.FreeRunStep(BlockState({0, 1, 2}, {1, 2}), BlockState({0, 2}, {2}), 1, 1);
  }

  lemma AllocatesNext(taken: set<nat>, given: set<nat>, f: nat)
    requires f < 32 && f !in taken && forall b: nat :: b < f ==> b in taken
    ensures FramesTheorems.AllocStep(BlockState(taken, given), BlockState(taken + {f}, given + {f}), 32)
  {
    assert LeastFree(taken, 0, 32) == f;
  }
}
