// mem/mem.h: the physical block allocator, a packed set of taken blocks and its counter.
//
// Repairs to the source (their effect is the subject of FramesAsWritten.dfy):
//   line 49     block 0 is counted when it becomes taken
//   line 174    the initial fill is 0xff, so that "all taken" is what the map says
//   lines 81-91 the search visits the map's own words, starts its run at bit j, tests `size`
//               blocks, and keeps the run inside the map
// Line 122, an inverted test, is kept: it changes no outcome.
module Frames {
  import opened Machine
  import opened Bitmap

  const BLOCK_SIZE: nat := 4096
  const MAX_BLOCKS: nat := 0x10_0000

  /** die() stops the machine; otherwise an allocation yields a physical address. */
  datatype Grant = Halted | Granted(addr: word)

  ghost function Range(start: nat, n: nat): (r: set<nat>)
    ensures forall b: nat :: b in r <==> start <= b < start + n
  {
    if n == 0 then {} else Range(start, n - 1) + {start + n - 1}
  }

  /** Blocks start..start+n exist and none is taken. */
  ghost predicate FreeRun(taken: set<nat>, max: nat, start: nat, n: nat) {
    start + n <= max && forall b: nat :: start <= b < start + n ==> b !in taken
  }

  /** What line 122 catches: a full map, or a request for more blocks than exist. */
  lemma NoRun(taken: set<nat>, max: nat, n: nat)
    requires taken <= Range(0, max) && max <= MAX_BLOCKS && (|taken| - max) % TWO32 <= n
    ensures n == 0 || forall s: nat :: !FreeRun(taken, max, s, n)
  {
    FullIff(taken, max);
    if |taken| < max { assert (|taken| - max) % TWO32 == TWO32 + |taken| - max; }
    forall s: nat | n > 0 ensures !FreeRun(taken, max, s, n) {
      assert |taken| == max && s < max ==> s in taken;
    }
  }

  lemma FreeRunBound(taken: set<nat>, max: nat, start: nat, n: nat)
    requires FreeRun(taken, max, start, n)
    ensures start + n <= max
  {
  }

  lemma NoBlocks(taken: set<nat>, max: nat, start: nat)
    requires start <= max
    ensures FreeRun(taken, max, start, 0)
  {
  }

  lemma FreeRunStep(taken: set<nat>, max: nat, start: nat, n: nat)
    requires start + n < max
    ensures FreeRun(taken, max, start, n + 1) <==> FreeRun(taken, max, start, n) && start + n !in taken
  {
  }

  /** The lowest free block at or above b, or max. */
  ghost function LeastFree(taken: set<nat>, b: nat, max: nat): (f: nat)
    requires b <= max
    ensures b <= f <= max
    ensures forall c: nat :: b <= c < f ==> c in taken
    ensures f < max ==> f !in taken
    decreases max - b
  {
    if b == max || b !in taken then b else LeastFree(taken, b + 1, max)
  }

  lemma {:induction false} RangeSize(start: nat, n: nat)
    ensures |Range(start, n)| == n
  {
    if n > 0 { RangeSize(start, n - 1); }
  }

  lemma SubsetSize(a: set<nat>, b: set<nat>)
    requires a <= b
    ensures |a| <= |b| && (|a| == |b| ==> a == b)
    decreases b
  {
    if a != b {
      var x :| x in b && x !in a;
      SubsetSize(a, b - {x});
    }
  }

  /** The counter reaches the number of blocks exactly when no block is free. */
  lemma FullIff(taken: set<nat>, max: nat)
    requires taken <= Range(0, max)
    ensures |taken| <= max
    ensures |taken| == max <==> LeastFree(taken, 0, max) == max
  {
    RangeSize(0, max);
    SubsetSize(taken, Range(0, max));
    if LeastFree(taken, 0, max) == max { assert taken == Range(0, max); }
    if |taken| == max { assert LeastFree(taken, 0, max) !in Range(0, max); }
  }

  class FrameMap {
    const words: array<bv32>  // memory_map
    const max: word           // blocks_max
    var used: word            // blocks_used

    ghost function Taken(): set<nat>
      reads words
    {
      Members(words[..])
    }

    ghost predicate Valid()
      reads this, words
    {
      && max as int == 32 * words.Length && max as int <= MAX_BLOCKS
      && used as int == |Taken()|
    }

    /** pmem_init's map: every block taken. */
    constructor (blocks: word)
      requires blocks as int % 32 == 0 && blocks as int <= MAX_BLOCKS
      ensures Valid() && max == blocks && Taken() == Range(0, max)
      ensures fresh(words)
    {
      words := new bv32[blocks as int / 32](_ => 0xFFFF_FFFF);
      max := blocks;
      used := blocks;
      new;
      hide Mask, Test;
      forall b: nat | b < blocks as int ensures b in Taken() {
        FullWord(b % 32);
        assert Bit(words[..], b);
      }
      assert Taken() == Range(0, max);
      RangeSize(0, max);
    }

    lemma TakenInRange()
      requires Valid()
      ensures Taken() <= Range(0, max) && used as int == |Taken()| <= max as int <= MAX_BLOCKS
      ensures |Taken()| == max as int <==> LeastFree(Taken(), 0, max) == max as int
    {
      hide Mask, Test;
      FullIff(Taken(), max);
    }

    /** mmap_set, mmap_unset, mmap_test with the counter kept in step. */
    method Take(b: nat)
      requires Valid() && b < max as int
      modifies this, words
      ensures Valid() && Taken() == old(Taken()) + {b}
    {
      hide Mask, Test, Bit;
      var free := !Bit(words[..], b);
      assert free <==> b !in Taken() by { BitMember(words[..], b); }
      BitSet(words, b);
      FullIff(Taken(), max);
      assert !free ==> Taken() == old(Taken());
      if free {
        used := used + 1;
      }
    }

    method Drop(b: nat)
      requires Valid() && b < max as int
      modifies this, words
      ensures Valid() && Taken() == old(Taken()) - {b}
    {
      hide Mask, Test, Members;
      var taken := Bit(words[..], b);
      assert taken <==> b in Taken() by { BitMember(words[..], b); }
      BitUnset(words, b);
      if taken {
        used := used - 1;
      }
    }

    /** find_free_block: the lowest free block, or -1. */
    method FindFree() returns (frame: int)
      requires Valid()
      ensures var f := LeastFree(Taken(), 0, max); frame == if f < max as int then f else -1
    {
      hide Mask, Test, Members;
      for i := 0 to words.Length
        invariant forall b: nat :: b < 32 * i ==> b in Taken()
      {
        if words[i] != 0xFFFF_FFFF {
          for j := 0 to 32
            invariant forall b: nat :: b < 32 * i + j ==> b in Taken()
          {
            BitMember(words[..], 32 * i + j);
            assert (32 * i + j) / 32 == i && (32 * i + j) % 32 == j;
            if !Test(words[i], Mask(j)) {
              return 32 * i + j;
            }
          }
        } else {
          forall b: nat | 32 * i <= b < 32 * i + 32 ensures b in Taken() {
            BitMember(words[..], b);
            FullWord(b % 32);
          }
        }
      }
      return -1;
    }

    /** The loops that mark and unmark a run of blocks. */
    method TakeRun(start: nat, n: nat)
      requires Valid() && (n == 0 || start + n <= max as int)
      modifies this, words
      ensures Valid() && Taken() == old(Taken()) + Range(start, n)
    {
      hide Members, Taken, Valid;
      ghost var was := Taken();
      for i := 0 to n
        invariant Valid() && Taken() == was + Range(start, i)
      {
        Take(start + i);
      }
    }

    method DropRun(start: nat, n: nat)
      requires Valid() && (n == 0 || start + n <= max as int)
      modifies this, words
      ensures Valid() && Taken() == old(Taken()) - Range(start, n)
    {
      hide Members, Taken, Valid;
      ghost var was := Taken();
      for i := 0 to n
        invariant Valid() && Taken() == was - Range(start, i)
      {
        Drop(start + i);
      }
    }

    /** mem_init_region: the region's blocks become free, block 0 does not. */
    method InitRegion(base: word, size: word)
      requires Valid() && base as int / BLOCK_SIZE + size as int / BLOCK_SIZE <= max as int && max > 0
      modifies this, words
      ensures Valid() && Taken() == old(Taken()) - Range(base as int / BLOCK_SIZE, size as int / BLOCK_SIZE) + {0}
    {
      DropRun(base as int / BLOCK_SIZE, size as int / BLOCK_SIZE);
      Take(0);
    }

    /** mem_deinit_region: the region's blocks become taken. */
    method DeinitRegion(base: word, size: word)
      requires Valid() && base as int / BLOCK_SIZE + size as int / BLOCK_SIZE <= max as int
      modifies this, words
      ensures Valid() && Taken() == old(Taken()) + Range(base as int / BLOCK_SIZE, size as int / BLOCK_SIZE)
    {
      TakeRun(base as int / BLOCK_SIZE, size as int / BLOCK_SIZE);
    }

    /**
      alloc_block: the lowest free block. It halts exactly when the map is full, and then at the
      counter test: the second test (line 105) never fires.
     */
    method AllocBlock() returns (r: Grant)
      requires Valid()
      modifies this, words
      ensures Valid()
      ensures var f := LeastFree(old(Taken()), 0, max);
        if f == max as int then r == Halted && Taken() == old(Taken())
        else r == Granted(f * BLOCK_SIZE) && Taken() == old(Taken()) + {f}
      ensures r.Granted? && 0 in old(Taken()) ==> r.addr != 0
    {
      TakenInRange();
      if used >= max {
        return Halted;
      }
      var frame := FindFree();
      assert frame != -1;
      Take(frame);
      return Granted(frame * BLOCK_SIZE);
    }

    /** free_block of an allocated block. */
    method FreeBlock(p: word)
      requires Valid() && p as int / BLOCK_SIZE in Taken()
      modifies this, words
      ensures Valid() && Taken() == old(Taken()) - {p as int / BLOCK_SIZE}
    {
      TakenInRange();
      Drop(p as int / BLOCK_SIZE);
    }

    /** mmap_first_free_s: the lowest start of `size` free blocks in a row, or -1. */
    method FindRun(size: word) returns (frame: int)
      requires Valid()
      ensures frame == -1 ==> size == 0 || forall s: nat :: !FreeRun(Taken(), max, s, size)
      ensures frame != -1 ==> size > 0 && frame >= 0 && FreeRun(Taken(), max, frame, size)
      ensures frame != -1 ==> forall s: nat :: s < frame ==> !FreeRun(Taken(), max, s, size)
    {
      hide Mask, Test, Members, Bit;
      if size == 0 {
        return -1;
      }
      if size == 1 {
        frame := FindFree();
        assert forall s: nat :: FreeRun(Taken(), max, s, 1) ==> s < max as int && s !in Taken();
        return;
      }
      for i := 0 to words.Length
        invariant forall s: nat :: s < 32 * i ==> !FreeRun(Taken(), max, s, size)
      {
        for j := 0 to 32
          invariant forall s: nat :: s < 32 * i + j ==> !FreeRun(Taken(), max, s, size)
        {
          var start := 32 * i + j;
          BitMember(words[..], start);
          if !Bit(words[..], start) && start + size as int <= max as int {
            var found := TestRun(start, size);
            if found {
              return start;
            }
          }
        }
      }
      return -1;
    }

    /** The innermost loop of the search: are all `size` blocks from `start` free? */
    method TestRun(start: nat, size: word) returns (found: bool)
      requires Valid() && start + size as int <= max as int && size > 0
      ensures found <==> FreeRun(Taken(), max, start, size)
    {
      hide Mask, Test, Members, Bit, FreeRun;
      assert FreeRun(Taken(), max, start, 0) by { NoBlocks(Taken(), max, start); }
      var free: nat := 0;
      for count := 0 to size as int
        invariant free <= count && (count == size as int ==> free < count)
        invariant free == count <==> FreeRun(Taken(), max, start, count)
      {
        FreeRunStep(Taken(), max, start, count);
        BitMember(words[..], start + count);
        if !Bit(words[..], start + count) {
          free := free + 1;
        }
        if free == size as int {
          return true;
        }
      }
      return false;
    }

    /** alloc_blocks: the lowest run of `size` free blocks, or a halt when there is none. */
    method AllocBlocks(size: word) returns (r: Grant)
      requires Valid()
      modifies this, words
      ensures Valid()
      ensures r.Halted? ==> Taken() == old(Taken())
      ensures r.Halted? <==> size == 0 || forall s: nat :: !FreeRun(old(Taken()), max, s, size)
      ensures r.Granted? ==> var f := r.addr as int / BLOCK_SIZE;
        && r.addr as int % BLOCK_SIZE == 0 && FreeRun(old(Taken()), max, f, size)
        && (forall s: nat :: s < f ==> !FreeRun(old(Taken()), max, s, size))
        && Taken() == old(Taken()) + Range(f, size)
    {
      hide Members, Taken, Valid, Range, FreeRun;
      TakenInRange();
      if (used as int - max as int) % TWO32 <= size as int {
        NoRun(Taken(), max, size);
        return Halted;
      }
      var frame := FindRun(size);
      if frame == -1 {
        return Halted;
      }
      FreeRunBound(Taken(), max, frame, size);
      TakeRun(frame, size as int);
      return Granted(frame * BLOCK_SIZE);
    }

    /** free_blocks of allocated blocks. */
    method FreeBlocks(p: word, size: word)
      requires Valid() && Range(p as int / BLOCK_SIZE, size) <= Taken()
      modifies this, words
      ensures Valid() && Taken() == old(Taken()) - Range(p as int / BLOCK_SIZE, size)
    {
      TakenInRange();
      var frame := p as int / BLOCK_SIZE;
      if size > 0 { assert frame + size as int - 1 in Range(0, max); }
      DropRun(frame, size as int);
    }
  }

  lemma BitMember(words: seq<bv32>, b: nat)
    requires b < Covers(words)
    ensures Bit(words, b) <==> b in Members(words)
  {
  }
}
