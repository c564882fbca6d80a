// Properties of the block allocator that span several calls.
module FramesTheorems {
  import opened Machine
  import opened Bitmap
  import opened Frames

  /** free_blocks after alloc_blocks restores every word of the map, and with it the counter. */
  lemma FreeUndoesAlloc(before: seq<bv32>, after: seq<bv32>, start: nat, n: nat)
    requires |before| == |after| && FreeRun(Members(before), Covers(before), start, n)
    requires Members(after) == Members(before) + Range(start, n) - Range(start, n)
    ensures after == before
  {
    hide Members;
    assert Members(after) == Members(before);
    SameMembers(after, before);
  }

  /** alloc_blocks and then free_blocks of what it granted: every word and the counter are the old ones. */
  method AllocThenFree(frames: FrameMap, size: word) returns (r: Grant)
    requires frames.Valid()
    modifies frames, frames.words
    ensures frames.Valid()
    ensures frames.words[..] == old(frames.words[..]) && frames.used == old(frames.used)
    ensures r.Halted? <==> size == 0 || forall s: nat :: !FreeRun(old(frames.Taken()), frames.max, s, size)
  {
    hide Members, FreeRun;
    ghost var before := frames.words[..];
    r := frames.AllocBlocks(size);
    if r.Granted? {
      frames.FreeBlocks(r.addr, size);
      ghost var f := r.addr as int / BLOCK_SIZE;
      FreeUndoesAlloc(before, frames.words[..], f, size as int);
    } else {
      SameMembers(frames.words[..], before);
    }
  }

  /** The taken blocks, and among them those handed out to callers and not yet returned. */
  datatype BlockState = BlockState(taken: set<nat>, given: set<nat>)

  /** One call of the allocator, as the contracts of Frames.FrameMap describe it. */
  ghost predicate Next(s: BlockState, t: BlockState, max: nat) {
    || (exists start: nat, n: nat :: InitStep(s, t, start, n, max))
    || (exists start: nat, n: nat :: DeinitStep(s, t, start, n, max))
    || AllocStep(s, t, max)
    || (exists start: nat, n: nat :: AllocRunStep(s, t, start, n, max))
    || (exists start: nat, n: nat :: FreeRunStep(s, t, start, n))
  }

  /** Regions are described at boot, apart from blocks in use. */
  ghost predicate InitStep(s: BlockState, t: BlockState, start: nat, n: nat, max: nat) {
    start + n <= max && Range(start, n) !! s.given && t == BlockState(s.taken - Range(start, n) + {0}, s.given)
  }

  ghost predicate DeinitStep(s: BlockState, t: BlockState, start: nat, n: nat, max: nat) {
    start + n <= max && Range(start, n) !! s.given && t == BlockState(s.taken + Range(start, n), s.given)
  }

  ghost predicate AllocStep(s: BlockState, t: BlockState, max: nat) {
    var f := LeastFree(s.taken, 0, max);
    t == if f == max then s else BlockState(s.taken + {f}, s.given + {f})
  }

  ghost predicate AllocRunStep(s: BlockState, t: BlockState, start: nat, n: nat, max: nat) {
    FreeRun(s.taken, max, start, n) && t == BlockState(s.taken + Range(start, n), s.given + Range(start, n))
  }

  /** Callers return only what they were given. */
  ghost predicate FreeRunStep(s: BlockState, t: BlockState, start: nat, n: nat) {
    Range(start, n) <= s.given && t == BlockState(s.taken - Range(start, n), s.given - Range(start, n))
  }

  ghost predicate IsRun(states: seq<BlockState>, max: nat) {
    forall i :: 0 <= i < |states| - 1 ==> Next(states[i], states[i + 1], max)
  }

  ghost predicate Safe(s: BlockState) { 0 in s.taken && 0 !in s.given && s.given <= s.taken }

  lemma NextSafe(s: BlockState, t: BlockState, max: nat)
    requires Safe(s) && Next(s, t, max)
    ensures Safe(t)
  {
  }

  /** Once block 0 is taken it is never given out: no allocation of any run returns a null address. */
  lemma {:induction false} NullNeverGiven(states: seq<BlockState>, max: nat)
    requires |states| > 0 && Safe(states[0]) && IsRun(states, max)
    ensures forall i :: 0 <= i < |states| ==> Safe(states[i])
  {
    if |states| > 1 {
      var n := |states| - 1;
      NullNeverGiven(states[..n], max);
      assert states[..n][n - 1] == states[n - 1];
      assert Next(states[n - 1], states[n - 1 + 1], max);
      NextSafe(states[n - 1], states[n], max);
    }
  }
}
