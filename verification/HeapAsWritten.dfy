// The lines of mem/heap.h that Heap.dfy repairs, taken literally: an input on which each one
// breaks the heap, and the exact condition under which it does not.
module HeapAsWritten {
  import opened Machine
  import opened HeapModel
  import opened HeapTheorems
  import opened Heap

  // ---------------------------------------------------------------- lines 230-237

  /** Carving with the charge of lines 233 and 237: the request, not the chunk. */
  function CarveCharged(b: Block, k: nat, n: nat): Block
    requires k < |b.chunks| && Fits(b.chunks[k], n)
  {
    CarveBlock(b, k, n).(used := b.used + n + if Splits(b.chunks[k], n) then HEADER else 0)
  }

  /** `used` stays exact only if the chunk is split, or fits without a byte to spare. */
  lemma ChargeExactIff(b: Block, k: nat, n: nat)
    requires BlockOk(b) && 0 < n && k < |b.chunks| && Fits(b.chunks[k], n)
    ensures BlockOk(CarveCharged(b, k, n)) <==> Splits(b.chunks[k], n) || b.chunks[k].size == n
  {
    hide FreeBytes, Carve;
    CarveOk(b, k, n);
    var d, e := CarveBlock(b, k, n), CarveCharged(b, k, n);
    assert d.chunks == e.chunks
      && e.used == d.used - Charge(b.chunks[k], n) + n + if Splits(b.chunks[k], n) then HEADER else 0;
  }

  /** The first block that the test of line 187 lets through and that has a chunk for n bytes, or |bs|. */
  function FirstTried(bs: seq<Block>, n: nat): (i: nat)
    ensures i <= |bs|
    ensures i < |bs| ==> FirstFit(bs[i].chunks, n) < |bs[i].chunks|
  {
    if bs == [] || (bs[0].size - bs[0].used >= Wrap(n + HEADER) as int && FirstFit(bs[0].chunks, n) < |bs[0].chunks|)
      then 0
    else FirstTried(bs[1..], n) + 1
  }

  /** k_heapLCABAlloc with the charge as written in `used` and `mem_in_use`. */
  function ChargedAlloc(t: State, n: nat): (State, nat) {
    var i := FirstTried(t.blocks, n);
    if i == |t.blocks| then (t, 0) else
      var b := t.blocks[i];
      var k := FirstFit(b.chunks, n);
      var c := CarveCharged(b, k, n);
      (t.(blocks := t.blocks[i := c], memInUse := Wrap(t.memInUse as int + c.used - b.used)), b.chunks[k].Payload())
  }

  ghost function ChargedStep(t: State, op: Op): State
    requires Legal(t, op)
  {
    match op
    case Add(base, size) => AddStep(t, base, size)
    case Alloc(n) => ChargedAlloc(t, n).0
    case Free(p) => FreeStep(t, p)
  }

  ghost predicate LegalChargedRun(t: State, ops: seq<Op>)
    decreases |ops|
  {
    ops == [] || (Legal(t, ops[0]) && LegalChargedRun(ChargedStep(t, ops[0]), ops[1..]))
  }

  ghost function ChargedRun(t: State, ops: seq<Op>): State
    requires LegalChargedRun(t, ops)
    decreases |ops|
  {
    if ops == [] then t else ChargedRun(ChargedStep(t, ops[0]), ops[1..])
  }

  const DRIFT: nat := HEADER + 16

  /** Block c is b but for a `used` at most d too small. */
  ghost predicate TrailsBlock(b: Block, c: Block, d: nat) {
    c == b.(used := c.used) && b.used - d <= c.used <= b.used
  }

  /** Heap t has the blocks and chunks of s; its counters are consistent, with each `used` at most d too small. */
  ghost predicate Trails(s: State, t: State, d: nat) {
    && |s.blocks| == |t.blocks| && s.bcnt == t.bcnt && s.size == t.size
    && (forall i :: 0 <= i < |s.blocks| ==> TrailsBlock(s.blocks[i], t.blocks[i], d))
    && t.memInUse == Wrap(TotalUsed(t.blocks))
  }

  lemma TrailsUpdate(s: State, t: State, d: nat, i: nat, b: Block, c: Block, delta: int, error: int)
    requires Trails(s, t, d) && i < |s.blocks| && TrailsBlock(b, c, d + DRIFT)
    requires c.used == t.blocks[i].used + error
    ensures Trails(s.(blocks := s.blocks[i := b], memInUse := Wrap(s.memInUse as int + delta)),
                   t.(blocks := t.blocks[i := c], memInUse := Wrap(t.memInUse as int + error)), d + DRIFT)
  {
    TotalsUpdate(t.blocks, i, c);
  }

  /** The test of line 187 lets every block with a fit through, so the first tried is the first with a fit. */
  lemma {:induction false} SameBlock(bs: seq<Block>, cs: seq<Block>, d: nat, n: nat)
    requires |bs| == |cs| && forall i :: 0 <= i < |bs| ==> BlockOk(bs[i]) && TrailsBlock(bs[i], cs[i], d)
    ensures FirstTried(cs, n) == FirstBlock(bs, n) == FirstBlock(cs, n)
  {
    hide BlockOk;
    if bs != [] {
      RejectSound(bs[0], cs[0], d, n);
      SameBlock(bs[1..], cs[1..], d, n);
    }
  }

  lemma RejectSound(b: Block, c: Block, d: nat, n: nat)
    requires BlockOk(b) && TrailsBlock(b, c, d)
    ensures c.size - c.used < Wrap(n + HEADER) as int ==> FirstFit(c.chunks, n) == |c.chunks|
  {
    var k := FirstFit(b.chunks, n);
    if k < |b.chunks| { FreeChunkBound(b.chunks, k); }
  }

  lemma AllocTrails(s: State, t: State, d: nat, n: nat)
    requires Inv(s) && Trails(s, t, d)
    ensures CanAlloc(t, n) <==> CanAlloc(s, n)
    ensures Trails(AllocStep(s, n).0, ChargedAlloc(t, n).0, d + DRIFT)
    ensures ChargedAlloc(t, n).1 == AllocStep(s, n).1
  {
    hide BlockOk, FirstFit, FirstTried, FirstBlock, Carve, Splice;
    SameBlock(s.blocks, t.blocks, d, n);
    var i := FirstBlock(s.blocks, n);
    if i < |s.blocks| {
      var b, c := s.blocks[i], t.blocks[i];
      var k := FirstFit(b.chunks, n);
      var e := CarveCharged(c, k, n);
      TrailsUpdate(s, t, d, i, CarveBlock(b, k, n), e, Charge(b.chunks[k], n), e.used - c.used);
    }
  }

  lemma {:induction false} SameSearch(bs: seq<Block>, cs: seq<Block>, d: nat, p: nat)
    requires |bs| == |cs| && forall i :: 0 <= i < |bs| ==> TrailsBlock(bs[i], cs[i], d)
    ensures BlockOf(cs, p) == BlockOf(bs, p)
  {
    if bs != [] { SameSearch(bs[1..], cs[1..], d, p); }
  }

  lemma FreeTrails(s: State, t: State, d: nat, p: nat)
    requires Trails(s, t, d)
    ensures LivePointer(t, p) <==> LivePointer(s, p)
    ensures LivePointer(s, p) ==> Trails(FreeStep(s, p), FreeStep(t, p), d + DRIFT)
  {
    hide BlockOf, ChunkOf, Coalesce, Refund;
    SameSearch(s.blocks, t.blocks, d, p);
    if LivePointer(s, p) {
      var i := BlockOf(s.blocks, p);
      var b, c := s.blocks[i], t.blocks[i];
      var k := ChunkOf(b.chunks, p);
      TrailsUpdate(s, t, d, i, FreeBlock(b, k), FreeBlock(c, k), -(Refund(b.chunks, k) as int),
        -(Refund(c.chunks, k) as int));
    }
  }

  lemma AddTrails(s: State, t: State, d: nat, base: nat, size: nat)
    requires Trails(s, t, d)
    ensures CanAdd(t, base, size) <==> CanAdd(s, base, size)
    ensures CanAdd(s, base, size) ==> Trails(AddStep(s, base, size), AddStep(t, base, size), d + DRIFT)
  {
    if CanAdd(s, base, size) { assert AddStep(t, base, size).blocks[1..] == t.blocks; }
  }

  /** Both heaps allow the same calls, and a call moves the counters apart by 24 at most. */
  lemma StepTrails(s: State, t: State, d: nat, op: Op)
    requires Inv(s) && Trails(s, t, d)
    ensures Legal(t, op) <==> Legal(s, op)
    ensures Legal(s, op) ==> Inv(Step(s, op)) && Trails(Step(s, op), ChargedStep(t, op), d + DRIFT)
  {
    hide Inv, Trails, CanAdd, CanAlloc, LivePointer;
    match op {
      case Add(base, size) =>
        AddTrails(s, t, d, base, size);
        if CanAdd(s, base, size) { AddInv(s, base, size); }
      case Alloc(n) =>
        AllocInv(s, n);
        AllocTrails(s, t, d, n);
      case Free(p) =>
        FreeTrails(s, t, d, p);
        if LivePointer(s, p) { FreeInv(s, p); }
    }
  }

  /**
    A run with the charge as written hands out the pointers and leaves the chunks of the repaired
    run; only its counters fall behind, by at most 24 a call.
   */
  lemma {:induction false} RunTrails(s: State, t: State, d: nat, ops: seq<Op>)
    requires Inv(s) && Trails(s, t, d)
    ensures LegalChargedRun(t, ops) <==> LegalRun(s, ops)
    ensures LegalRun(s, ops) ==> Inv(Run(s, ops)) && Trails(Run(s, ops), ChargedRun(t, ops), d + DRIFT * |ops|)
    decreases |ops|
  {
    hide Inv, Trails, Legal, Step, ChargedStep;
    if ops != [] {
      StepTrails(s, t, d, ops[0]);
      if Legal(s, ops[0]) { RunTrails(Step(s, ops[0]), ChargedStep(t, ops[0]), d + DRIFT, ops[1..]); }
    }
  }

  /** From an empty heap: every block's `size - used` is at least its free bytes plus 52, and at most 24 a call more. */
  lemma {:induction false} UnderstatedRun(ops: seq<Op>, i: nat)
    requires LegalChargedRun(EMPTY, ops) && i < |ChargedRun(EMPTY, ops).blocks|
    ensures LegalRun(EMPTY, ops)
    ensures var b := ChargedRun(EMPTY, ops).blocks[i];
      var room := FreeBytes(b.chunks) + MIN_BLOCK;
      && room <= b.size - b.used <= room + DRIFT * |ops|
      && i < |Run(EMPTY, ops).blocks| && b.chunks == Run(EMPTY, ops).blocks[i].chunks
  {
    RunTrails(EMPTY, EMPTY, 0, ops);
    assert TrailsBlock(Run(EMPTY, ops).blocks[i], ChargedRun(EMPTY, ops).blocks[i], DRIFT * |ops|);
  }

  /** So in every reachable state the quick reject skips no block with a chunk that fits. */
  lemma {:induction false} UnderstatedQuickReject(ops: seq<Op>, i: nat, n: nat)
    requires LegalChargedRun(EMPTY, ops) && i < |ChargedRun(EMPTY, ops).blocks|
    requires var b := ChargedRun(EMPTY, ops).blocks[i]; b.size - b.used < Wrap(n + HEADER) as int
    ensures var b := ChargedRun(EMPTY, ops).blocks[i]; FirstFit(b.chunks, n) == |b.chunks|
  {
    UnderstatedRun(ops, i);
    var b := ChargedRun(EMPTY, ops).blocks[i];
    var k := FirstFit(b.chunks, n);
    if k < |b.chunks| { FreeChunkBound(b.chunks, k); }
  }

  /** For the first 2^26 calls `size - used` fits a word, so the subtraction on words of line 187 gives it exactly. */
  lemma {:induction false} WordSubtraction(ops: seq<Op>, i: nat)
    requires LegalChargedRun(EMPTY, ops) && i < |ChargedRun(EMPTY, ops).blocks| && |ops| <= 0x400_0000
    ensures var b := ChargedRun(EMPTY, ops).blocks[i]; Wrap(b.size - Wrap(b.used) as int) as int == b.size - b.used
  {
    hide FreeBytes, LegalChargedRun, ChargedRun;
    UnderstatedRun(ops, i);
    RunTrails(EMPTY, EMPTY, 0, ops);
    var c := Run(EMPTY, ops).blocks[i];
    assert TrailsBlock(c, ChargedRun(EMPTY, ops).blocks[i], DRIFT * |ops|);
    UsedBound(c);
    WrapDifference(c.size, ChargedRun(EMPTY, ops).blocks[i].used);
  }

  lemma WrapDifference(x: int, y: int)
    requires 0 <= x - y < TWO32
    ensures Wrap(x - Wrap(y) as int) as int == x - y
  {
  }

  /** 30 bytes from a 40-byte chunk, then freed: `used` has fallen below zero. */
  lemma ChargeFails()
    ensures var b := Pristine(1000, 92);
      Fits(b.chunks[0], 30) && FreeBlock(CarveCharged(b, 0, 30), 0).used == -10
  {
  }

  // ---------------------------------------------------------------- a heap on which the walks go wrong

  /** One block of 200 bytes: 100 free, then 40 live, then the slack at 1176..1200. */
  const HOLED: Block := Block(1000, 200, 48, [Chunk(1020, 100, false), Chunk(1128, 40, true)])

  /** It is met: allocate 100 and 40 bytes and free the first. */
  lemma HoledReached()
    ensures var ops := [Add(1000, 200), Alloc(100), Alloc(40), Free(1028)];
      LegalRun(EMPTY, ops) && Run(EMPTY, ops) == State([HOLED], 1, 48, 200)
  {
    hide AllocStep, FreeStep, LivePointer;
    var s0 := AddStep(EMPTY, 1000, 200);
    var s1 := State([Block(1000, 200, 108, [Chunk(1020, 100, true), Chunk(1128, 40, false)])], 1, 108, 200);
    var s2 := State([Block(1000, 200, 148, [Chunk(1020, 100, true), Chunk(1128, 40, true)])], 1, 148, 200);
    HoledSplit();
    HoledWhole();
    HoledFreed();
    RunCons(s2, Free(1028), []);
    RunCons(s1, Alloc(40), [Free(1028)]);
    RunCons(s0, Alloc(100), [Alloc(40), Free(1028)]);
    RunCons(EMPTY, Add(1000, 200), [Alloc(100), Alloc(40), Free(1028)]);
  }

  lemma HoledSplit()
    ensures AllocStep(AddStep(EMPTY, 1000, 200), 100).0
      == State([Block(1000, 200, 108, [Chunk(1020, 100, true), Chunk(1128, 40, false)])], 1, 108, 200)
  {
    var s := AddStep(EMPTY, 1000, 200);
    assert s.blocks == [Pristine(1000, 200)];
    var mid := [Chunk(1020, 100, true), Chunk(1128, 40, false)];
    assert Splice(s.blocks[0].chunks, 0, 1, mid) == mid;
  }

  lemma HoledWhole()
    ensures var s := State([Block(1000, 200, 108, [Chunk(1020, 100, true), Chunk(1128, 40, false)])], 1, 108, 200);
      AllocStep(s, 40).0 == State([Block(1000, 200, 148, [Chunk(1020, 100, true), Chunk(1128, 40, true)])], 1, 148, 200)
  {
    var cs := [Chunk(1020, 100, true), Chunk(1128, 40, false)];
    assert FirstFit(cs, 40) == 1;
    assert Splice(cs, 1, 2, [Chunk(1128, 40, true)]) == [cs[0], Chunk(1128, 40, true)];
  }

  lemma HoledFreed()
    ensures var s := State([Block(1000, 200, 148, [Chunk(1020, 100, true), Chunk(1128, 40, true)])], 1, 148, 200);
      LivePointer(s, 1028) && FreeStep(s, 1028) == State([HOLED], 1, 48, 200)
  {
    assert Release([Chunk(1020, 100, true), Chunk(1128, 40, true)], 0) == HOLED.chunks;
  }

  lemma RunCons(s: State, op: Op, ops: seq<Op>)
    requires Legal(s, op) && LegalRun(Step(s, op), ops)
    ensures LegalRun(s, [op] + ops) && Run(s, [op] + ops) == Run(Step(s, op), ops)
  {
    assert ([op] + ops)[1..] == ops;
  }

  /** Memory that holds it, with `slack` as the second word after the last chunk. */
  ghost predicate HoledAt(m: seq<byte>, slack: word) {
    1200 <= |m| && BlockAt(m, HOLED, 0) && Peek(m, 1180) == slack
  }

  method StoreHoled(ram: array<byte>, slack: word)
    requires ram.Length >= 1200
    modifies ram
    ensures HoledAt(ram[..], slack)
  {
    hide Peek;
    Poke(ram, 1000, 200);
    Poke(ram, 1004, 48);
    Poke(ram, 1008, 0);
    Poke(ram, 1020, 0);
    Poke(ram, 1024, 100);
    Poke(ram, 1128, 100);
    Poke(ram, 1132, TWO31 + 40);
    Poke(ram, 1180, slack);
    assert HeaderAt(ram[..], HOLED.chunks, 0, 0) && HeaderAt(ram[..], HOLED.chunks, 1, 0);
  }

  lemma HoledTiled()
    ensures Tiled(HOLED.chunks, HOLED.Start(), HOLED.End()) && Proper(HOLED.chunks)
  {
  }

  // ---------------------------------------------------------------- lines 214-227

  /**
    A split that leaves the header after the remainder alone keeps memory well-formed
    exactly when there is no such header.
   */
  lemma {:induction false} SplitStaleIff(m: seq<byte>, n: seq<byte>, b: Block, next: nat, k: nat, want: nat)
    requires BlockAt(m, b, next) && Tiled(b.chunks, b.Start(), b.End())
    requires k < |b.chunks| && Fits(b.chunks[k], want) && Splits(b.chunks[k], want)
    requires var c, rest := b.chunks[k], b.chunks[k].Payload() + want;
      && Confined(m, n, b.base, c.addr, AddrOf(b.chunks, k + 1, b.End()))
      && c.Next() <= |n|
      && Peek(n, c.addr) == PrevSize(b.chunks, k, 0) && Peek(n, c.addr + 4) == TWO31 + want
      && Peek(n, rest) == want && Peek(n, rest + 4) == c.size - want - HEADER
      && Peek(n, b.base + 4) == b.used + want + HEADER
    ensures BlockAt(n, CarveBlock(b, k, want), next) <==> k + 1 == |b.chunks|
  {
    hide Peek, Headers, BlockAt;
    ReadBlock(m, b, next);
    if k + 1 == |b.chunks| {
      SplitStored(m, n, b, next, k, want);
    } else {
      ReadChunk(m, b, next, k + 1);
      ReadChunk(m, b, next, k);
      PeekSame(m, n, b.chunks[k + 1].addr);
      if BlockAt(n, CarveBlock(b, k, want), next) {
        SpliceAt(b.chunks, k, k + 1, Carve(b.chunks[k], want), k + 1);
        SpliceAt(b.chunks, k, k + 1, Carve(b.chunks[k], want), k + 2);
        HeaderOf(n, CarveBlock(b, k, want), next, k + 2);
      }
    }
  }

  lemma HeaderOf(m: seq<byte>, b: Block, next: nat, k: nat)
    requires BlockAt(m, b, next) && k < |b.chunks|
    ensures HeaderAt(m, b.chunks, k, 0)
  {
  }

  /**
    30 bytes from the hole, stored as lines 214-227 do: the live chunk's `prevsize` stays 100, so that
    freeing it looks for its predecessor at the 30 bytes taken and not at the free remainder at 1058.
   */
  method SplitStaleFails(ram: array<byte>, slack: word)
    requires HoledAt(ram[..], slack)
    modifies ram
    ensures !BlockAt(ram[..], CarveBlock(HOLED, 0, 30), 0)
    ensures CarveBlock(HOLED, 0, 30).chunks == [Chunk(1020, 30, true), Chunk(1058, 62, false), Chunk(1128, 40, true)]
    ensures Peek(ram[..], 1128) == 100 && Peek(ram[..], 1128 - (HEADER + 100) + 4) == TWO31 + 30
  {
    hide Peek, BlockAt, Tiled;
    ghost var m := ram[..];
    HoledTiled();
    ReadBlock(m, HOLED, 0);
    ReadChunk(m, HOLED, 0, 0);
    ReadChunk(m, HOLED, 0, 1);
    Poke(ram, 1062, 62);
    Poke(ram, 1058, 30);
    Poke(ram, 1024, TWO31 + 30);
    Poke(ram, 1004, 86);
    SplitStaleIff(m, ram[..], HOLED, 0, 0, 30);
  }

  // ---------------------------------------------------------------- line 97

  /**
    Lines 94-100 and 127-130: the header that Free grows backward, or 0 for none, when the
    predecessor is sought from address `from`.
   */
  function GrownBack(m: seq<byte>, from: word, prevsize: word): word
    requires prevsize != 0 ==> Wrap(from - (HEADER + prevsize)) as int + HEADER <= |m|
  {
    if prevsize == 0 then 0
    else
      var phdr := Wrap(from - (HEADER + prevsize));
      if phdr != 0 && Peek(m, phdr as int + 4) as int < TWO31 then phdr else 0
  }

  /**
    Line 97 seeks from the address `slot` of the local variable. Free then does what it should exactly
    when the variable lies at the chunk's own header, or the predecessor is live and the word found
    below `slot` reads as a live header too (or there is no address there).
   */
  lemma {:induction false} PredecessorIff(m: seq<byte>, b: Block, next: nat, k: nat, slot: word)
    requires BlockAt(m, b, next) && Tiled(b.chunks, b.Start(), b.End()) && Proper(b.chunks)
    requires 0 < k < |b.chunks| && b.base + b.size < TWO32
    requires var stray := Wrap(slot - (HEADER + b.chunks[k - 1].size)); stray as int + HEADER <= |m|
    ensures b.chunks[k].Payload() <= |m| && b.chunks[k].addr < TWO32 && b.chunks[k - 1].size < TWO32
    ensures Wrap(b.chunks[k].addr - (HEADER + b.chunks[k - 1].size)) as int == b.chunks[k - 1].addr <= |m| - HEADER
    ensures var c, p, stray := b.chunks[k], b.chunks[k - 1], Wrap(slot - (HEADER + b.chunks[k - 1].size));
      && Peek(m, c.addr) == p.size
      && GrownBack(m, c.addr, p.size) as int == (if p.used then 0 else p.addr)
      && (GrownBack(m, slot, p.size) == GrownBack(m, c.addr, p.size)
          <==> slot == c.addr || (p.used && (stray == 0 || Peek(m, stray as int + 4) as int >= TWO31)))
  {
    hide Peek, Tiled, BlockAt;
    ReadBlock(m, b, next);
    ReadChunk(m, b, next, k);
    ReadChunk(m, b, next, k - 1);
    assert Wrap(b.chunks[k].addr - (HEADER + b.chunks[k - 1].size)) as int == b.chunks[k - 1].addr;
    WrapCancel(slot, b.chunks[k].addr, HEADER + b.chunks[k - 1].size);
  }

  lemma WrapCancel(x: word, y: word, d: int)
    ensures Wrap(x - d) == Wrap(y - d) <==> x == y
  {
    var p, q := (x - d) / TWO32, (y - d) / TWO32;
    assert x - d == TWO32 * p + Wrap(x - d) as int && y - d == TWO32 * q + Wrap(y - d) as int;
  }

  /** Freeing the live chunk of HOLED never grows the free one before it, wherever the local variable lies. */
  lemma {:induction false} PredecessorFails(m: seq<byte>, slack: word, slot: word)
    requires HoledAt(m, slack) && slot != 1128 && Wrap(slot - 108) as int + HEADER <= |m|
    ensures Peek(m, 1128) == 100 && GrownBack(m, 1128, 100) == 1020 != GrownBack(m, slot, 100)
  {
    hide Peek, BlockAt;
    HoledTiled();
    PredecessorIff(m, HOLED, 0, 1, slot);
  }

  // ---------------------------------------------------------------- lines 104-107

  /** Does Free of chunk k merge forward, if successors are sought below `limit`? */
  predicate MergesForward(m: seq<byte>, b: Block, k: nat, limit: int)
    requires k < |b.chunks| && limit <= |m| && b.chunks[k].Next() + HEADER <= |m|
  {
    b.chunks[k].Next() < limit && Peek(m, b.chunks[k].Next() + 4) < TWO31
  }

  /**
    With the bound of line 105, hb + size, Free decides as it would with the true end of the
    arena exactly when the chunk is not the last, or the slack happens to look like a used header.
   */
  lemma ForwardBoundIff(m: seq<byte>, b: Block, next: nat, k: nat)
    requires BlockAt(m, b, next) && Tiled(b.chunks, b.Start(), b.End()) && k < |b.chunks|
    ensures b.chunks[k].Next() + HEADER <= |m|
    ensures MergesForward(m, b, k, b.base + b.size) == MergesForward(m, b, k, b.End())
      <==> k + 1 < |b.chunks| || Peek(m, b.End() + 4) >= TWO31
  {
    hide Peek;
    ReadChunk(m, b, next, k);
    if k + 1 < |b.chunks| { ReadChunk(m, b, next, k + 1); }
  }

  /** With a zero slack word, freeing the last chunk of HOLED merges it with the slack. */
  lemma {:induction false} ForwardBoundFails(m: seq<byte>)
    requires HoledAt(m, 0)
    ensures MergesForward(m, HOLED, 1, HOLED.base + HOLED.size) && !MergesForward(m, HOLED, 1, HOLED.End())
  {
    hide Peek, BlockAt;
    HoledTiled();
    ReadBlock(m, HOLED, 0);
    ForwardBoundIff(m, HOLED, 0, 1);
  }

  // ---------------------------------------------------------------- line 138

  /**
    Line 138 compares with the 32-bit sum hb + 20 + size: the successor's `prevsize` is stored whenever
    there is a successor, exactly if that sum does not wrap. After the last chunk the store of line
    139 goes to the slack, where it changes no block of the heap and no live payload.
   */
  lemma {:induction false} BackwardBoundIff(s: State, m: seq<byte>, n: seq<byte>, i: nat, k: nat)
    requires Inv(s) && Stored(m, s.blocks) && i < |s.blocks| && k < |s.blocks[i].chunks|
    ensures var b := s.blocks[i];
      && (b.chunks[k].Next() < Wrap(b.base + RECORD + b.size) as int <==> b.base + RECORD + b.size < TWO32)
      && (k + 1 < |b.chunks| ==> b.chunks[k].Next() == b.chunks[k + 1].addr)
      && (k + 1 == |b.chunks| ==> b.chunks[k].Next() == b.End() && b.End() + 4 <= b.base + b.size)
    ensures k + 1 == |s.blocks[i].chunks|
      && SameOutside(m, n, s.blocks[i].chunks[k].Next(), s.blocks[i].chunks[k].Next() + 4)
      ==> Stored(n, s.blocks) && PayloadsKept(m, n, LiveChunks(s))
  {
    hide Stored, BlockAt, PayloadsKept, LiveChunks, Peek, SameOutside;
    var b := s.blocks[i];
    BlockFacts(s, i);
    RegionOrder(b, k);
    TiledInside(b.chunks, b.Start(), b.End(), k);
    if k + 1 == |b.chunks| && SameOutside(m, n, b.End(), b.End() + 4) { SlackStore(s, m, n, i); }
  }

  /** HOLED moved up to end 10 bytes below 4 GiB: the live chunk's `prevsize` is not refreshed. */
  lemma BackwardBoundFails()
    ensures var b := Block(0xFFFF_FF2E, 200, 48, [Chunk(0xFFFF_FF42, 100, false), Chunk(0xFFFF_FFAE, 40, true)]);
      BlockOk(b) && b.chunks[0].Next() == b.chunks[1].addr
        && !(b.chunks[0].Next() < Wrap(b.base + RECORD + b.size) as int)
  {
  }

  /** A store to the slack of block i. */
  lemma {:induction false} SlackStore(s: State, m: seq<byte>, n: seq<byte>, i: nat)
    requires Inv(s) && Stored(m, s.blocks) && i < |s.blocks|
    requires SameOutside(m, n, s.blocks[i].End(), s.blocks[i].End() + 4)
    ensures Stored(n, s.blocks) && PayloadsKept(m, n, LiveChunks(s))
  {
    hide Stored, BlockAt, Peek;
    var b := s.blocks[i];
    InvPlaced(s);
    StoredBlock(m, s.blocks, i);
    SlackUntouched(m, n, b, BaseOf(s.blocks, i + 1));
    assert SameOutside(m, n, b.base, b.base + b.size);
    StoredUpdate(m, n, s.blocks, i, b);
    assert s.blocks[i := b] == s.blocks;
    forall c | c in LiveChunks(s) ensures SameOn(m, n, c.Payload(), c.Next()) {
      var j :| 0 <= j < |s.blocks| && c in Live(s.blocks[j].chunks);
      LiveInside(s.blocks[j], c);
      if j != i { assert Apart(s.blocks[i], s.blocks[j]); }
    }
  }

  lemma SlackUntouched(m: seq<byte>, n: seq<byte>, b: Block, next: nat)
    requires BlockAt(m, b, next) && Tiled(b.chunks, b.Start(), b.End())
    requires SameOutside(m, n, b.End(), b.End() + 4)
    ensures BlockAt(n, b, next)
  {
    hide Peek;
    PeekSame(m, n, b.base);
    PeekSame(m, n, b.base + 4);
    PeekSame(m, n, b.base + 8);
    forall k | 0 <= k < |b.chunks| ensures HeaderAt(n, b.chunks, k, 0) {
      assert HeaderAt(m, b.chunks, k, 0);
      TiledInside(b.chunks, b.Start(), b.End(), k);
      PeekSame(m, n, b.chunks[k].addr);
      PeekSame(m, n, b.chunks[k].addr + 4);
    }
  }

  // ---------------------------------------------------------------- line 203

  /** Alloc's walk from `h` with the given limit; 0 if it finds nothing. */
  function Walk(m: seq<byte>, h: nat, limit: nat, n: nat): nat
    requires limit + HEADER <= |m|
    decreases limit - h
  {
    if h >= limit then 0
    else
      var w := Peek(m, h + 4);
      if w as int < TWO31 && n <= w as int then h else Walk(m, h + HEADER + LowBits(w) as int, limit, n)
  }

  lemma {:induction false} WalkArena(m: seq<byte>, b: Block, next: nat, n: nat, k: nat)
    requires BlockAt(m, b, next) && Tiled(b.chunks, b.Start(), b.End()) && k <= |b.chunks|
    requires b.base + b.size + HEADER <= |m|
    requires forall j :: 0 <= j < k ==> !Fits(b.chunks[j], n)
    ensures AddrOf(b.chunks, k, b.End()) >= 0
    ensures var f := FirstFit(b.chunks, n);
      Walk(m, AddrOf(b.chunks, k, b.End()), b.base + b.size, n)
        == if f < |b.chunks| then b.chunks[f].addr else Walk(m, b.End(), b.base + b.size, n)
    decreases |b.chunks| - k
  {
    hide Peek, Headers;
    if k < |b.chunks| {
      ReadChunk(m, b, next, k);
      if !Fits(b.chunks[k], n) { WalkArena(m, b, next, n, k + 1); }
    }
  }

  /** A flagsize word that the walk passes over. */
  predicate Refused(w: word, n: nat) { w as int >= TWO31 || w as int < n }

  /** The header that follows one at h with flagsize w. */
  function After(h: nat, w: word): nat { h + HEADER + LowBits(w) as int }

  /**
    The 24 bytes of slack from e hold at most three headers, each found from the size in the one
    before: the flagsize words of those that lie in the slack are all passed over.
   */
  predicate SlackRefused(m: seq<byte>, e: nat, n: nat)
    requires e + SLACK + HEADER <= |m|
  {
    var w := Peek(m, e + 4);
    && Refused(w, n)
    && (LowBits(w) < 16 ==>
      var h1 := After(e, w);
      var w1 := Peek(m, h1 + 4);
      && Refused(w1, n)
      && (LowBits(w) as int + LowBits(w1) as int < 8 ==> Refused(Peek(m, After(h1, w1) + 4), n)))
  }

  lemma WalkStep(m: seq<byte>, h: nat, limit: nat, n: nat)
    requires limit + HEADER <= |m|
    ensures h >= limit ==> Walk(m, h, limit, n) == 0
    ensures h < limit ==>
      var w := Peek(m, h + 4);
      Walk(m, h, limit, n) == if Refused(w, n) then Walk(m, After(h, w), limit, n) else h
  {
  }

  lemma {:induction false} WalkSlack(m: seq<byte>, e: nat, n: nat)
    requires 0 < e && e + SLACK + HEADER <= |m|
    ensures Walk(m, e, e + SLACK, n) == 0 <==> SlackRefused(m, e, n)
  {
    hide Peek, Walk;
    var limit := e + SLACK;
    var w := Peek(m, e + 4);
    WalkStep(m, e, limit, n);
    if LowBits(w) < 16 {
      var h1 := After(e, w);
      var w1 := Peek(m, h1 + 4);
      WalkStep(m, h1, limit, n);
      if LowBits(w) as int + LowBits(w1) as int < 8 {
        var h2 := After(h1, w1);
        WalkStep(m, h2, limit, n);
        WalkStep(m, After(h2, Peek(m, h2 + 4)), limit, n);
      } else {
        WalkStep(m, After(h1, w1), limit, n);
      }
    } else {
      WalkStep(m, After(e, w), limit, n);
    }
  }

  /**
    With the bound of line 203, hb + size, Alloc finds what it should exactly when some chunk fits,
    or every flagsize word that the walk meets in the slack has bit 31 set or is less than n.
   */
  lemma WalkBoundIff(m: seq<byte>, b: Block, next: nat, n: nat)
    requires BlockAt(m, b, next) && Tiled(b.chunks, b.Start(), b.End()) && b.base + b.size + HEADER <= |m|
    ensures var f := FirstFit(b.chunks, n);
      Walk(m, b.Start(), b.base + b.size, n) == (if f < |b.chunks| then b.chunks[f].addr else 0)
      <==> f < |b.chunks| || SlackRefused(m, b.End(), n)
  {
    hide Peek, SlackRefused;
    ReadBlock(m, b, next);
    WalkArena(m, b, next, n, 0);
    WalkSlack(m, b.End(), n);
  }

  /** A slack word of 64 makes the walk hand out memory past the arena. */
  lemma WalkFails(m: seq<byte>, b: Block, next: nat)
    requires BlockAt(m, b, next) && Tiled(b.chunks, b.Start(), b.End()) && b.base + b.size + HEADER <= |m|
    requires FirstFit(b.chunks, 40) == |b.chunks| && Peek(m, b.End() + 4) == 64
    ensures Walk(m, b.Start(), b.base + b.size, 40) == b.End()
  {
    WalkArena(m, b, next, 40, 0);
  }

  /** 128 in the slack of HOLED: a request for 120 bytes, which nothing fits, is granted the slack. */
  lemma WalkFailsHoled(m: seq<byte>)
    requires HoledAt(m, 128) && 1208 <= |m|
    ensures FirstFit(HOLED.chunks, 120) == 2 && Walk(m, HOLED.Start(), HOLED.base + HOLED.size, 120) == HOLED.End()
  {
    hide Peek, BlockAt;
    HoledTiled();
    WalkArena(m, HOLED, 0, 120, 0);
  }
}
