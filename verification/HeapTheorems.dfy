// What holds of every heap reachable through AddBlock, Alloc and Free.
module HeapTheorems {
  import opened Machine
  import opened HeapModel

  ghost function LiveChunks(s: State): set<Chunk> {
    set i, c | 0 <= i < |s.blocks| && c in Live(s.blocks[i].chunks) :: c
  }

  /** Same blocks, in the same list order, whatever they contain. */
  ghost predicate SameFrames(s: State, t: State) {
    && |s.blocks| == |t.blocks|
    && forall i :: 0 <= i < |s.blocks| ==> s.blocks[i].base == t.blocks[i].base && s.blocks[i].size == t.blocks[i].size
  }

  // ---------------------------------------------------------------- invariant preservation

  lemma {:induction false} TotalsUpdate(bs: seq<Block>, i: nat, b: Block)
    requires i < |bs|
    ensures TotalUsed(bs[i := b]) == TotalUsed(bs) - bs[i].used + b.used
    ensures TotalSize(bs[i := b]) == TotalSize(bs) - bs[i].size + b.size
  {
    if i == 0 {
      assert bs[i := b][1..] == bs[1..];
    } else {
      assert bs[i := b][1..] == bs[1..][i - 1 := b];
      TotalsUpdate(bs[1..], i - 1, b);
    }
  }

  lemma UpdateInv(s: State, i: nat, b: Block, delta: int)
    requires Inv(s) && i < |s.blocks| && BlockOk(b)
    requires b.base == s.blocks[i].base && b.size == s.blocks[i].size
    requires b.used == s.blocks[i].used + delta
    ensures Inv(s.(blocks := s.blocks[i := b], memInUse := Wrap(s.memInUse as int + delta)))
  {
    TotalsUpdate(s.blocks, i, b);
  }

  lemma AddInv(s: State, base: nat, size: nat)
    requires Inv(s) && CanAdd(s, base, size)
    ensures Inv(AddStep(s, base, size))
  {
    hide BlockOk;
    assert AddStep(s, base, size).blocks[1..] == s.blocks;
    PristineOk(base, size);
  }

  lemma PristineOk(base: nat, size: nat)
    requires 0 < base && base + size < TWO32 && MIN_BLOCK <= size < MIN_BLOCK + TWO31
    ensures BlockOk(Pristine(base, size))
  {
    hide FreeBytes;
    FreeBytesOne(Pristine(base, size).chunks[0]);
  }

  /** A new block holds nothing live. */
  lemma AddLive(s: State, base: nat, size: nat)
    requires CanAdd(s, base, size)
    ensures LiveChunks(AddStep(s, base, size)) == LiveChunks(s)
  {
    hide Live;
    var t := AddStep(s, base, size);
    LiveOne(t.blocks[0].chunks[0]);
    forall c | c in LiveChunks(s) ensures c in LiveChunks(t) {
      var i :| 0 <= i < |s.blocks| && c in Live(s.blocks[i].chunks);
      assert c in Live(t.blocks[i + 1].chunks);
    }
    forall c | c in LiveChunks(t) ensures c in LiveChunks(s) {
      var i :| 0 <= i < |t.blocks| && c in Live(t.blocks[i].chunks);
      assert c in Live(s.blocks[i - 1].chunks);
    }
  }

  /** An allocation keeps the invariant exactly when it does not split off an empty chunk. */
  lemma AllocInv(s: State, n: nat)
    requires Inv(s)
    ensures Inv(AllocStep(s, n).0) <==> CanAlloc(s, n)
    ensures SameFrames(s, AllocStep(s, n).0)
  {
    hide BlockOk, Carve, Splice;
    var i := FirstBlock(s.blocks, n);
    if i < |s.blocks| {
      var b := s.blocks[i];
      var k := FirstFit(b.chunks, n);
      CarveOk(b, k, n);
      if CanAlloc(s, n) {
        UpdateInv(s, i, CarveBlock(b, k, n), Charge(b.chunks[k], n));
      } else {
        assert AllocStep(s, n).0.blocks[i] == CarveBlock(b, k, n);
      }
    }
  }

  /** The first request for 0 bytes from a fresh block of 200 splits off an empty chunk. */
  lemma AllocZeroFails()
    ensures LegalRun(EMPTY, [Add(1000, 200)])
    ensures !Inv(AllocStep(Run(EMPTY, [Add(1000, 200)]), 0).0)
  {
    var s := AddStep(EMPTY, 1000, 200);
    assert [Add(1000, 200)][1..] == [];
    assert LegalRun(s, []) && Run(EMPTY, [Add(1000, 200)]) == Run(s, []) == s;
    assert Inv(EMPTY);
    AddInv(EMPTY, 1000, 200);
    assert s.blocks[0] == Pristine(1000, 200);
    AllocInv(s, 0);
  }

  lemma FreeInv(s: State, p: nat)
    requires Inv(s) && LivePointer(s, p)
    ensures Inv(FreeStep(s, p)) && SameFrames(s, FreeStep(s, p))
  {
    var i := BlockOf(s.blocks, p);
    var b := s.blocks[i];
    var k := ChunkOf(b.chunks, p);
    FreeOk(b, k);
    UpdateInv(s, i, FreeBlock(b, k), 0 - Refund(b.chunks, k) as int);
  }

  // ---------------------------------------------------------------- live allocations

  /** A live chunk lies inside its block's arena. */
  lemma LiveInside(b: Block, c: Chunk)
    requires Tiled(b.chunks, b.Start(), b.End()) && c in b.chunks
    ensures b.Start() <= c.addr && c.Next() <= b.End()
  {
    var k :| 0 <= k < |b.chunks| && b.chunks[k] == c;
    TiledInside(b.chunks, b.Start(), b.End(), k);
  }

  /** Live allocations never overlap, within a block or across blocks. */
  lemma LiveDisjoint(s: State, c: Chunk, d: Chunk)
    requires Inv(s) && c in LiveChunks(s) && d in LiveChunks(s) && c != d
    ensures c.Next() <= d.addr || d.Next() <= c.addr
  {
    var i :| 0 <= i < |s.blocks| && c in Live(s.blocks[i].chunks);
    var j :| 0 <= j < |s.blocks| && d in Live(s.blocks[j].chunks);
    LiveInside(s.blocks[i], c);
    LiveInside(s.blocks[j], d);
    if i == j {
      var b := s.blocks[i];
      var k :| 0 <= k < |b.chunks| && b.chunks[k] == c;
      var l :| 0 <= l < |b.chunks| && b.chunks[l] == d;
      if k < l { TiledBelow(b.chunks, b.Start(), b.End(), k, l); }
      if l < k { TiledBelow(b.chunks, b.Start(), b.End(), l, k); }
    }
  }

  /** The live pointers are exactly the payload addresses of live chunks. */
  lemma LivePointerIff(s: State, p: nat)
    requires Inv(s)
    ensures LivePointer(s, p) <==> exists c :: c in LiveChunks(s) && c.Payload() == p
  {
    if LivePointer(s, p) {
      var i := BlockOf(s.blocks, p);
      var k := ChunkOf(s.blocks[i].chunks, p);
      assert s.blocks[i].chunks[k] in Live(s.blocks[i].chunks);
      assert s.blocks[i].chunks[k] in LiveChunks(s);
    }
    if c :| c in LiveChunks(s) && c.Payload() == p {
      var i :| 0 <= i < |s.blocks| && c in Live(s.blocks[i].chunks);
      FoundAt(s, i, c);
    }
  }

  /** Free's search by address finds the block that owns the chunk, and the chunk. */
  lemma FoundAt(s: State, i: nat, c: Chunk)
    requires Inv(s) && i < |s.blocks| && c in Live(s.blocks[i].chunks)
    ensures BlockOf(s.blocks, c.Payload()) == i && LivePointer(s, c.Payload())
    ensures s.blocks[i].chunks[ChunkOf(s.blocks[i].chunks, c.Payload())] == c
  {
    var b, p := s.blocks[i], c.Payload();
    LiveInside(b, c);
    var h := BlockOf(s.blocks, p);
    assert h <= i;
    var k := ChunkOf(b.chunks, p);
    var l :| 0 <= l < |b.chunks| && b.chunks[l] == c;
    TiledDistinct(b.chunks, b.Start(), b.End());
  }

  /** Replacing block i's live set changes the heap's live set by the same amount. */
  lemma LiveUpdate(s: State, t: State, i: nat, gone: set<Chunk>, come: set<Chunk>)
    requires Inv(s) && Inv(t) && SameFrames(s, t) && i < |s.blocks|
    requires t.blocks == s.blocks[i := t.blocks[i]]
    requires gone <= Live(s.blocks[i].chunks)
    requires Live(t.blocks[i].chunks) == Live(s.blocks[i].chunks) - gone + come
    ensures LiveChunks(t) == LiveChunks(s) - gone + come
  {
    forall c | c in LiveChunks(s) - gone + come ensures c in LiveChunks(t) {
      if c in come {
        assert c in Live(t.blocks[i].chunks);
      } else {
        var j :| 0 <= j < |s.blocks| && c in Live(s.blocks[j].chunks);
        assert c in Live(t.blocks[j].chunks);
      }
    }
    forall c | c in LiveChunks(t) ensures c in LiveChunks(s) - gone + come {
      var j :| 0 <= j < |t.blocks| && c in Live(t.blocks[j].chunks);
      if j != i {
        assert c in Live(s.blocks[j].chunks);
        if c in gone { FoundAt(s, i, c); FoundAt(s, j, c); }
      }
    }
  }

  /** The chunk that Alloc hands out. */
  function Granted(s: State, n: nat): Chunk
    requires FirstBlock(s.blocks, n) < |s.blocks|
  {
    var b := s.blocks[FirstBlock(s.blocks, n)];
    Carve(b.chunks[FirstFit(b.chunks, n)], n)[0]
  }

  /** Alloc answers 0 exactly when no free chunk anywhere is large enough. */
  lemma AllocComplete(s: State, n: nat)
    requires Inv(s)
    ensures AllocStep(s, n).1 == 0 <==>
      forall i, k :: 0 <= i < |s.blocks| && 0 <= k < |s.blocks[i].chunks| ==> !Fits(s.blocks[i].chunks[k], n)
    ensures AllocStep(s, n).1 == 0 ==> AllocStep(s, n).0 == s
  {
    var i := FirstBlock(s.blocks, n);
    if i < |s.blocks| {
      assert Fits(s.blocks[i].chunks[FirstFit(s.blocks[i].chunks, n)], n);
    }
  }

  /** Whatever Alloc grants starts where a free chunk started, so it was not live. */
  lemma GrantedFresh(s: State, n: nat)
    requires Inv(s) && FirstBlock(s.blocks, n) < |s.blocks|
    ensures Granted(s, n) !in LiveChunks(s)
  {
    var c, i := Granted(s, n), FirstBlock(s.blocks, n);
    var b := s.blocks[i];
    var k := FirstFit(b.chunks, n);
    if c in LiveChunks(s) {
      var j :| 0 <= j < |s.blocks| && c in Live(s.blocks[j].chunks);
      LiveInside(s.blocks[j], c);
      LiveInside(b, b.chunks[k]);
      TiledDistinct(b.chunks, b.Start(), b.End());
    }
  }

  /** Inside its block, carving adds exactly the granted chunk to the live ones. */
  lemma CarveLive(b: Block, k: nat, n: nat)
    requires BlockOk(b) && k < |b.chunks| && Fits(b.chunks[k], n)
    ensures Live(CarveBlock(b, k, n).chunks) == Live(b.chunks) + {Carve(b.chunks[k], n)[0]}
  {
    var mid := Carve(b.chunks[k], n);
    SpliceLive(b.chunks, k, k + 1, mid);
    LiveSplit(b.chunks, b.Start(), b.End(), k);
    assert Live(mid) == {mid[0]};
    assert Live([b.chunks[k]]) == {};
  }

  /** A successful Alloc adds one live chunk, of at least n and at most n+24 bytes, that was not live. */
  lemma AllocLive(s: State, n: nat)
    requires Inv(s) && CanAlloc(s, n) && AllocStep(s, n).1 != 0
    ensures var c := Granted(s, n); var t := AllocStep(s, n).0;
      && AllocStep(s, n).1 == c.Payload() && n <= c.size <= n + HEADER + 16
      && c !in LiveChunks(s)
      && LiveChunks(t) == LiveChunks(s) + {c}
  {
    var t, i := AllocStep(s, n).0, FirstBlock(s.blocks, n);
    AllocInv(s, n);
    CarveLive(s.blocks[i], FirstFit(s.blocks[i].chunks, n), n);
    LiveUpdate(s, t, i, {}, {Granted(s, n)});
    GrantedFresh(s, n);
  }

  /** Chunks of one heap that start at the same address are the same chunk. */
  lemma SamePlace(s: State, i: nat, k: nat, j: nat, l: nat)
    requires Inv(s) && i < |s.blocks| && k < |s.blocks[i].chunks| && j < |s.blocks| && l < |s.blocks[j].chunks|
    requires s.blocks[i].chunks[k].addr == s.blocks[j].chunks[l].addr
    ensures i == j && k == l
  {
    hide FreeBytes, Proper, NoAdjacentFree;
    var b, c := s.blocks[i], s.blocks[j];
    TiledInside(b.chunks, b.Start(), b.End(), k);
    TiledInside(c.chunks, c.Start(), c.End(), l);
    if i == j { TiledDistinct(b.chunks, b.Start(), b.End()); }
  }

  /**
    What a successful Alloc does, word for word. The chunk c at the pointer it returns was free and
    large enough, and no chunk before it was. If c has more than n + 24 bytes it is split: n bytes live,
    then a header, then the rest free; otherwise it is taken whole. Nothing else changes.
   */
  lemma {:induction false} AllocTakes(s: State, n: nat, i: nat, k: nat)
    requires Inv(s) && i < |s.blocks| && k < |s.blocks[i].chunks| && !s.blocks[i].chunks[k].used
    requires AllocStep(s, n).1 == s.blocks[i].chunks[k].addr + 8
    ensures n <= s.blocks[i].chunks[k].size
    ensures forall j, l :: 0 <= j <= i && 0 <= l < |s.blocks[j].chunks| && (j < i || l < k) ==>
      s.blocks[j].chunks[l].used || s.blocks[j].chunks[l].size < n
    ensures var b, c := s.blocks[i], s.blocks[i].chunks[k];
      var split := c.size > n + 24;
      var parts := if split then [Chunk(c.addr, n, true), Chunk(c.addr + 8 + n, c.size - n - 8, false)]
        else [Chunk(c.addr, c.size, true)];
      var cost := if split then n + 8 else c.size;
      AllocStep(s, n).0 ==
        State(s.blocks[i := Block(b.base, b.size, b.used + cost, b.chunks[..k] + parts + b.chunks[k + 1..])],
          s.bcnt, Wrap(s.memInUse as int + cost), s.size)
  {
    hide Inv;
    var x := FirstBlock(s.blocks, n);
    assert x < |s.blocks|;
    var y := FirstFit(s.blocks[x].chunks, n);
    SamePlace(s, i, k, x, y);
    forall j, l | 0 <= j <= i && 0 <= l < |s.blocks[j].chunks| && (j < i || l < k)
      ensures s.blocks[j].chunks[l].used || s.blocks[j].chunks[l].size < n
    {
      assert !Fits(s.blocks[j].chunks[l], n);
    }
  }

  /** What AddBlock does, word for word: a block of one free chunk, first in the list. */
  lemma AddTakes(s: State, base: nat, size: nat)
    requires CanAdd(s, base, size)
    ensures AddStep(s, base, size) ==
      State([Block(base, size, 0, [Chunk(base + 20, size - 52, false)])] + s.blocks,
        Wrap(s.bcnt as int + 1), s.memInUse, Wrap(s.size as int + size))
  {
  }

  /** Free takes away exactly the chunk it was given. */
  lemma FreeLive(s: State, c: Chunk)
    requires Inv(s) && c in LiveChunks(s)
    ensures LivePointer(s, c.Payload())
    ensures Inv(FreeStep(s, c.Payload())) && SameFrames(s, FreeStep(s, c.Payload()))
    ensures LiveChunks(FreeStep(s, c.Payload())) == LiveChunks(s) - {c}
  {
    hide Tiled, FreeBytes, Proper, NoAdjacentFree, Coalesce, Refund;
    var i :| 0 <= i < |s.blocks| && c in Live(s.blocks[i].chunks);
    FoundAt(s, i, c);
    FreeInv(s, c.Payload());
    var b := s.blocks[i];
    CoalesceOk(b.chunks, b.Start(), b.End(), ChunkOf(b.chunks, c.Payload()));
    LiveUpdate(s, FreeStep(s, c.Payload()), i, {c}, {});
  }

  // ---------------------------------------------------------------- canonical form

  /** If `cs` starts with a live chunk, so does every tiling with the same live chunks. */
  lemma SameFirstLive(cs: seq<Chunk>, ds: seq<Chunk>, start: int, end: int)
    requires Tiled(cs, start, end) && Tiled(ds, start, end) && Live(cs) == Live(ds) && cs[0].used
    ensures ds[0] == cs[0]
  {
    assert cs[0] in Live(ds);
    var k :| 0 <= k < |ds| && ds[k] == cs[0];
    TiledBelow(ds, start, end, 0, k);
  }

  /** A leading free chunk ends no earlier in `cs` than in `ds`: the next live chunk bounds both. */
  lemma FreeFirstBound(cs: seq<Chunk>, ds: seq<Chunk>, start: int, end: int)
    requires Tiled(cs, start, end) && Tiled(ds, start, end) && Live(cs) == Live(ds)
    requires !cs[0].used && !ds[0].used && NoAdjacentFree(ds)
    ensures cs[0].Next() <= ds[0].Next()
  {
    assert ds[0].Next() == AddrOf(ds, 1, end);
    if |ds| == 1 {
      TiledInside(cs, start, end, 0);
    } else {
      assert ds[1] in Live(cs);
      var k :| 0 <= k < |cs| && cs[k] == ds[1];
      TiledBelow(cs, start, end, 0, k);
    }
  }

  /** A tiling without free neighbours is determined by its live chunks. */
  lemma {:induction false} Canonical(cs: seq<Chunk>, ds: seq<Chunk>, start: int, end: int)
    requires Tiled(cs, start, end) && Tiled(ds, start, end)
    requires NoAdjacentFree(cs) && NoAdjacentFree(ds)
    requires Live(cs) == Live(ds)
    ensures cs == ds
  {
    if cs[0].used {
      SameFirstLive(cs, ds, start, end);
    } else if ds[0].used {
      SameFirstLive(ds, cs, start, end);
    } else {
      FreeFirstBound(cs, ds, start, end);
      FreeFirstBound(ds, cs, start, end);
    }
    assert cs[0] == ds[0];
    assert cs[0].Next() == AddrOf(cs, 1, end) && ds[0].Next() == AddrOf(ds, 1, end);
    if |cs| > 1 { TiledTail(cs, start, end); LiveTail(cs); TiledInside(cs, start, end, 1); }
    if |ds| > 1 { TiledTail(ds, start, end); LiveTail(ds); TiledInside(ds, start, end, 1); }
    if |cs| > 1 && |ds| > 1 {
      Canonical(cs[1..], ds[1..], cs[0].Next(), end);
      assert cs == [cs[0]] + cs[1..] && ds == [ds[0]] + ds[1..];
    }
  }

  lemma LiveTail(cs: seq<Chunk>)
    requires |cs| > 1 && cs[0] !in cs[1..]
    ensures Live(cs[1..]) == Live(cs) - {cs[0]}
  {
    assert cs == [cs[0]] + cs[1..];
  }

  /** The whole heap state is a function of its blocks and its live chunks. */
  lemma HistoryIndependence(s: State, t: State)
    requires Inv(s) && Inv(t) && SameFrames(s, t) && LiveChunks(s) == LiveChunks(t)
    ensures s == t
  {
    forall i | 0 <= i < |s.blocks| ensures s.blocks[i] == t.blocks[i] {
      var b, c := s.blocks[i], t.blocks[i];
      LiveOfBlock(s, t, i);
      LiveOfBlock(t, s, i);
      Canonical(b.chunks, c.chunks, b.Start(), b.End());
    }
    assert s.blocks == t.blocks;
  }

  lemma LiveOfBlock(s: State, t: State, i: nat)
    requires Inv(s) && Inv(t) && SameFrames(s, t) && LiveChunks(s) <= LiveChunks(t) && i < |s.blocks|
    ensures Live(s.blocks[i].chunks) <= Live(t.blocks[i].chunks)
  {
    forall c | c in Live(s.blocks[i].chunks) ensures c in Live(t.blocks[i].chunks) {
      assert c in LiveChunks(s);
      var j :| 0 <= j < |t.blocks| && c in Live(t.blocks[j].chunks);
      LiveInside(s.blocks[i], c);
      LiveInside(t.blocks[j], c);
    }
  }

  /** Freeing what was just allocated restores the heap exactly, headers and counters included. */
  lemma FreeUndoesAlloc(s: State, n: nat)
    requires Inv(s) && CanAlloc(s, n) && AllocStep(s, n).1 != 0
    ensures var (t, p) := AllocStep(s, n); LivePointer(t, p) && FreeStep(t, p) == s
  {
    var (t, p) := AllocStep(s, n);
    AllocInv(s, n);
    AllocLive(s, n);
    FreeLive(t, Granted(s, n));
    FreeInv(t, p);
    assert LiveChunks(FreeStep(t, p)) == LiveChunks(s);
    HistoryIndependence(FreeStep(t, p), s);
  }

  // ---------------------------------------------------------------- the quick reject

  /** A block skipped because `size - used` is under `n + 8` holds no chunk for `n`. */
  lemma QuickReject(b: Block, n: nat)
    requires BlockOk(b) && n < TWO32 && b.size - b.used < Wrap(n + HEADER) as int
    ensures FirstFit(b.chunks, n) == |b.chunks|
  {
    var k := FirstFit(b.chunks, n);
    if k < |b.chunks| { FreeChunkBound(b.chunks, k); }
  }

  // ---------------------------------------------------------------- runs

  datatype Op = Add(base: nat, size: nat) | Alloc(n: nat) | Free(p: nat)

  /** What a caller must respect. */
  ghost predicate Legal(s: State, op: Op) {
    match op
    case Add(base, size) => CanAdd(s, base, size)
    case Alloc(n) => CanAlloc(s, n)
    case Free(p) => LivePointer(s, p)
  }

  ghost function Step(s: State, op: Op): State
    requires Legal(s, op)
  {
    match op
    case Add(base, size) => AddStep(s, base, size)
    case Alloc(n) => AllocStep(s, n).0
    case Free(p) => FreeStep(s, p)
  }

  ghost predicate LegalRun(s: State, ops: seq<Op>)
    decreases |ops|
  {
    ops == [] || (Legal(s, ops[0]) && LegalRun(Step(s, ops[0]), ops[1..]))
  }

  ghost function Run(s: State, ops: seq<Op>): State
    requires LegalRun(s, ops)
    decreases |ops|
  {
    if ops == [] then s else Run(Step(s, ops[0]), ops[1..])
  }

  lemma {:induction false} RunInv(s: State, ops: seq<Op>)
    requires Inv(s) && LegalRun(s, ops)
    ensures Inv(Run(s, ops))
    decreases |ops|
  {
    if ops != [] {
      match ops[0] {
        case Add(base, size) => AddInv(s, base, size);
        case Alloc(n) => AllocInv(s, n);
        case Free(p) => FreeInv(s, p);
      }
      RunInv(Step(s, ops[0]), ops[1..]);
    }
  }

  /** One free chunk of `size - 52` bytes, nothing used. */
  ghost predicate IsPristine(b: Block) {
    MIN_BLOCK <= b.size && b == Pristine(b.base, b.size)
  }

  ghost predicate AllPristine(s: State) {
    forall i :: 0 <= i < |s.blocks| ==> IsPristine(s.blocks[i])
  }

  /** A heap with nothing live is a heap of untouched blocks. */
  lemma NothingLive(s: State)
    requires Inv(s) && LiveChunks(s) == {}
    ensures AllPristine(s) && s.memInUse == 0
  {
    forall i | 0 <= i < |s.blocks| ensures IsPristine(s.blocks[i]) {
      var b := s.blocks[i];
      var c := Pristine(b.base, b.size);
      assert forall x :: x in Live(b.chunks) ==> x in LiveChunks(s);
      assert Live(b.chunks) == {} == Live(c.chunks);
      assert FreeBytes(c.chunks) == c.chunks[0].size;
      Canonical(b.chunks, c.chunks, b.Start(), b.End());
    }
    NoneUsed(s.blocks);
  }

  lemma {:induction false} NoneUsed(bs: seq<Block>)
    requires forall i :: 0 <= i < |bs| ==> bs[i].used == 0
    ensures TotalUsed(bs) == 0
  {
    if bs != [] { NoneUsed(bs[1..]); }
  }

  ghost function Frees(cs: seq<Chunk>): seq<Op> {
    if cs == [] then [] else [Free(cs[0].Payload())] + Frees(cs[1..])
  }

  /** Freeing all live chunks, in any order. */
  lemma {:induction false} FreeAll(s: State, cs: seq<Chunk>)
    requires Inv(s)
    requires forall c :: c in cs <==> c in LiveChunks(s)
    requires forall i, j :: 0 <= i < j < |cs| ==> cs[i] != cs[j]
    ensures LegalRun(s, Frees(cs))
    ensures var t := Run(s, Frees(cs)); Inv(t) && SameFrames(s, t) && LiveChunks(t) == {}
    decreases |cs|
  {
    hide Inv, LiveChunks, FreeStep, LivePointer;
    if cs != [] {
      FreeLive(s, cs[0]);
      var t := FreeStep(s, cs[0].Payload());
      assert cs == [cs[0]] + cs[1..];
      assert forall c :: c in cs[1..] <==> c in LiveChunks(t);
      FreeAll(t, cs[1..]);
      assert Frees(cs)[1..] == Frees(cs[1..]);
    }
  }

  /**
    Full recovery: after any history, freeing the live allocations in any order gives every
    block back as the single free chunk it started as, with nothing in use.
   */
  lemma {:induction false} FullRecovery(history: seq<Op>, cs: seq<Chunk>)
    requires LegalRun(EMPTY, history)
    requires forall c :: c in cs <==> c in LiveChunks(Run(EMPTY, history))
    requires forall i, j :: 0 <= i < j < |cs| ==> cs[i] != cs[j]
    ensures var s := Run(EMPTY, history);
      && LegalRun(s, Frees(cs))
      && var t := Run(s, Frees(cs));
      && SameFrames(s, t) && AllPristine(t) && t.memInUse == 0
  {
    RunInv(EMPTY, history);
    var s := Run(EMPTY, history);
    FreeAll(s, cs);
    NothingLive(Run(s, Frees(cs)));
  }
}
