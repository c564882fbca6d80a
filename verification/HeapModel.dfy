// Abstract states of the boundary-tag heap of mem/heap.h, its three operations as
// functions on them, and what every operation keeps.
module HeapModel {
  import opened Machine

  const HEADER: nat := 8     // sizeof(KHEAPHDRLCAB)
  const RECORD: nat := 20    // sizeof(KHEAPBLOCKLCAB)
  const SLACK: nat := 24     // bytes of a block after its last chunk (mem/heap.h:46)
  const MIN_BLOCK: nat := 52 // RECORD + 32

  /** A header at `addr`, followed by `size` payload bytes. */
  datatype Chunk = Chunk(addr: nat, size: nat, used: bool) {
    function Payload(): nat { addr + HEADER }
    function Next(): nat { addr + HEADER + size }
  }

  datatype Block = Block(base: nat, size: nat, used: int, chunks: seq<Chunk>) {
    function Start(): nat { base + RECORD }
    function End(): int { base + size - SLACK }
  }

  /** Blocks in list order: the one added last comes first. */
  datatype State = State(blocks: seq<Block>, bcnt: word, memInUse: word, size: word)

  const EMPTY: State := State([], 0, 0, 0)

  // ---------------------------------------------------------------- chunk lists

  /** The headers and payloads of `cs` cover [start, end) without gap or overlap. */
  ghost predicate Tiled(cs: seq<Chunk>, start: int, end: int) {
    && |cs| > 0
    && cs[0].addr == start
    && forall k {:trigger cs[k].Next()} :: 0 <= k < |cs| ==> cs[k].Next() == AddrOf(cs, k + 1, end)
  }

  function AddrOf(cs: seq<Chunk>, k: nat, end: int): int {
    if k < |cs| then cs[k].addr else end
  }

  ghost predicate NoAdjacentFree(cs: seq<Chunk>) {
    forall k :: 0 <= k < |cs| - 1 ==> cs[k].used || cs[k + 1].used
  }

  /** A zero `prevsize` means "no predecessor", so no chunk with a successor may be empty. */
  ghost predicate Proper(cs: seq<Chunk>) {
    forall k :: 0 <= k < |cs| && |cs| > 1 ==> cs[k].size > 0
  }

  function FreeBytes(cs: seq<Chunk>): nat {
    if cs == [] then 0 else (if cs[0].used then 0 else cs[0].size) + FreeBytes(cs[1..])
  }

  ghost function Live(cs: seq<Chunk>): set<Chunk> {
    set c | c in cs && c.used
  }

  /** `cs` with its chunks i..j replaced by `mid`. */
  function Splice(cs: seq<Chunk>, i: nat, j: nat, mid: seq<Chunk>): seq<Chunk>
    requires i <= j <= |cs|
  {
    cs[..i] + mid + cs[j..]
  }

  /** Every chunk lies inside the arena. */
  lemma {:induction false} TiledInside(cs: seq<Chunk>, start: int, end: int, k: nat)
    requires Tiled(cs, start, end) && k < |cs|
    ensures start <= cs[k].addr && cs[k].Next() <= end
  {
    TiledBelow(cs, start, end, 0, k);
    TiledBelow(cs, start, end, k, |cs| - 1);
  }

  /** Address order is list order. */
  lemma {:induction false} TiledBelow(cs: seq<Chunk>, start: int, end: int, j: nat, k: nat)
    requires Tiled(cs, start, end) && j <= k < |cs|
    ensures cs[j].addr <= cs[k].addr && cs[j].Next() <= cs[k].Next()
    ensures j < k ==> cs[j].Next() <= cs[k].addr
    decreases k
  {
    if j < k { TiledBelow(cs, start, end, j, k - 1); assert cs[k - 1].Next() == cs[k].addr; }
  }

  lemma TiledTail(cs: seq<Chunk>, start: int, end: int)
    requires Tiled(cs, start, end) && |cs| > 1
    ensures Tiled(cs[1..], cs[0].Next(), end) && cs[0] !in cs[1..]
  {
    assert cs[0].Next() == AddrOf(cs, 1, end);
    var ds := cs[1..];
    forall k | 0 <= k < |ds| ensures ds[k].Next() == AddrOf(ds, k + 1, end) && ds[k] != cs[0] {
      assert ds[k] == cs[k + 1] && cs[k + 1].Next() == AddrOf(cs, k + 2, end);
      TiledBelow(cs, start, end, 0, k + 1);
    }
  }

  lemma TiledDistinct(cs: seq<Chunk>, start: int, end: int)
    requires Tiled(cs, start, end)
    ensures forall j, k :: 0 <= j < |cs| && 0 <= k < |cs| && cs[j].addr == cs[k].addr ==> j == k
  {
    forall j, k | 0 <= j < k < |cs| ensures cs[j].addr != cs[k].addr {
      TiledBelow(cs, start, end, j, k);
    }
  }

  /** Replacing a stretch of a tiling by a tiling of the same bytes is a tiling. */
  lemma SpliceTiled(cs: seq<Chunk>, start: int, end: int, i: nat, j: nat, mid: seq<Chunk>)
    requires Tiled(cs, start, end) && i < j <= |cs|
    requires Tiled(mid, cs[i].addr, AddrOf(cs, j, end))
    ensures Tiled(Splice(cs, i, j, mid), start, end)
  {
    var ds := Splice(cs, i, j, mid);
    forall k | 0 <= k < |ds| ensures ds[k].Next() == AddrOf(ds, k + 1, end) {
      if k < i {
        assert ds[k] == cs[k];
      } else if k < i + |mid| {
        assert ds[k] == mid[k - i];
      } else {
        assert ds[k] == cs[k - i - |mid| + j];
      }
    }
  }

  lemma {:induction false} FreeBytesConcat(a: seq<Chunk>, b: seq<Chunk>)
    ensures FreeBytes(a + b) == FreeBytes(a) + FreeBytes(b)
  {
    if a == [] {
      assert a + b == b;
    } else {
      assert (a + b)[1..] == a[1..] + b;
      FreeBytesConcat(a[1..], b);
    }
  }

  lemma SpliceFreeBytes(cs: seq<Chunk>, i: nat, j: nat, mid: seq<Chunk>)
    requires i <= j <= |cs|
    ensures FreeBytes(Splice(cs, i, j, mid)) == FreeBytes(cs) - FreeBytes(cs[i..j]) + FreeBytes(mid)
  {
    hide FreeBytes;
    FreeBytesConcat(cs[..i], mid);
    FreeBytesConcat(cs[..i] + mid, cs[j..]);
    FreeBytesConcat(cs[..i], cs[i..]);
    FreeBytesConcat(cs[i..j], cs[j..]);
    assert cs[i..] == cs[i..j] + cs[j..];
    assert cs == cs[..i] + cs[i..];
  }

  lemma {:induction false} FreeChunkBound(cs: seq<Chunk>, k: nat)
    requires k < |cs| && !cs[k].used
    ensures cs[k].size <= FreeBytes(cs)
  {
    if k > 0 { FreeChunkBound(cs[1..], k - 1); }
  }

  lemma SpliceLive(cs: seq<Chunk>, i: nat, j: nat, mid: seq<Chunk>)
    requires i <= j <= |cs|
    ensures Live(Splice(cs, i, j, mid)) == Live(cs[..i]) + Live(mid) + Live(cs[j..])
  {
  }

  // ---------------------------------------------------------------- allocation

  predicate Fits(c: Chunk, n: nat) { !c.used && n <= c.size }

  /** Index of the first chunk that can hold `n` bytes, or |cs|. */
  function FirstFit(cs: seq<Chunk>, n: nat): (k: nat)
    ensures k <= |cs|
    ensures forall j :: 0 <= j < k ==> !Fits(cs[j], n)
    ensures k < |cs| ==> Fits(cs[k], n)
  {
    if cs == [] || Fits(cs[0], n) then 0 else FirstFit(cs[1..], n) + 1
  }

  /** Index of the first block with a chunk that can hold `n` bytes, or |bs|. */
  function FirstBlock(bs: seq<Block>, n: nat): (i: nat)
    ensures i <= |bs|
    ensures forall j :: 0 <= j < i ==> FirstFit(bs[j].chunks, n) == |bs[j].chunks|
    ensures i < |bs| ==> FirstFit(bs[i].chunks, n) < |bs[i].chunks|
  {
    if bs == [] || FirstFit(bs[0].chunks, n) < |bs[0].chunks| then 0 else FirstBlock(bs[1..], n) + 1
  }

  predicate Splits(c: Chunk, n: nat) { c.size > n + HEADER + 16 }

  /** What remains of a free chunk when `n` bytes are taken from its front. */
  function Carve(c: Chunk, n: nat): seq<Chunk>
    requires Fits(c, n)
  {
    if Splits(c, n)
    then [Chunk(c.addr, n, true), Chunk(c.Payload() + n, c.size - n - HEADER, false)]
    else [c.(used := true)]
  }

  /** Bytes added to `used` by carving `n` out of `c`. */
  function Charge(c: Chunk, n: nat): nat {
    if Splits(c, n) then n + HEADER else c.size
  }

  function CarveBlock(b: Block, k: nat, n: nat): Block
    requires k < |b.chunks| && Fits(b.chunks[k], n)
  {
    b.(chunks := Splice(b.chunks, k, k + 1, Carve(b.chunks[k], n)), used := b.used + Charge(b.chunks[k], n))
  }

  /** The state after k_heapLCABAlloc and the pointer it returns (0 when nothing fits). */
  function AllocStep(s: State, n: nat): (State, nat) {
    var i := FirstBlock(s.blocks, n);
    if i == |s.blocks| then (s, 0) else
      var b := s.blocks[i];
      var k := FirstFit(b.chunks, n);
      (s.(blocks := s.blocks[i := CarveBlock(b, k, n)],
          memInUse := Wrap(s.memInUse as int + Charge(b.chunks[k], n))),
       b.chunks[k].Payload())
  }

  /** A request for 0 bytes is harmless only if it fails or gets a chunk whole. */
  predicate CanAlloc(s: State, n: nat) {
    var i := FirstBlock(s.blocks, n);
    n > 0 || i == |s.blocks| || !Splits(s.blocks[i].chunks[FirstFit(s.blocks[i].chunks, n)], n)
  }

  // ---------------------------------------------------------------- release

  function Release(cs: seq<Chunk>, k: nat): seq<Chunk>
    requires k < |cs|
  {
    Splice(cs, k, k + 1, [cs[k].(used := false)])
  }

  function Merged(c: Chunk, d: Chunk): Chunk { Chunk(c.addr, c.size + HEADER + d.size, false) }

  /** Chunk k absorbs chunk k+1. */
  function MergeAt(cs: seq<Chunk>, k: nat): seq<Chunk>
    requires k + 1 < |cs|
  {
    Splice(cs, k, k + 2, [Merged(cs[k], cs[k + 1])])
  }

  function MergeNext(cs: seq<Chunk>, k: nat): seq<Chunk>
    requires k < |cs|
  {
    if k + 1 < |cs| && !cs[k + 1].used then MergeAt(cs, k) else cs
  }

  function MergePrev(cs: seq<Chunk>, k: nat): seq<Chunk>
    requires k < |cs|
  {
    if k > 0 && !cs[k - 1].used then MergeAt(cs, k - 1) else cs
  }

  /** Free chunk k and join it with its free neighbours, one step each way. */
  function Coalesce(cs: seq<Chunk>, k: nat): seq<Chunk>
    requires k < |cs|
  {
    MergePrev(MergeNext(Release(cs, k), k), k)
  }

  /** Bytes taken off `used` by freeing chunk k: its payload, and a header per merge. */
  function Refund(cs: seq<Chunk>, k: nat): nat
    requires k < |cs|
  {
    cs[k].size + HEADER * (|cs| - |Coalesce(cs, k)|)
  }

  function FreeBlock(b: Block, k: nat): Block
    requires k < |b.chunks|
  {
    b.(chunks := Coalesce(b.chunks, k), used := b.used - Refund(b.chunks, k))
  }

  /** The first block, in list order, whose bytes contain pointer `p`, or |bs|. */
  function BlockOf(bs: seq<Block>, p: nat): (i: nat)
    ensures i <= |bs|
    ensures forall j :: 0 <= j < i ==> !(bs[j].base < p < bs[j].base + bs[j].size)
    ensures i < |bs| ==> bs[i].base < p < bs[i].base + bs[i].size
  {
    if bs == [] || bs[0].base < p < bs[0].base + bs[0].size then 0 else BlockOf(bs[1..], p) + 1
  }

  /** The live chunk whose payload starts at `p`, or |cs|. */
  function ChunkOf(cs: seq<Chunk>, p: nat): (k: nat)
    ensures k <= |cs|
    ensures forall j :: 0 <= j < k ==> !(cs[j].used && cs[j].Payload() == p)
    ensures k < |cs| ==> cs[k].used && cs[k].Payload() == p
  {
    if cs == [] || (cs[0].used && cs[0].Payload() == p) then 0 else ChunkOf(cs[1..], p) + 1
  }

  /** `p` is the address of an allocation that has not been freed. */
  predicate LivePointer(s: State, p: nat) {
    var i := BlockOf(s.blocks, p);
    i < |s.blocks| && ChunkOf(s.blocks[i].chunks, p) < |s.blocks[i].chunks|
  }

  /** The state after k_heapLCABFree. */
  function FreeStep(s: State, p: nat): State
    requires LivePointer(s, p)
  {
    var i := BlockOf(s.blocks, p);
    var b := s.blocks[i];
    var k := ChunkOf(b.chunks, p);
    s.(blocks := s.blocks[i := FreeBlock(b, k)], memInUse := Wrap(s.memInUse as int - Refund(b.chunks, k)))
  }

  // ---------------------------------------------------------------- adding blocks

  function Pristine(base: nat, size: nat): Block
    requires MIN_BLOCK <= size
  {
    Block(base, size, 0, [Chunk(base + RECORD, size - MIN_BLOCK, false)])
  }

  /** Two blocks share no byte. */
  predicate Apart(b: Block, c: Block) {
    b.base + b.size <= c.base || c.base + c.size <= b.base
  }

  predicate CanAdd(s: State, base: nat, size: nat) {
    && 0 < base && base + size < TWO32
    && MIN_BLOCK <= size < MIN_BLOCK + TWO31
    && forall i :: 0 <= i < |s.blocks| ==> Apart(s.blocks[i], Pristine(base, size))
  }

  function AddStep(s: State, base: nat, size: nat): State
    requires CanAdd(s, base, size)
  {
    State([Pristine(base, size)] + s.blocks, Wrap(s.bcnt as int + 1), s.memInUse, Wrap(s.size as int + size))
  }

  // ---------------------------------------------------------------- the invariant

  ghost predicate BlockOk(b: Block) {
    && 0 < b.base && b.base + b.size < TWO32
    && MIN_BLOCK <= b.size < MIN_BLOCK + TWO31
    && Tiled(b.chunks, b.Start(), b.End())
    && Proper(b.chunks)
    && NoAdjacentFree(b.chunks)
    && b.size - b.used == FreeBytes(b.chunks) + MIN_BLOCK
  }

  function TotalUsed(bs: seq<Block>): int {
    if bs == [] then 0 else bs[0].used + TotalUsed(bs[1..])
  }

  function TotalSize(bs: seq<Block>): int {
    if bs == [] then 0 else bs[0].size + TotalSize(bs[1..])
  }

  ghost predicate Inv(s: State) {
    && (forall i :: 0 <= i < |s.blocks| ==> BlockOk(s.blocks[i]))
    && (forall i, j :: 0 <= i < j < |s.blocks| ==> Apart(s.blocks[i], s.blocks[j]))
    && s.bcnt == Wrap(|s.blocks|)
    && s.memInUse == Wrap(TotalUsed(s.blocks))
    && s.size == Wrap(TotalSize(s.blocks))
  }

  // ---------------------------------------------------------------- preservation

  /** Free payload plus one header per chunk fits in the arena. */
  lemma {:induction false} FreeBytesFit(cs: seq<Chunk>, start: int, end: int)
    requires Tiled(cs, start, end)
    ensures FreeBytes(cs) + HEADER * |cs| <= end - start
  {
    assert cs[0].Next() == AddrOf(cs, 1, end);
    if |cs| > 1 {
      TiledTail(cs, start, end);
      FreeBytesFit(cs[1..], cs[0].Next(), end);
    }
  }

  /** `used` is a count between 0 and size - 52: it fits its word and never wraps. */
  lemma UsedBound(b: Block)
    requires BlockOk(b)
    ensures 0 <= b.used <= b.size - MIN_BLOCK
  {
    FreeBytesFit(b.chunks, b.Start(), b.End());
  }

  /** Carving keeps a block sound, unless it splits off an empty chunk: its successor's `prevsize` would be 0. */
  lemma CarveOk(b: Block, k: nat, n: nat)
    requires BlockOk(b) && k < |b.chunks| && Fits(b.chunks[k], n)
    ensures BlockOk(CarveBlock(b, k, n)) <==> n > 0 || !Splits(b.chunks[k], n)
  {
    hide FreeBytes;
    var cs, c := b.chunks, b.chunks[k];
    var mid := Carve(c, n);
    assert cs[k].Next() == AddrOf(cs, k + 1, b.End());
    assert Tiled(mid, c.addr, AddrOf(cs, k + 1, b.End()));
    SpliceTiled(cs, b.Start(), b.End(), k, k + 1, mid);
    SpliceFreeBytes(cs, k, k + 1, mid);
    assert cs[k..k + 1] == [c];
    FreeBytesOne(c);
    FreeBytesOne(mid[0]);
    if |mid| == 2 {
      assert mid == [mid[0]] + [mid[1]];
      FreeBytesConcat([mid[0]], [mid[1]]);
      FreeBytesOne(mid[1]);
    }
    SpliceParts(cs, k, k + 1, mid);
    assert CarveBlock(b, k, n).chunks[k] == mid[0] && |CarveBlock(b, k, n).chunks| == |cs| - 1 + |mid|;
  }

  /** Where element k of a splice comes from. */
  lemma SpliceAt(cs: seq<Chunk>, i: nat, j: nat, mid: seq<Chunk>, k: nat)
    requires i <= j <= |cs| && k < |Splice(cs, i, j, mid)|
    ensures Splice(cs, i, j, mid)[k] ==
      if k < i then cs[k] else if k < i + |mid| then mid[k - i] else cs[k - |mid| + (j - i)]
  {
  }

  /** Chunk by chunk, where the elements of a splice come from. */
  lemma SpliceParts(cs: seq<Chunk>, i: nat, j: nat, mid: seq<Chunk>)
    requires i <= j <= |cs|
    ensures |Splice(cs, i, j, mid)| == |cs| - (j - i) + |mid|
    ensures forall x :: 0 <= x < i ==> Splice(cs, i, j, mid)[x] == cs[x]
    ensures forall x :: i <= x < i + |mid| ==> Splice(cs, i, j, mid)[x] == mid[x - i]
    ensures forall x :: i + |mid| <= x < |cs| - (j - i) + |mid| ==> Splice(cs, i, j, mid)[x] == cs[x - |mid| + (j - i)]
  {
  }

  /** No two neighbours are free, except possibly chunk k and its neighbours. */
  ghost predicate NoAdjacentFreeBut(cs: seq<Chunk>, k: int, l: int) {
    forall j :: 0 <= j < |cs| - 1 && j != k && j != l ==> cs[j].used || cs[j + 1].used
  }

  lemma ReleaseOk(cs: seq<Chunk>, start: int, end: int, k: nat)
    requires Tiled(cs, start, end) && Proper(cs) && NoAdjacentFree(cs)
    requires k < |cs| && cs[k].used
    ensures var ds := Release(cs, k);
      && |ds| == |cs| && !ds[k].used
      && Tiled(ds, start, end) && Proper(ds) && NoAdjacentFreeBut(ds, k - 1, k)
      && FreeBytes(ds) == FreeBytes(cs) + cs[k].size
      && Live(ds) == Live(cs) - {cs[k]}
  {
    hide FreeBytes, Live;
    var mid := [cs[k].(used := false)];
    assert cs[k].Next() == AddrOf(cs, k + 1, end);
    SpliceTiled(cs, start, end, k, k + 1, mid);
    SpliceFreeBytes(cs, k, k + 1, mid);
    SpliceParts(cs, k, k + 1, mid);
    assert cs[k..k + 1] == [cs[k]];
    FreeBytesOne(cs[k]);
    FreeBytesOne(mid[0]);
    ReplaceLive(cs, start, end, k, mid);
    LiveOne(mid[0]);
  }

  lemma FreeBytesOne(c: Chunk)
    ensures FreeBytes([c]) == if c.used then 0 else c.size
  {
    assert [c][1..] == [];
  }

  lemma LiveOne(c: Chunk)
    ensures Live([c]) == if c.used then {c} else {}
  {
  }

  /** Replacing one chunk changes the live set by that chunk only. */
  lemma ReplaceLive(cs: seq<Chunk>, start: int, end: int, k: nat, mid: seq<Chunk>)
    requires Tiled(cs, start, end) && k < |cs|
    ensures Live(Splice(cs, k, k + 1, mid)) == Live(cs) - {cs[k]} + Live(mid)
  {
    hide Tiled;
    LiveSplit(cs, start, end, k);
    SpliceLive(cs, k, k + 1, mid);
  }

  /** The live chunks before, at and after chunk k are separate. */
  lemma LiveSplit(cs: seq<Chunk>, start: int, end: int, k: nat)
    requires Tiled(cs, start, end) && k < |cs|
    ensures Live(cs) == Live(cs[..k]) + Live([cs[k]]) + Live(cs[k + 1..])
    ensures cs[k] !in Live(cs[..k]) && cs[k] !in Live(cs[k + 1..])
  {
    TiledDistinct(cs, start, end);
    SpliceLive(cs, k, k + 1, [cs[k]]);
    assert Splice(cs, k, k + 1, [cs[k]]) == cs;
  }

  lemma MergeLive(cs: seq<Chunk>, k: nat, mid: seq<Chunk>)
    requires k + 1 < |cs| && !cs[k].used && !cs[k + 1].used && Live(mid) == {}
    ensures Live(Splice(cs, k, k + 2, mid)) == Live(cs)
  {
    SpliceLive(cs, k, k + 2, mid);
    SpliceLive(cs, k, k + 2, [cs[k], cs[k + 1]]);
    assert Splice(cs, k, k + 2, [cs[k], cs[k + 1]]) == cs;
  }

  lemma MergeAtOk(cs: seq<Chunk>, start: int, end: int, k: nat)
    requires Tiled(cs, start, end) && Proper(cs)
    requires k + 1 < |cs| && !cs[k].used && !cs[k + 1].used
    ensures var ds := MergeAt(cs, k);
      && |ds| == |cs| - 1 && !ds[k].used
      && (forall x :: 0 <= x < k ==> ds[x] == cs[x]) && (forall x :: k < x < |ds| ==> ds[x] == cs[x + 1])
      && Tiled(ds, start, end) && Proper(ds)
      && FreeBytes(ds) == FreeBytes(cs) + HEADER
      && Live(ds) == Live(cs)
  {
    hide FreeBytes, Live;
    var mid := [Merged(cs[k], cs[k + 1])];
    assert cs[k].Next() == AddrOf(cs, k + 1, end);
    assert cs[k + 1].Next() == AddrOf(cs, k + 2, end);
    SpliceTiled(cs, start, end, k, k + 2, mid);
    SpliceFreeBytes(cs, k, k + 2, mid);
    SpliceParts(cs, k, k + 2, mid);
    assert cs[k..k + 2] == [cs[k]] + [cs[k + 1]];
    FreeBytesConcat([cs[k]], [cs[k + 1]]);
    FreeBytesOne(cs[k]);
    FreeBytesOne(cs[k + 1]);
    FreeBytesOne(mid[0]);
    LiveOne(mid[0]);
    MergeLive(cs, k, mid);
  }

  /** Freeing keeps the tiling, leaves no two free neighbours, and gives up exactly one live chunk. */
  lemma CoalesceOk(cs: seq<Chunk>, start: int, end: int, k: nat)
    requires Tiled(cs, start, end) && Proper(cs) && NoAdjacentFree(cs)
    requires k < |cs| && cs[k].used
    ensures var ds := Coalesce(cs, k);
      && Tiled(ds, start, end) && Proper(ds) && NoAdjacentFree(ds)
      && FreeBytes(ds) == FreeBytes(cs) + Refund(cs, k)
      && Live(ds) == Live(cs) - {cs[k]}
  {
    hide FreeBytes, Live, Tiled, Splice;
    ReleaseOk(cs, start, end, k);
    var c1 := Release(cs, k);
    var c2 := MergeNext(c1, k);
    if k + 1 < |c1| && !c1[k + 1].used { MergeAtOk(c1, start, end, k); }
    assert NoAdjacentFreeBut(c2, k - 1, k - 1);
    if k > 0 && !c2[k - 1].used { MergeAtOk(c2, start, end, k - 1); }
  }

  lemma FreeOk(b: Block, k: nat)
    requires BlockOk(b) && k < |b.chunks| && b.chunks[k].used
    ensures BlockOk(FreeBlock(b, k))
  {
    CoalesceOk(b.chunks, b.Start(), b.End(), k);
  }
}
