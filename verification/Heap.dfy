// mem/heap.h over byte-addressed memory: block records and chunk headers live in `ram`,
// next to the payloads they describe.
//
// Repairs to the source (their effect is the subject of HeapAsWritten.dfy):
//   line 97        the predecessor is found from `hdr`, not from the address of the local `hdr`
//   lines 105, 138, 203   walks stop at E = hb + size - 24, where line 46 ends the last chunk
//   lines 214-227  the split also refreshes `prevsize` of the chunk after the remainder
//   lines 230-237  the whole-chunk branch charges the whole chunk, as Free gives it back
module Heap {
  import opened Machine
  import opened HeapModel
  import opened HeapTheorems

  // ---------------------------------------------------------------- layout

  /** The `flagsize` word: bit 31 is the used flag, the rest is the size. */
  function FlagSize(c: Chunk): int { if c.used then TWO31 + c.size else c.size }

  /** What `prevsize` of chunk k must be; `first` is the value for chunk 0. */
  function PrevSize(cs: seq<Chunk>, k: nat, first: nat): nat
    requires k <= |cs|
  {
    if k == 0 then first else cs[k - 1].size
  }

  /** KHEAPHDRLCAB of chunk k: prevsize at 0, flagsize at 4. */
  ghost predicate HeaderAt(m: seq<byte>, cs: seq<Chunk>, k: nat, first: nat)
    requires k < |cs|
  {
    && cs[k].addr + HEADER <= |m|
    && Peek(m, cs[k].addr) == PrevSize(cs, k, first)
    && Peek(m, cs[k].addr + 4) == FlagSize(cs[k])
  }

  ghost predicate Headers(m: seq<byte>, cs: seq<Chunk>, first: nat) {
    forall k {:trigger HeaderAt(m, cs, k, first)} :: 0 <= k < |cs| ==> HeaderAt(m, cs, k, first)
  }

  /** KHEAPBLOCKLCAB of block b: size at 0, used at 4, next at 8; then the chunks. */
  ghost predicate BlockAt(m: seq<byte>, b: Block, next: nat) {
    && MIN_BLOCK <= b.size < MIN_BLOCK + TWO31 && b.base + b.size <= |m|
    && Peek(m, b.base) == b.size
    && Peek(m, b.base + 4) == b.used
    && Peek(m, b.base + 8) == next
    && Headers(m, b.chunks, 0)
  }

  function BaseOf(bs: seq<Block>, i: nat): nat { if i < |bs| then bs[i].base else 0 }

  /** Blocks that are tiled and share no byte, whatever their chunks hold. */
  ghost predicate Placed(bs: seq<Block>) {
    && (forall i :: 0 <= i < |bs| ==>
      && 0 < bs[i].base && MIN_BLOCK <= bs[i].size < MIN_BLOCK + TWO31
      && Tiled(bs[i].chunks, bs[i].Start(), bs[i].End()) && Proper(bs[i].chunks))
    && (forall i, j :: 0 <= i < j < |bs| ==> Apart(bs[i], bs[j]))
  }

  ghost predicate Stored(m: seq<byte>, bs: seq<Block>) {
    forall i {:trigger BlockAt(m, bs[i], BaseOf(bs, i + 1))} :: 0 <= i < |bs| ==> BlockAt(m, bs[i], BaseOf(bs, i + 1))
  }

  /** Only the `used` word of the record at `base` and the bytes [lo, hi) may differ. */
  ghost predicate Confined(m: seq<byte>, n: seq<byte>, base: int, lo: int, hi: int) {
    && |m| == |n|
    && forall a :: 0 <= a < |m| && !(base + 4 <= a < base + 8) && !(lo <= a < hi) ==> n[a] == m[a]
  }

  /** A header below the rewritten bytes, or above the `prevsize` that follows them, is unchanged. */
  lemma HeaderApart(m: seq<byte>, n: seq<byte>, base: nat, cs: seq<Chunk>, end: int, i: nat, j: nat, k: nat)
    requires Tiled(cs, base + RECORD, end) && Headers(m, cs, 0) && i < j <= |cs| && k < |cs| && (k < i || j <= k)
    requires Confined(m, n, base, cs[i].addr, AddrOf(cs, j, end) + 4)
    ensures cs[k].addr + HEADER <= |n| && Peek(n, cs[k].addr + 4) == FlagSize(cs[k])
    ensures k != j ==> HeaderAt(n, cs, k, 0)
  {
    assert HeaderAt(m, cs, k, 0);
    TiledInside(cs, base + RECORD, end, k);
    if k < i { TiledBelow(cs, base + RECORD, end, k, i); } else { TiledBelow(cs, base + RECORD, end, j, k); }
    PeekSame(m, n, cs[k].addr + 4);
    if k != j { PeekSame(m, n, cs[k].addr); }
  }

  /** Headers after splicing `mid` in for chunks i..j, writing only where those chunks were. */
  lemma HeadersSplice(m: seq<byte>, n: seq<byte>, base: nat, cs: seq<Chunk>, end: int, i: nat, j: nat, mid: seq<Chunk>)
    requires Tiled(cs, base + RECORD, end) && Headers(m, cs, 0) && i < j <= |cs| && |mid| > 0
    requires Confined(m, n, base, cs[i].addr, AddrOf(cs, j, end) + 4)
    requires Headers(n, mid, PrevSize(cs, i, 0))
    requires j < |cs| ==> cs[j].addr + 4 <= |n| && Peek(n, cs[j].addr) == mid[|mid| - 1].size
    ensures Headers(n, Splice(cs, i, j, mid), 0)
  {
    var ds := Splice(cs, i, j, mid);
    forall k | 0 <= k < |ds| ensures HeaderAt(n, ds, k, 0) {
      HeaderSpliced(m, n, base, cs, end, i, j, mid, k);
    }
  }

  lemma HeaderSpliced(m: seq<byte>, n: seq<byte>, base: nat, cs: seq<Chunk>, end: int, i: nat, j: nat,
    mid: seq<Chunk>, k: nat)
    requires Tiled(cs, base + RECORD, end) && Headers(m, cs, 0) && i < j <= |cs| && |mid| > 0
    requires Confined(m, n, base, cs[i].addr, AddrOf(cs, j, end) + 4)
    requires Headers(n, mid, PrevSize(cs, i, 0))
    requires j < |cs| ==> cs[j].addr + 4 <= |n| && Peek(n, cs[j].addr) == mid[|mid| - 1].size
    requires k < |Splice(cs, i, j, mid)|
    ensures HeaderAt(n, Splice(cs, i, j, mid), k, 0)
  {
    SpliceAt(cs, i, j, mid, k);
    if k > 0 { SpliceAt(cs, i, j, mid, k - 1); }
    if i <= k < i + |mid| {
      assert HeaderAt(n, mid, k - i, PrevSize(cs, i, 0));
    } else {
      HeaderApart(m, n, base, cs, end, i, j, if k < i then k else k - |mid| + (j - i));
    }
  }

  /** A block after an in-place rewrite of chunks i..j. */
  lemma BlockSplice(m: seq<byte>, n: seq<byte>, b: Block, next: nat, i: nat, j: nat, mid: seq<Chunk>, used: int)
    requires BlockAt(m, b, next) && Tiled(b.chunks, b.Start(), b.End()) && i < j <= |b.chunks| && |mid| > 0
    requires Confined(m, n, b.base, b.chunks[i].addr, AddrOf(b.chunks, j, b.End()) + 4)
    requires Headers(n, mid, PrevSize(b.chunks, i, 0))
    requires j < |b.chunks| ==> b.chunks[j].addr + 4 <= |n| && Peek(n, b.chunks[j].addr) == mid[|mid| - 1].size
    requires Peek(n, b.base + 4) == used
    ensures BlockAt(n, b.(chunks := Splice(b.chunks, i, j, mid), used := used), next)
  {
    TiledInside(b.chunks, b.Start(), b.End(), i);
    PeekSame(m, n, b.base);
    PeekSame(m, n, b.base + 8);
    HeadersSplice(m, n, b.base, b.chunks, b.End(), i, j, mid);
  }

  lemma ReadBlock(m: seq<byte>, b: Block, next: nat)
    requires BlockAt(m, b, next)
    ensures MIN_BLOCK <= b.size < MIN_BLOCK + TWO31 && b.base + b.size <= |m|
    ensures Peek(m, b.base) == b.size && Peek(m, b.base + 4) == b.used && Peek(m, b.base + 8) == next
  {
  }

  /** What reading the header of chunk k gives, and where the walk goes next. */
  lemma ReadChunk(m: seq<byte>, b: Block, next: nat, k: nat)
    requires BlockAt(m, b, next) && Tiled(b.chunks, b.Start(), b.End()) && k < |b.chunks|
    ensures var c := b.chunks[k];
      && b.Start() <= c.addr && c.Next() <= b.End() && c.Next() == AddrOf(b.chunks, k + 1, b.End())
      && Peek(m, c.addr) == PrevSize(b.chunks, k, 0) && Peek(m, c.addr + 4) == FlagSize(c)
      && c.size < TWO31 && LowBits(Peek(m, c.addr + 4)) == c.size && (Peek(m, c.addr + 4) as int < TWO31 <==> !c.used)
  {
    assert HeaderAt(m, b.chunks, k, 0);
    TiledInside(b.chunks, b.Start(), b.End(), k);
  }

  /** Rewriting one block leaves the others stored as they were. */
  lemma StoredUpdate(m: seq<byte>, n: seq<byte>, bs: seq<Block>, i: nat, b: Block)
    requires Stored(m, bs) && i < |bs| && b.base == bs[i].base && b.size == bs[i].size
    requires Placed(bs)
    requires SameOutside(m, n, b.base, b.base + b.size)
    requires BlockAt(n, b, BaseOf(bs, i + 1))
    ensures Stored(n, bs[i := b])
  {
    var cs := bs[i := b];
    forall j | 0 <= j < |cs| ensures BlockAt(n, cs[j], BaseOf(cs, j + 1)) {
      assert BaseOf(cs, j + 1) == BaseOf(bs, j + 1);
      if j != i { BlockUntouched(m, n, bs[j], BaseOf(bs, j + 1)); }
    }
  }

  lemma BlockUntouched(m: seq<byte>, n: seq<byte>, b: Block, next: nat)
    requires BlockAt(m, b, next) && SameOn(m, n, b.base, b.base + b.size)
    requires Tiled(b.chunks, b.Start(), b.End())
    ensures BlockAt(n, b, next)
  {
    PeekSame(m, n, b.base);
    PeekSame(m, n, b.base + 4);
    PeekSame(m, n, b.base + 8);
    forall k | 0 <= k < |b.chunks| ensures HeaderAt(n, b.chunks, k, 0) {
      assert HeaderAt(m, b.chunks, k, 0);
      TiledInside(b.chunks, b.Start(), b.End(), k);
      PeekSame(m, n, b.chunks[k].addr);
      PeekSame(m, n, b.chunks[k].addr + 4);
    }
  }

  /** Every payload in `keep` holds the same bytes in `m` and `n`. */
  ghost predicate PayloadsKept(m: seq<byte>, n: seq<byte>, keep: set<Chunk>) {
    forall c :: c in keep ==> SameOn(m, n, c.Payload(), c.Next())
  }

  /** Bytes that belong to no block are not written. */
  ghost predicate OnlyInBlocks(m: seq<byte>, n: seq<byte>, bs: seq<Block>) {
    && |m| == |n|
    && forall a :: 0 <= a < |m| && (forall i :: 0 <= i < |bs| ==> !(bs[i].base <= a < bs[i].base + bs[i].size)) ==>
      n[a] == m[a]
  }

  /** Writes confined to chunks i..j of block b miss every other live payload of the heap. */
  lemma ConfinedKeeps(s: State, m: seq<byte>, n: seq<byte>, x: nat, i: nat, j: nat, keep: set<Chunk>)
    requires Placed(s.blocks) && x < |s.blocks| && i < j <= |s.blocks[x].chunks|
    requires var b := s.blocks[x]; Confined(m, n, b.base, b.chunks[i].addr, AddrOf(b.chunks, j, b.End()) + 4)
    requires keep <= LiveChunks(s)
    requires forall k :: i <= k < j ==> s.blocks[x].chunks[k] !in keep
    ensures PayloadsKept(m, n, keep) && OnlyInBlocks(m, n, s.blocks)
  {
    var b := s.blocks[x];
    TiledInside(b.chunks, b.Start(), b.End(), i);
    TiledInside(b.chunks, b.Start(), b.End(), j - 1);
    assert b.chunks[j - 1].Next() == AddrOf(b.chunks, j, b.End());
    forall c | c in keep ensures SameOn(m, n, c.Payload(), c.Next()) {
      var y :| 0 <= y < |s.blocks| && c in Live(s.blocks[y].chunks);
      LiveInside(s.blocks[y], c);
      if y == x {
        var k :| 0 <= k < |b.chunks| && b.chunks[k] == c;
        if k < i { TiledBelow(b.chunks, b.Start(), b.End(), k, i); }
        if k >= j { TiledBelow(b.chunks, b.Start(), b.End(), j, k); }
      }
    }
    if j < |b.chunks| { TiledInside(b.chunks, b.Start(), b.End(), j); }
  }

  /** A block's bytes after a confined rewrite lie inside the block. */
  lemma ConfinedInside(b: Block, m: seq<byte>, n: seq<byte>, i: nat, j: nat)
    requires MIN_BLOCK <= b.size && Tiled(b.chunks, b.Start(), b.End()) && i < j <= |b.chunks|
    requires Confined(m, n, b.base, b.chunks[i].addr, AddrOf(b.chunks, j, b.End()) + 4)
    ensures SameOutside(m, n, b.base, b.base + b.size)
  {
    TiledInside(b.chunks, b.Start(), b.End(), i);
    if j < |b.chunks| { TiledInside(b.chunks, b.Start(), b.End(), j); }
  }

  /** The inner walk of Alloc: the address of the block's first chunk that can hold `n` bytes, or 0. */
  method FindChunk(ram: array<byte>, hb: nat, n: word, ghost b: Block, ghost next: nat) returns (hdr: int)
    requires hb == b.base && BlockAt(ram[..], b, next) && Tiled(b.chunks, b.Start(), b.End())
    ensures var k := FirstFit(b.chunks, n);
      hdr == (if k < |b.chunks| then b.chunks[k].addr else 0) && (hdr == 0 <==> k == |b.chunks|)
  {
    var end := hb + Peek(ram[..], hb) as int - SLACK;
    hdr := hb + RECORD;
    ghost var k := 0;
    while hdr < end
      invariant k <= |b.chunks| && hdr == AddrOf(b.chunks, k, end)
      invariant forall j :: 0 <= j < k ==> !Fits(b.chunks[j], n)
    {
      ReadChunk(ram[..], b, next, k);
      var flagsize := Peek(ram[..], hdr + 4);
      var sz := LowBits(flagsize) as int;
      if flagsize as int < TWO31 && sz >= n as int {
        return;
      }
      hdr, k := hdr + HEADER + sz, k + 1;
    }
    if k < |b.chunks| { ReadChunk(ram[..], b, next, k); }
    hdr := 0;
  }

  lemma ConfinedRefl(m: seq<byte>, base: int, lo: int, hi: int)
    ensures Confined(m, m, base, lo, hi)
  {
  }

  /** A store that stays where an operation on the block at `base` may write; `m` is memory before the operation. */
  method Store(ram: array<byte>, a: nat, v: word, ghost m: seq<byte>, ghost base: int, ghost lo: int, ghost hi: int)
    requires a + 4 <= ram.Length && Confined(m, ram[..], base, lo, hi)
    requires a == base + 4 || (lo <= a && a + 4 <= hi)
    modifies ram
    ensures Peek(ram[..], a) == v && Confined(m, ram[..], base, lo, hi)
    ensures forall x :: 0 <= x && (x + 4 <= a || (a + 4 <= x && x + 4 <= ram.Length)) ==>
      Peek(ram[..], x) == old(Peek(ram[..], x))
  {
    Poke(ram, a, v);
  }

  /** The words a split must leave behind, and what it may touch. */
  lemma {:induction false} SplitStored(m: seq<byte>, n: seq<byte>, b: Block, next: nat, k: nat, want: nat)
    requires BlockAt(m, b, next) && Tiled(b.chunks, b.Start(), b.End())
    requires k < |b.chunks| && Fits(b.chunks[k], want) && Splits(b.chunks[k], want)
    requires var c, rest := b.chunks[k], b.chunks[k].Payload() + want;
      && Confined(m, n, b.base, c.addr, AddrOf(b.chunks, k + 1, b.End()) + 4)
      && c.Next() <= |n|
      && Peek(n, c.addr) == PrevSize(b.chunks, k, 0) && Peek(n, c.addr + 4) == TWO31 + want
      && Peek(n, rest) == want && Peek(n, rest + 4) == c.size - want - HEADER
      && Peek(n, b.base + 4) == b.used + want + HEADER
    requires k + 1 < |b.chunks| ==>
      b.chunks[k + 1].addr + 4 <= |n| && Peek(n, b.chunks[k + 1].addr) == b.chunks[k].size - want - HEADER
    ensures BlockAt(n, CarveBlock(b, k, want), next)
  {
    hide Peek, BlockAt, Confined;
    var first, mid := PrevSize(b.chunks, k, 0), Carve(b.chunks[k], want);
    assert Headers(n, mid, first) by {
      assert HeaderAt(n, mid, 0, first);
      assert HeaderAt(n, mid, 1, first);
    }
    assert b.chunks[k].Next() == AddrOf(b.chunks, k + 1, b.End());
    BlockSplice(m, n, b, next, k, k + 1, mid, b.used + want + HEADER);
  }

  /** The stores of lines 220-221, and to the `prevsize` that follows. */
  method StoreRemainder(ram: array<byte>, rest: nat, n: word, left: word, more: bool,
                        ghost m: seq<byte>, ghost base: int, ghost lo: int, ghost hi: int)
    requires lo <= rest && rest + HEADER + left as int + 4 <= hi && rest + HEADER <= ram.Length
    requires more ==> rest + HEADER + left as int + 4 <= ram.Length
    requires Confined(m, ram[..], base, lo, hi)
    modifies ram
    ensures Confined(m, ram[..], base, lo, hi) && Peek(ram[..], rest) == n && Peek(ram[..], rest + 4) == left
    ensures more ==> Peek(ram[..], rest + HEADER + left as int) == left
    ensures forall x: nat :: x + 4 <= rest && x + 4 <= ram.Length ==> Peek(ram[..], x) == old(Peek(ram[..], x))
  {
    hide Peek, Confined;
    Store(ram, rest + 4, left, m, base, lo, hi);
    Store(ram, rest, n, m, base, lo, hi);
    if more {
      Store(ram, rest + HEADER + left as int, left, m, base, lo, hi);
    }
  }

  /**
    Alloc splits the chunk it found. The store to `following` is a repair: that header's
    `prevsize` now describes the remainder.
   */
  method SplitChunk(ram: array<byte>, hb: nat, hdr: nat, n: word, ghost b: Block, ghost next: nat, ghost k: nat)
    requires hb == b.base && BlockAt(ram[..], b, next) && Tiled(b.chunks, b.Start(), b.End())
    requires 0 <= b.used && b.used + n as int + HEADER < TWO32
    requires k < |b.chunks| && Fits(b.chunks[k], n) && Splits(b.chunks[k], n) && hdr == b.chunks[k].addr
    modifies ram
    ensures BlockAt(ram[..], CarveBlock(b, k, n), next)
    ensures Confined(old(ram[..]), ram[..], hb, hdr, AddrOf(b.chunks, k + 1, b.End()) + 4)
  {
    hide Peek, BlockAt, Tiled, Headers, CarveBlock, Carve, FlagSize, Confined;
    ghost var m, lo, hi := ram[..], hdr, AddrOf(b.chunks, k + 1, b.End()) + 4;
    assert Confined(m, m, hb, lo, hi) by { ConfinedRefl(m, hb, lo, hi); }
    ReadBlock(m, b, next);
    ReadChunk(m, b, next, k);
    if k + 1 < |b.chunks| { ReadChunk(m, b, next, k + 1); }
    var end := hb + Peek(ram[..], hb) as int - SLACK;
    var used := Peek(ram[..], hb + 4) as int;
    var sz := LowBits(Peek(ram[..], hdr + 4)) as int;
    var rest := hdr + HEADER + n as int;
    var left := sz - (n as int + HEADER);
    var following := rest + HEADER + left;
    StoreRemainder(ram, rest, n, left, following < end, m, hb, lo, hi);
    Store(ram, hdr + 4, SetTopBit(n), m, hb, lo, hi);
    Store(ram, hb + 4, used + HEADER + n as int, m, hb, lo, hi);
    SplitStored(m, ram[..], b, next, k, n);
  }

  /** Alloc takes the chunk it found whole. */
  method TakeWhole(ram: array<byte>, hb: nat, hdr: nat, n: word, ghost b: Block, ghost next: nat, ghost k: nat)
    requires hb == b.base && BlockAt(ram[..], b, next) && Tiled(b.chunks, b.Start(), b.End())
    requires k < |b.chunks| && Fits(b.chunks[k], n) && !Splits(b.chunks[k], n) && hdr == b.chunks[k].addr
    requires 0 <= b.used && b.used + b.chunks[k].size < TWO32
    modifies ram
    ensures BlockAt(ram[..], CarveBlock(b, k, n), next)
    ensures Confined(old(ram[..]), ram[..], hb, hdr, AddrOf(b.chunks, k + 1, b.End()) + 4)
  {
    hide Peek, BlockAt, Tiled, Headers, Confined;
    ghost var m, lo, hi := ram[..], hdr, AddrOf(b.chunks, k + 1, b.End()) + 4;
    ConfinedRefl(m, hb, lo, hi);
    ReadBlock(m, b, next);
    ReadChunk(m, b, next, k);
    if k + 1 < |b.chunks| { ReadChunk(m, b, next, k + 1); }
    var flagsize := Peek(ram[..], hdr + 4);
    var used := Peek(ram[..], hb + 4) as int;
    Store(ram, hdr + 4, SetTopBit(flagsize), m, hb, lo, hi);
    Store(ram, hb + 4, used + flagsize as int, m, hb, lo, hi);
    RewriteOne(m, ram[..], b, next, k, b.chunks[k].(used := true), b.used + b.chunks[k].size);
  }

  /** Rewriting one header's flag and the `used` word. */
  lemma RewriteOne(m: seq<byte>, n: seq<byte>, b: Block, next: nat, k: nat, c: Chunk, used: int)
    requires BlockAt(m, b, next) && Tiled(b.chunks, b.Start(), b.End()) && k < |b.chunks|
    requires c.addr == b.chunks[k].addr && c.size == b.chunks[k].size
    requires Confined(m, n, b.base, c.addr, AddrOf(b.chunks, k + 1, b.End()) + 4) && c.addr + HEADER <= |n|
    requires Peek(n, c.addr) == PrevSize(b.chunks, k, 0) && Peek(n, c.addr + 4) == FlagSize(c)
    requires k + 1 < |b.chunks| ==> b.chunks[k + 1].addr + 4 <= |n| && Peek(n, b.chunks[k + 1].addr) == c.size
    requires Peek(n, b.base + 4) == used
    ensures BlockAt(n, b.(chunks := Splice(b.chunks, k, k + 1, [c]), used := used), next)
  {
    hide Peek, BlockAt, Confined;
    assert HeaderAt(n, [c], 0, PrevSize(b.chunks, k, 0));
    assert b.chunks[k].Next() == AddrOf(b.chunks, k + 1, b.End());
    BlockSplice(m, n, b, next, k, k + 1, [c], used);
  }

  /** Free clears the used flag of the chunk at `hdr` (lines 72-74). */
  method Unflag(ram: array<byte>, hdr: nat, ghost b: Block, ghost next: nat, ghost k: nat)
    requires BlockAt(ram[..], b, next) && Tiled(b.chunks, b.Start(), b.End())
    requires k < |b.chunks| && b.chunks[k].used && hdr == b.chunks[k].addr
    modifies ram
    ensures BlockAt(ram[..], b.(chunks := Release(b.chunks, k)), next)
    ensures Confined(old(ram[..]), ram[..], b.base, hdr, AddrOf(b.chunks, k + 1, b.End()) + 4)
  {
    hide Peek, BlockAt, Tiled, Headers, Confined;
    ghost var m, lo, hi := ram[..], hdr, AddrOf(b.chunks, k + 1, b.End()) + 4;
    ConfinedRefl(m, b.base, lo, hi);
    ReadBlock(m, b, next);
    ReadChunk(m, b, next, k);
    if k + 1 < |b.chunks| { ReadChunk(m, b, next, k + 1); }
    Store(ram, hdr + 4, LowBits(Peek(ram[..], hdr + 4)), m, b.base, lo, hi);
    RewriteOne(m, ram[..], b, next, k, b.chunks[k].(used := false), b.used);
  }

  /** Free takes the chunk's bytes off the block's `used` (line 92). */
  method GiveBack(ram: array<byte>, hb: nat, hdr: nat, ghost b: Block, ghost next: nat, ghost k: nat)
    returns (flagsize: nat)
    requires hb == b.base && BlockAt(ram[..], b, next) && Tiled(b.chunks, b.Start(), b.End())
    requires k < |b.chunks| && !b.chunks[k].used && hdr == b.chunks[k].addr
    requires b.chunks[k].size <= b.used < TWO32
    modifies ram
    ensures flagsize == b.chunks[k].size
    ensures BlockAt(ram[..], b.(used := b.used - b.chunks[k].size), next)
    ensures Confined(old(ram[..]), ram[..], hb, hdr, AddrOf(b.chunks, k + 1, b.End()) + 4)
  {
    hide Peek, BlockAt, Tiled, Headers, Confined;
    ghost var m, lo, hi := ram[..], hdr, AddrOf(b.chunks, k + 1, b.End()) + 4;
    ConfinedRefl(m, hb, lo, hi);
    ReadBlock(m, b, next);
    ReadChunk(m, b, next, k);
    if k + 1 < |b.chunks| { ReadChunk(m, b, next, k + 1); }
    flagsize := Peek(ram[..], hdr + 4) as int;
    Store(ram, hb + 4, Peek(ram[..], hb + 4) as int - flagsize, m, hb, lo, hi);
    RewriteOne(m, ram[..], b, next, k, b.chunks[k], b.used - b.chunks[k].size);
    assert Splice(b.chunks, k, k + 1, [b.chunks[k]]) == b.chunks;
  }

  /** What a merge of chunks k and k+1 must leave behind. */
  lemma MergeStored(m: seq<byte>, n: seq<byte>, b: Block, next: nat, k: nat)
    requires BlockAt(m, b, next) && Tiled(b.chunks, b.Start(), b.End()) && k + 1 < |b.chunks|
    requires var c := Merged(b.chunks[k], b.chunks[k + 1]);
      && Confined(m, n, b.base, c.addr, AddrOf(b.chunks, k + 2, b.End()) + 4)
      && c.Payload() <= |n|
      && Peek(n, c.addr) == PrevSize(b.chunks, k, 0) && Peek(n, c.addr + 4) == c.size
      && Peek(n, b.base + 4) == b.used - HEADER
      && (k + 2 < |b.chunks| ==> b.chunks[k + 2].addr + 4 <= |n| && Peek(n, b.chunks[k + 2].addr) == c.size)
    ensures BlockAt(n, b.(chunks := MergeAt(b.chunks, k), used := b.used - HEADER), next)
  {
    hide Peek, BlockAt, Confined;
    var mid := [Merged(b.chunks[k], b.chunks[k + 1])];
    assert HeaderAt(n, mid, 0, PrevSize(b.chunks, k, 0));
    assert b.chunks[k].Next() == AddrOf(b.chunks, k + 1, b.End());
    assert b.chunks[k + 1].Next() == AddrOf(b.chunks, k + 2, b.End());
    BlockSplice(m, n, b, next, k, k + 2, mid, b.used - HEADER);
  }

  /**
    The freed chunk at `hdr` absorbs the free chunk at `nhdr` (lines 113-123). When `nhdr` was
    the last chunk, the store to `following` goes to the slack after the arena.
   */
  method AbsorbNext(ram: array<byte>, hb: nat, hdr: nat, nhdr: nat, ghost b: Block, ghost next: nat, ghost k: nat)
    requires hb == b.base && BlockAt(ram[..], b, next) && Tiled(b.chunks, b.Start(), b.End())
    requires k + 1 < |b.chunks| && !b.chunks[k].used && !b.chunks[k + 1].used
    requires hdr == b.chunks[k].addr && nhdr == b.chunks[k + 1].addr && HEADER <= b.used < TWO32
    modifies ram
    ensures BlockAt(ram[..], b.(chunks := MergeAt(b.chunks, k), used := b.used - HEADER), next)
    ensures Confined(old(ram[..]), ram[..], hb, hdr, AddrOf(b.chunks, k + 2, b.End()) + 4)
  {
    hide Peek, BlockAt, Tiled, Headers, Confined, MergeAt;
    ghost var m, lo, hi := ram[..], hdr, AddrOf(b.chunks, k + 2, b.End()) + 4;
    ConfinedRefl(m, hb, lo, hi);
    ReadBlock(m, b, next);
    ReadChunk(m, b, next, k);
    ReadChunk(m, b, next, k + 1);
    if k + 2 < |b.chunks| { ReadChunk(m, b, next, k + 2); }
    var flagsize := Peek(ram[..], hdr + 4) as int + HEADER + Peek(ram[..], nhdr + 4) as int;
    Store(ram, hdr + 4, flagsize, m, hb, lo, hi);
    Store(ram, hb + 4, Peek(ram[..], hb + 4) as int - HEADER, m, hb, lo, hi);
    var following := hdr + HEADER + flagsize;
    Store(ram, following, flagsize, m, hb, lo, hi);
    MergeStored(m, ram[..], b, next, k);
  }

  /** The free chunk at `phdr` absorbs the freed chunk at `hdr` (lines 128-142). */
  method AbsorbPrev(ram: array<byte>, hb: nat, phdr: nat, hdr: nat, ghost b: Block, ghost next: nat, ghost k: nat)
    requires hb == b.base && BlockAt(ram[..], b, next) && Tiled(b.chunks, b.Start(), b.End())
    requires 0 < k < |b.chunks| && !b.chunks[k - 1].used && !b.chunks[k].used
    requires phdr == b.chunks[k - 1].addr && hdr == b.chunks[k].addr && HEADER <= b.used < TWO32
    modifies ram
    ensures BlockAt(ram[..], b.(chunks := MergeAt(b.chunks, k - 1), used := b.used - HEADER), next)
    ensures Confined(old(ram[..]), ram[..], hb, phdr, AddrOf(b.chunks, k + 1, b.End()) + 4)
  {
    hide Peek, BlockAt, Tiled, Headers, Confined, MergeAt;
    ghost var m, lo, hi := ram[..], phdr, AddrOf(b.chunks, k + 1, b.End()) + 4;
    ConfinedRefl(m, hb, lo, hi);
    ReadBlock(m, b, next);
    ReadChunk(m, b, next, k - 1);
    ReadChunk(m, b, next, k);
    if k + 1 < |b.chunks| { ReadChunk(m, b, next, k + 1); }
    var end := hb + Peek(ram[..], hb) as int - SLACK;
    var flagsize := Peek(ram[..], phdr + 4) as int + HEADER + Peek(ram[..], hdr + 4) as int;
    Store(ram, phdr + 4, flagsize, m, hb, lo, hi);
    Store(ram, hb + 4, Peek(ram[..], hb + 4) as int - HEADER, m, hb, lo, hi);
    var following := phdr + HEADER + flagsize;
    if following < end {
      Store(ram, following, flagsize, m, hb, lo, hi);
    }
    MergeStored(m, ram[..], b, next, k - 1);
  }

  lemma ConfinedJoin(m: seq<byte>, n: seq<byte>, o: seq<byte>, base: int, lo: int, hi: int, lo1: int, hi1: int,
    lo2: int, hi2: int)
    requires Confined(m, n, base, lo1, hi1) && Confined(n, o, base, lo2, hi2)
    requires lo <= lo1 && hi1 <= hi && lo <= lo2 && hi2 <= hi
    ensures Confined(m, o, base, lo, hi)
  {
  }

  // The chunks lo..hi that freeing chunk k joins.
  function JoinLo(cs: seq<Chunk>, k: nat): nat
    requires k < |cs|
  {
    if k > 0 && !cs[k - 1].used then k - 1 else k
  }

  function JoinHi(cs: seq<Chunk>, k: nat): nat
    requires k < |cs|
  {
    if k + 1 < |cs| && !cs[k + 1].used then k + 2 else k + 1
  }

  /** Lists and lengths through the stages of a free. */
  lemma FreeStages(cs: seq<Chunk>, start: int, end: int, k: nat)
    requires Tiled(cs, start, end) && Proper(cs) && NoAdjacentFree(cs) && k < |cs| && cs[k].used
    ensures var c1 := Release(cs, k); var c2 := MergeNext(c1, k);
      && |c1| == |cs| && c1[k] == cs[k].(used := false)
      && (forall x :: 0 <= x < |cs| && x != k ==> c1[x] == cs[x])
      && Tiled(c1, start, end) && Proper(c1) && Tiled(c2, start, end) && Proper(c2)
      && k < |c2| && !c2[k].used && c2[k].addr == cs[k].addr
      && (k > 0 ==> c2[k - 1] == cs[k - 1])
      && |c2| == |cs| - (JoinHi(cs, k) - k - 1)
      && AddrOf(c2, k + 1, end) == AddrOf(cs, JoinHi(cs, k), end)
      && |Coalesce(cs, k)| == |c2| - (k - JoinLo(cs, k))
  {
    hide Tiled, FreeBytes, Live, NoAdjacentFreeBut, Splice;
    ReleaseOk(cs, start, end, k);
    ReleaseAt(cs, k);
    var c1 := Release(cs, k);
    if k + 1 < |c1| && !c1[k + 1].used { MergeAtOk(c1, start, end, k); MergedAddr(c1, k); }
    var c2 := MergeNext(c1, k);
    if k > 0 && !c2[k - 1].used { MergeAtOk(c2, start, end, k - 1); }
  }

  lemma ReleaseAt(cs: seq<Chunk>, k: nat)
    requires k < |cs|
    ensures |Release(cs, k)| == |cs| && Release(cs, k) == cs[k := cs[k].(used := false)]
  {
  }

  lemma MergedAddr(cs: seq<Chunk>, k: nat)
    requires k + 1 < |cs|
    ensures |MergeAt(cs, k)| == |cs| - 1 && MergeAt(cs, k)[k].addr == cs[k].addr
    ensures k > 0 ==> MergeAt(cs, k)[k - 1] == cs[k - 1]
  {
  }

  /** Merge forward if the next chunk exists and is free (lines 104-123); returns what `used` lost. */
  method JoinNext(ram: array<byte>, hb: nat, hdr: nat, ghost b: Block, ghost next: nat, ghost k: nat)
    returns (refund: int)
    requires hb == b.base && BlockAt(ram[..], b, next) && Tiled(b.chunks, b.Start(), b.End())
    requires k < |b.chunks| && !b.chunks[k].used && hdr == b.chunks[k].addr && b.used < TWO32
    requires HEADER * (|b.chunks| - |MergeNext(b.chunks, k)|) <= b.used
    modifies ram
    ensures var cs := MergeNext(b.chunks, k);
      && refund == HEADER * (|b.chunks| - |cs|)
      && BlockAt(ram[..], b.(chunks := cs, used := b.used - refund), next)
      && Confined(old(ram[..]), ram[..], hb, hdr, AddrOf(b.chunks, JoinHi(b.chunks, k), b.End()) + 4)
  {
    hide Peek, BlockAt, Headers, Tiled, Confined, MergeAt;
    ghost var m, hi := ram[..], AddrOf(b.chunks, JoinHi(b.chunks, k), b.End()) + 4;
    ConfinedRefl(m, hb, hdr, hi);
    ReadBlock(m, b, next);
    ReadChunk(m, b, next, k);
    if k + 1 < |b.chunks| { ReadChunk(m, b, next, k + 1); MergedAddr(b.chunks, k); }
    refund := 0;
    var nhdr := hdr + HEADER + Peek(ram[..], hdr + 4) as int;
    if nhdr < hb + Peek(ram[..], hb) as int - SLACK {
      if Peek(ram[..], nhdr + 4) as int < TWO31 {
        AbsorbNext(ram, hb, hdr, nhdr, b, next, k);
        refund := HEADER;
      }
    }
    assert refund == 0 ==> b == b.(chunks := MergeNext(b.chunks, k), used := b.used - refund);
  }

  /** Merge backward if the previous chunk exists and is free (lines 96-100, 127-142). */
  method JoinPrev(ram: array<byte>, hb: nat, hdr: nat, ghost b: Block, ghost next: nat, ghost k: nat)
    returns (refund: int)
    requires hb == b.base && BlockAt(ram[..], b, next) && Tiled(b.chunks, b.Start(), b.End()) && Proper(b.chunks)
    requires k < |b.chunks| && !b.chunks[k].used && hdr == b.chunks[k].addr && b.used < TWO32
    requires HEADER * (|b.chunks| - |MergePrev(b.chunks, k)|) <= b.used
    modifies ram
    ensures var cs := MergePrev(b.chunks, k);
      && refund == HEADER * (|b.chunks| - |cs|)
      && BlockAt(ram[..], b.(chunks := cs, used := b.used - refund), next)
      && Confined(old(ram[..]), ram[..], hb, b.chunks[JoinLo(b.chunks, k)].addr, AddrOf(b.chunks, k + 1, b.End()) + 4)
  {
    hide Peek, BlockAt, Headers, Tiled, Confined, MergeAt;
    ghost var m := ram[..];
    ConfinedRefl(m, hb, b.chunks[JoinLo(b.chunks, k)].addr, AddrOf(b.chunks, k + 1, b.End()) + 4);
    ReadBlock(m, b, next);
    ReadChunk(m, b, next, k);
    if k > 0 { ReadChunk(m, b, next, k - 1); MergedAddr(b.chunks, k - 1); }
    refund := 0;
    var prevsize := Peek(ram[..], hdr) as int;
    if prevsize != 0 {
      var phdr := hdr - (HEADER + prevsize);
      if Peek(ram[..], phdr + 4) as int < TWO31 {
        AbsorbPrev(ram, hb, phdr, hdr, b, next, k);
        refund := HEADER;
      }
    }
    assert refund == 0 ==> b == b.(chunks := MergePrev(b.chunks, k), used := b.used - refund);
  }

  /** What Free does in the block it found (lines 85-142): `b` is the block before the call. */
  method JoinChunk(ram: array<byte>, hb: nat, hdr: nat, ghost b: Block, ghost next: nat, ghost k: nat)
    returns (refund: int)
    requires BlockOk(b) && hb == b.base && k < |b.chunks| && b.chunks[k].used && hdr == b.chunks[k].addr
    requires BlockAt(ram[..], b.(chunks := Release(b.chunks, k)), next)
    modifies ram
    ensures refund == Refund(b.chunks, k)
    ensures BlockAt(ram[..], FreeBlock(b, k), next)
    ensures Confined(old(ram[..]), ram[..], hb, b.chunks[JoinLo(b.chunks, k)].addr,
                     AddrOf(b.chunks, JoinHi(b.chunks, k), b.End()) + 4)
  {
    hide Peek, BlockAt, Headers, Tiled, Confined, Release, MergeAt, Live, FreeBytes, NoAdjacentFree, Proper, BlockOk;
    ghost var end := b.End();
    JoinFacts(b, k);
    ghost var cs, c1 := b.chunks, Release(b.chunks, k);
    ghost var c2 := MergeNext(c1, k);
    ghost var b1 := b.(chunks := c1);
    ghost var lo, hi := cs[JoinLo(cs, k)].addr, AddrOf(cs, JoinHi(cs, k), end) + 4;
    ghost var m0 := ram[..];
    var flagsize := GiveBack(ram, hb, hdr, b1, next, k);
    ghost var b2, m1 := b1.(used := b.used - flagsize), ram[..];
    var forward := JoinNext(ram, hb, hdr, b2, next, k);
    ghost var b3, m2 := b2.(chunks := c2, used := b2.used - forward), ram[..];
    ConfinedJoin(m0, m1, m2, hb, hdr, hi, hdr, AddrOf(c1, k + 1, end) + 4, hdr, hi);
    var backward := JoinPrev(ram, hb, hdr, b3, next, k);
    ConfinedJoin(m0, m2, ram[..], hb, lo, hi, hdr, hi, lo, hi);
    refund := flagsize + forward + backward;
  }

  lemma JoinFacts(b: Block, k: nat)
    requires BlockOk(b) && k < |b.chunks| && b.chunks[k].used
    ensures var cs, end := b.chunks, b.End(); var c1 := Release(cs, k); var lo, hi := JoinLo(cs, k), JoinHi(cs, k);
      && |c1| == |cs| && c1[k] == cs[k].(used := false) && Tiled(c1, b.Start(), end)
      && JoinHi(c1, k) == hi && AddrOf(c1, hi, end) == AddrOf(cs, hi, end)
      && AddrOf(c1, k + 1, end) <= AddrOf(cs, hi, end)
      && var c2 := MergeNext(c1, k);
      && k < |c2| && !c2[k].used && c2[k].addr == cs[k].addr && Tiled(c2, b.Start(), end) && Proper(c2)
      && JoinLo(c2, k) == lo && c2[lo].addr == cs[lo].addr <= cs[k].addr
      && AddrOf(c2, k + 1, end) == AddrOf(cs, hi, end)
      && Coalesce(cs, k) == MergePrev(c2, k)
      && |c2| <= |c1| && |Coalesce(cs, k)| <= |c2|
      && 0 <= b.used - Refund(cs, k) && b.used < TWO32
  {
    hide Release, MergeAt, Live, FreeBytes;
    FreeOk(b, k);
    UsedBound(b);
    UsedBound(FreeBlock(b, k));
    FreeStages(b.chunks, b.Start(), b.End(), k);
    RegionOrder(b, k);
  }

  /** The bytes a free may write start no later than its chunk and end no earlier. */
  lemma RegionOrder(b: Block, k: nat)
    requires BlockOk(b) && k < |b.chunks|
    ensures b.chunks[JoinLo(b.chunks, k)].addr <= b.chunks[k].addr
    ensures AddrOf(b.chunks, k + 1, b.End()) <= AddrOf(b.chunks, JoinHi(b.chunks, k), b.End())
    ensures b.chunks[k].Next() == AddrOf(b.chunks, k + 1, b.End())
    ensures k > 0 ==> b.chunks[k - 1].Next() == b.chunks[k].addr && 0 < b.chunks[k - 1].addr && b.chunks[k - 1].size > 0
    ensures AddrOf(b.chunks, k + 1, b.End()) < b.End() <==> k + 1 < |b.chunks|
  {
    assert b.chunks[k].Next() == AddrOf(b.chunks, k + 1, b.End());
    if k > 0 {
      assert b.chunks[k - 1].Next() == AddrOf(b.chunks, k, b.End());
      TiledInside(b.chunks, b.Start(), b.End(), k - 1);
    }
    if k + 1 < |b.chunks| {
      assert b.chunks[k + 1].Next() == AddrOf(b.chunks, k + 2, b.End());
      TiledInside(b.chunks, b.Start(), b.End(), k + 1);
    }
  }

  lemma StoredBlock(m: seq<byte>, bs: seq<Block>, i: nat)
    requires Stored(m, bs) && i < |bs|
    ensures BlockAt(m, bs[i], BaseOf(bs, i + 1))
  {
  }

  lemma InvPlaced(s: State)
    requires Inv(s)
    ensures Placed(s.blocks)
  {
  }

  /** After carving block i, memory holds the heap after Alloc and every live payload is intact. */
  lemma AllocStored(s: State, m: seq<byte>, n: seq<byte>, want: nat)
    requires Inv(s) && Stored(m, s.blocks) && FirstBlock(s.blocks, want) < |s.blocks|
    requires var i := FirstBlock(s.blocks, want); var b := s.blocks[i]; var k := FirstFit(b.chunks, want);
      && BlockAt(n, CarveBlock(b, k, want), BaseOf(s.blocks, i + 1))
      && Confined(m, n, b.base, b.chunks[k].addr, AddrOf(b.chunks, k + 1, b.End()) + 4)
    ensures Stored(n, AllocStep(s, want).0.blocks)
    ensures PayloadsKept(m, n, LiveChunks(s)) && OnlyInBlocks(m, n, s.blocks)
  {
    hide BlockAt, Stored, Confined, PayloadsKept, OnlyInBlocks, CarveBlock, Placed;
    var i := FirstBlock(s.blocks, want);
    var b := s.blocks[i];
    var k := FirstFit(b.chunks, want);
    InvPlaced(s);
    ConfinedInside(b, m, n, k, k + 1);
    CarveKeepsFrame(b, k, want);
    StoredUpdate(m, n, s.blocks, i, CarveBlock(b, k, want));
    if b.chunks[k] in LiveChunks(s) { NotLive(s, b.chunks[k]); }
    ConfinedKeeps(s, m, n, i, k, k + 1, LiveChunks(s));
  }

  lemma CarveKeepsFrame(b: Block, k: nat, n: nat)
    requires k < |b.chunks| && Fits(b.chunks[k], n)
    ensures CarveBlock(b, k, n).base == b.base && CarveBlock(b, k, n).size == b.size
  {
  }

  lemma KeptRefl(m: seq<byte>, s: State)
    ensures PayloadsKept(m, m, LiveChunks(s)) && OnlyInBlocks(m, m, s.blocks)
  {
  }

  lemma NotLive(s: State, c: Chunk)
    requires c in LiveChunks(s)
    ensures c.used
  {
  }

  /** AddBlock's stores miss every older block and every live payload. */
  lemma AddApart(s: State, m: seq<byte>, n: seq<byte>, base: nat, size: nat, i: nat)
    requires Inv(s) && Stored(m, s.blocks) && CanAdd(s, base, size) && base + size <= |m|
    requires SameOutside(m, n, base, base + RECORD + HEADER) && i < |s.blocks|
    ensures BlockAt(n, s.blocks[i], BaseOf(s.blocks, i + 1))
    ensures forall c :: c in Live(s.blocks[i].chunks) ==> SameOn(m, n, c.Payload(), c.Next())
  {
    hide BlockAt, Stored;
    StoredBlock(m, s.blocks, i);
    assert Apart(s.blocks[i], Pristine(base, size));
    BlockUntouched(m, n, s.blocks[i], BaseOf(s.blocks, i + 1));
    forall c | c in Live(s.blocks[i].chunks) ensures SameOn(m, n, c.Payload(), c.Next()) {
      LiveInside(s.blocks[i], c);
    }
  }

  /** The new block is well-formed in memory exactly when the word never stored to is 0. */
  lemma {:induction false} AddedBlock(n: seq<byte>, base: nat, size: nat, next: nat)
    requires MIN_BLOCK <= size < MIN_BLOCK + TWO31 && base + size <= |n|
    requires Peek(n, base) == size && Peek(n, base + 4) == 0 && Peek(n, base + 8) == next
    requires Peek(n, base + RECORD + 4) == size - MIN_BLOCK
    ensures BlockAt(n, Pristine(base, size), next) <==> Peek(n, base + RECORD) == 0
  {
    hide Peek;
    var cs := Pristine(base, size).chunks;
    if Peek(n, base + RECORD) == 0 { assert HeaderAt(n, cs, 0, 0); }
    if Headers(n, cs, 0) { assert HeaderAt(n, cs, 0, 0); }
  }

  /** Memory after AddBlock's stores. */
  lemma AddStored(s: State, m: seq<byte>, n: seq<byte>, base: nat, size: nat)
    requires Inv(s) && Stored(m, s.blocks) && CanAdd(s, base, size) && base + size <= |m|
    requires SameOutside(m, n, base, base + RECORD + HEADER)
    requires BlockAt(n, Pristine(base, size), BaseOf(s.blocks, 0)) <==> Peek(n, base + RECORD) == 0
    ensures Stored(n, AddStep(s, base, size).blocks) <==> Peek(n, base + RECORD) == 0
    ensures PayloadsKept(m, n, LiveChunks(s))
  {
    hide Peek, BlockAt, SameOn, Inv;
    var bs := AddStep(s, base, size).blocks;
    forall i | 0 <= i < |bs| && (i == 0 ==> Peek(n, base + RECORD) == 0) ensures BlockAt(n, bs[i], BaseOf(bs, i + 1)) {
      if i > 0 { AddApart(s, m, n, base, size, i - 1); }
    }
    if Stored(n, bs) { StoredBlock(n, bs, 0); }
    forall c | c in LiveChunks(s) ensures SameOn(m, n, c.Payload(), c.Next()) {
      var i :| 0 <= i < |s.blocks| && c in Live(s.blocks[i].chunks);
      AddApart(s, m, n, base, size, i);
    }
  }

  /** Between clearing the flag and finding the block, memory holds the heap with chunk k released. */
  lemma UnflagStored(s: State, m: seq<byte>, n: seq<byte>, i: nat, k: nat)
    requires Inv(s) && Stored(m, s.blocks) && i < |s.blocks| && k < |s.blocks[i].chunks|
    requires var b := s.blocks[i];
      && BlockAt(n, b.(chunks := Release(b.chunks, k)), BaseOf(s.blocks, i + 1))
      && Confined(m, n, b.base, b.chunks[k].addr, AddrOf(b.chunks, k + 1, b.End()) + 4)
    ensures Stored(n, s.blocks[i := s.blocks[i].(chunks := Release(s.blocks[i].chunks, k))])
  {
    hide BlockAt, Stored, Confined, Release;
    var b := s.blocks[i];
    InvPlaced(s);
    ConfinedInside(b, m, n, k, k + 1);
    StoredUpdate(m, n, s.blocks, i, b.(chunks := Release(b.chunks, k)));
  }

  /** After both merges, memory holds the heap after Free. */
  lemma {:induction false} FreeStored(s: State, m: seq<byte>, n: seq<byte>, i: nat, k: nat)
    requires Inv(s) && Stored(m, s.blocks) && i < |s.blocks| && k < |s.blocks[i].chunks|
    requires BlockAt(n, FreeBlock(s.blocks[i], k), BaseOf(s.blocks, i + 1)) && FreeConfined(m, n, s.blocks[i], k)
    ensures Stored(n, s.blocks[i := FreeBlock(s.blocks[i], k)])
  {
    hide BlockAt, Stored, Confined, FreeBlock;
    var b := s.blocks[i];
    InvPlaced(s);
    ConfinedInside(b, m, n, JoinLo(b.chunks, k), JoinHi(b.chunks, k));
    FreeKeepsFrame(b, k);
    StoredUpdate(m, n, s.blocks, i, FreeBlock(b, k));
  }

  /** Freeing chunk k writes only to the chunks it joins, and the `prevsize` after them. */
  ghost predicate FreeConfined(m: seq<byte>, n: seq<byte>, b: Block, k: nat)
    requires k < |b.chunks|
  {
    Confined(m, n, b.base, b.chunks[JoinLo(b.chunks, k)].addr, AddrOf(b.chunks, JoinHi(b.chunks, k), b.End()) + 4)
  }

  /** Every other live payload survives a free. */
  lemma FreeKeeps(s: State, m: seq<byte>, n: seq<byte>, i: nat, k: nat)
    requires Inv(s) && i < |s.blocks| && k < |s.blocks[i].chunks| && s.blocks[i].chunks[k].used
    requires FreeConfined(m, n, s.blocks[i], k)
    ensures PayloadsKept(m, n, LiveChunks(s) - {s.blocks[i].chunks[k]}) && OnlyInBlocks(m, n, s.blocks)
  {
    hide Confined, PayloadsKept, OnlyInBlocks, Placed, LiveChunks;
    var b := s.blocks[i];
    var c, lo, hi := b.chunks[k], JoinLo(b.chunks, k), JoinHi(b.chunks, k);
    InvPlaced(s);
    forall x | lo <= x < hi ensures b.chunks[x] !in LiveChunks(s) - {c} {
      if b.chunks[x] in LiveChunks(s) { NotLive(s, b.chunks[x]); }
    }
    ConfinedKeeps(s, m, n, i, lo, hi, LiveChunks(s) - {c});
  }

  lemma LiveAt(s: State, i: nat, k: nat)
    requires i < |s.blocks| && k < |s.blocks[i].chunks| && s.blocks[i].chunks[k].used
    ensures s.blocks[i].chunks[k] in LiveChunks(s)
  {
    assert s.blocks[i].chunks[k] in Live(s.blocks[i].chunks);
  }

  lemma FreeKeepsFrame(b: Block, k: nat)
    requires k < |b.chunks|
    ensures FreeBlock(b, k).base == b.base && FreeBlock(b, k).size == b.size
  {
  }

  /**
    The sum of line 82 is a 32-bit word: the test accepts the pointers of a block exactly when the
    block ends below 4 GiB. In a block that ends there, Free would find none of its own pointers.
   */
  lemma BlockTestIff(b: Block, ptr: word)
    requires 0 < b.base && b.base + b.size <= TWO32 && b.base < ptr as int < b.base + b.size
    ensures b.base < ptr as int < Wrap(b.base + b.size) as int <==> b.base + b.size < TWO32
  {
  }

  /** Free's search of the block list for the block that contains `ptr` (lines 80-82). */
  method FindBlock(ram: array<byte>, fblock: word, ptr: word, ghost bs: seq<Block>, ghost i: nat) returns (hb: word)
    requires Stored(ram[..], bs) && fblock == BaseOf(bs, 0)
    requires i < |bs| && bs[i].base < ptr as int < bs[i].base + bs[i].size
    requires forall j :: 0 <= j < i ==> !(bs[j].base < ptr as int < bs[j].base + bs[j].size)
    requires forall j :: 0 <= j <= i ==> bs[j].base + bs[j].size < TWO32
    ensures hb as int == bs[i].base
  {
    hide Peek, BlockAt;
    hb := fblock;
    ghost var j := 0;
    StoredBlock(ram[..], bs, j);
    ReadBlock(ram[..], bs[j], BaseOf(bs, j + 1));
    while !(ptr as int > hb as int && (ptr as int) < Wrap(hb as int + Peek(ram[..], hb as int) as int) as int)
      invariant j <= i && hb as int == bs[j].base && hb as int + MIN_BLOCK <= ram.Length
      invariant Peek(ram[..], hb as int) == bs[j].size && Peek(ram[..], hb as int + 8) == BaseOf(bs, j + 1)
      decreases i - j
    {
      j := j + 1;
      hb := Peek(ram[..], hb as int + 8);
      StoredBlock(ram[..], bs, j);
      ReadBlock(ram[..], bs[j], BaseOf(bs, j + 1));
    }
  }

  /** The stores of Free, from clearing the flag to the second merge; returns what `used` lost. */
  method FreeChunk(ram: array<byte>, fblock: word, ptr: word, ghost s: State) returns (refund: int)
    requires Inv(s) && Stored(ram[..], s.blocks) && fblock == BaseOf(s.blocks, 0) && LivePointer(s, ptr)
    modifies ram
    ensures var i := BlockOf(s.blocks, ptr); var b := s.blocks[i]; var k := ChunkOf(b.chunks, ptr);
      && refund == Refund(b.chunks, k)
      && BlockAt(ram[..], FreeBlock(b, k), BaseOf(s.blocks, i + 1))
      && FreeConfined(old(ram[..]), ram[..], b, k)
  {
    hide Peek, BlockAt, Stored, Confined, FreeBlock, Release, Refund, Inv, Tiled, BlockOk;
    ghost var i := BlockOf(s.blocks, ptr);
    ghost var b, next := s.blocks[i], BaseOf(s.blocks, i + 1);
    ghost var k := ChunkOf(b.chunks, ptr);
    ghost var m := ram[..];
    StoredBlock(m, s.blocks, i);
    BlockFacts(s, i);
    RegionOrder(b, k);
    var hdr := ptr as int - HEADER;
    Unflag(ram, hdr, b, next, k);
    ghost var m1 := ram[..];
    UnflagStored(s, m, m1, i, k);
    BelowTop(s);
    var hb := FindBlock(ram, fblock, ptr, s.blocks[i := b.(chunks := Release(b.chunks, k))], i);
    refund := JoinChunk(ram, hb as int, hdr, b, next, k);
    ghost var lo, hi := b.chunks[JoinLo(b.chunks, k)].addr, AddrOf(b.chunks, JoinHi(b.chunks, k), b.End()) + 4;
    ConfinedJoin(m, m1, ram[..], b.base, lo, hi, hdr, AddrOf(b.chunks, k + 1, b.End()) + 4, lo, hi);
  }

  lemma BelowTop(s: State)
    requires Inv(s)
    ensures forall j :: 0 <= j < |s.blocks| ==> s.blocks[j].base + s.blocks[j].size < TWO32
  {
  }

  lemma BlockFacts(s: State, i: nat)
    requires Inv(s) && i < |s.blocks|
    ensures var b := s.blocks[i];
      && 0 < b.base && BlockOk(b) && Tiled(b.chunks, b.Start(), b.End()) && 0 <= b.used <= b.size - MIN_BLOCK
  {
    UsedBound(s.blocks[i]);
  }

  /** Alloc's work on the chunk it found; returns the bytes charged. */
  method CarveChunk(ram: array<byte>, hb: nat, hdr: nat, n: word, ghost b: Block, ghost next: nat, ghost k: nat)
    returns (charge: int)
    requires hb == b.base && BlockAt(ram[..], b, next) && BlockOk(b)
    requires k < |b.chunks| && Fits(b.chunks[k], n) && hdr == b.chunks[k].addr
    modifies ram
    ensures charge == Charge(b.chunks[k], n)
    ensures BlockAt(ram[..], CarveBlock(b, k, n), next)
    ensures Confined(old(ram[..]), ram[..], hb, hdr, AddrOf(b.chunks, k + 1, b.End()) + 4)
  {
    hide BlockAt, Confined, CarveBlock, Peek;
    UsedBound(b);
    ReadBlock(ram[..], b, next);
    ReadChunk(ram[..], b, next, k);
    FreeChunkBound(b.chunks, k);
    var sz := LowBits(Peek(ram[..], hdr + 4)) as int;
    if sz > n as int + HEADER + 16 {
      SplitChunk(ram, hb, hdr, n, b, next, k);
      charge := n as int + HEADER;
    } else {
      TakeWhole(ram, hb, hdr, n, b, next, k);
      charge := sz;
    }
  }

  class KernelHeap {
    const ram: array<byte>
    var fblock: word
    var bcnt: word
    var memInUse: word
    var size: word
    ghost var blocks: seq<Block>

    ghost function Abstract(): State
      reads this
    {
      State(blocks, bcnt, memInUse, size)
    }

    /** The abstract heap is sound and memory holds it. */
    ghost predicate Valid()
      reads this, ram
    {
      && ram.Length <= TWO32
      && fblock == BaseOf(blocks, 0)
      && Inv(Abstract())
      && Stored(ram[..], blocks)
    }

    constructor (memory: array<byte>)
      requires memory.Length <= TWO32
      ensures ram == memory && Valid() && Abstract() == EMPTY
    {
      ram := memory;
      fblock, bcnt, memInUse, size := 0, 0, 0, 0;
      blocks := [];
    }

    /**
      k_heapLCABAddBlock. As in the source, nothing is stored in the first header's `prevsize`:
      the heap is well-formed afterwards exactly when that word already held 0.
     */
    method AddBlock(addr: word, sz: word)
      requires Valid() && CanAdd(Abstract(), addr, sz) && addr as int + sz as int <= ram.Length
      modifies this, ram
      ensures Abstract() == AddStep(old(Abstract()), addr, sz) && LiveChunks(Abstract()) == LiveChunks(old(Abstract()))
      ensures Valid() <==> old(Peek(ram[..], addr as int + RECORD)) == 0
      ensures SameOutside(old(ram[..]), ram[..], addr, addr as int + RECORD + HEADER)
      ensures PayloadsKept(old(ram[..]), ram[..], LiveChunks(old(Abstract())))
    {
      hide Peek, PayloadsKept, Stored, Inv, LiveChunks, BlockAt, Tiled, Apart;
      ghost var s, m := Abstract(), ram[..];
      size := Wrap(size as int + sz as int);
      Poke(ram, addr as int, sz);
      Poke(ram, addr as int + 4, 0);
      Poke(ram, addr as int + 8, fblock);
      fblock := addr;
      Poke(ram, addr as int + RECORD + 4, sz as int - MIN_BLOCK);
      bcnt := Wrap(bcnt as int + 1);
      blocks := [Pristine(addr, sz)] + blocks;
      AddInv(s, addr, sz);
      AddLive(s, addr, sz);
      AddedBlock(ram[..], addr, sz, BaseOf(s.blocks, 0));
      AddStored(s, m, ram[..], addr, sz);
    }

    /** Alloc from the chunk at `hdr` of the block at `hb`, the first that fits (lines 214-239). */
    method Grant(hb: word, hdr: nat, n: word) returns (ptr: word)
      requires Valid() && FirstBlock(blocks, n) < |blocks|
      requires var b := blocks[FirstBlock(blocks, n)]; hb == b.base && hdr == b.chunks[FirstFit(b.chunks, n)].addr
      modifies this, ram
      ensures (Abstract(), ptr) == AllocStep(old(Abstract()), n) && Stored(ram[..], blocks)
      ensures Valid() <==> CanAlloc(old(Abstract()), n)
      ensures PayloadsKept(old(ram[..]), ram[..], old(LiveChunks(Abstract())))
      ensures OnlyInBlocks(old(ram[..]), ram[..], old(blocks))
    {
      hide CanAlloc, BlockAt, Stored, BlockOk, PayloadsKept, OnlyInBlocks, Confined, CarveBlock, Peek, Apart,
        FirstBlock, FirstFit, Inv, LiveChunks, Carve, Charge;
      ghost var s, m, i := Abstract(), ram[..], FirstBlock(blocks, n);
      ghost var b, next := blocks[i], BaseOf(blocks, i + 1);
      ghost var k := FirstFit(b.chunks, n);
      StoredBlock(m, blocks, i);
      ReadBlock(m, b, next);
      BlockFacts(s, i);
      ReadChunk(m, b, next, k);
      AllocInv(s, n);
      CarveKeepsFrame(b, k, n);
      var charge := CarveChunk(ram, hb as int, hdr, n, b, next, k);
      AllocStored(s, m, ram[..], n);
      memInUse := Wrap(memInUse as int + charge);
      blocks := blocks[i := CarveBlock(b, k, n)];
      assert Abstract() == AllocStep(s, n).0;
      ptr := hdr + HEADER;
    }

    /**
      k_heapLCABAlloc: first fit in list order, then address order. The heap is well-formed
      afterwards unless a request for 0 bytes split a chunk.
     */
    method Alloc(n: word) returns (ptr: word)
      requires Valid()
      modifies this, ram
      ensures (Abstract(), ptr) == AllocStep(old(Abstract()), n) && Stored(ram[..], blocks)
      ensures Valid() <==> CanAlloc(old(Abstract()), n)
      ensures PayloadsKept(old(ram[..]), ram[..], old(LiveChunks(Abstract())))
      ensures OnlyInBlocks(old(ram[..]), ram[..], old(blocks))
    {
      hide BlockAt, Stored, BlockOk, PayloadsKept, OnlyInBlocks, Peek, Inv, Tiled, FirstFit;
      ghost var s, m := Abstract(), ram[..];
      var hb := fblock;
      ghost var i := 0;
      while hb != 0
        invariant Valid() && Abstract() == s && ram[..] == m
        invariant i <= |blocks| && hb == BaseOf(blocks, i)
        invariant forall j :: 0 <= j < i ==> FirstFit(blocks[j].chunks, n) == |blocks[j].chunks|
        decreases |blocks| - i
      {
        ghost var b, next := blocks[i], BaseOf(blocks, i + 1);
        StoredBlock(ram[..], blocks, i);
        ReadBlock(ram[..], b, next);
        BlockFacts(s, i);
        if Peek(ram[..], hb as int) as int - Peek(ram[..], hb as int + 4) as int >= Wrap(n as int + HEADER) as int {
          var hdr := FindChunk(ram, hb as int, n, b, next);
          if hdr != 0 {
            assert FirstBlock(blocks, n) == i;
            ptr := Grant(hb, hdr, n);
            return;
          }
        } else {
          QuickReject(b, n);
        }
        hb := Peek(ram[..], hb as int + 8);
        i := i + 1;
      }
      if i < |blocks| { BlockFacts(s, i); }
      KeptRefl(m, s);
      return 0;
    }

    /** k_heapLCABFree of a live pointer. */
    method Free(ptr: word)
      requires Valid() && LivePointer(Abstract(), ptr)
      modifies this, ram
      ensures Valid() && Abstract() == FreeStep(old(Abstract()), ptr)
      ensures PayloadsKept(old(ram[..]), ram[..], LiveChunks(Abstract()))
      ensures OnlyInBlocks(old(ram[..]), ram[..], old(blocks))
    {
      hide Peek, BlockAt, Stored, PayloadsKept, OnlyInBlocks, LiveChunks, FreeBlock, Refund, Inv, FreeConfined;
      ghost var s, m := Abstract(), ram[..];
      ghost var i := BlockOf(blocks, ptr);
      ghost var b := blocks[i];
      ghost var k := ChunkOf(b.chunks, ptr);
      var refund := FreeChunk(ram, fblock, ptr, s);
      memInUse := Wrap(memInUse as int - refund);
      blocks := blocks[i := FreeBlock(b, k)];
      FreeInv(s, ptr);
      assert Abstract() == FreeStep(s, ptr);
      FreeStored(s, m, ram[..], i, k);
      FreeKeeps(s, m, ram[..], i, k);
      LiveAt(s, i, k);
      FreeLive(s, b.chunks[k]);
    }
  }
}
