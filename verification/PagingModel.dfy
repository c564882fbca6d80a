// Two-level page tables (mem/paging.h) as functions on physical memory: the format is that of
// section 4.3 (32-bit paging) of the Intel 64 and IA-32 SDM, Volume 3A.
module PagingModel {
  import opened Machine
  import opened Frames

  const ENTRIES: nat := 1024       // PAGES_PER_TABLE, TABLES_PER_DIR
  const PAGE_SIZE: nat := 4096
  const TABLE_SPAN: nat := 0x40_0000
  const PAGES: nat := 0x10_0000    // pages of the 32-bit space

  datatype Option<T> = None | Some(value: T)

  /** Physical memory as words, 1024 to a block; the blocks taken; whether die() was called. */
  datatype State = State(mem: seq<word>, taken: set<nat>, halted: bool)

  // ---------------------------------------------------------------- addresses and entries

  function DirIdx(v: word): nat { v as int / TABLE_SPAN }
  function TabIdx(v: word): nat { v as int / PAGE_SIZE % ENTRIES }
  function PageOf(v: word): nat { v as int / PAGE_SIZE }

  /** The index in physical memory of entry `idx` of the table in block `block`. */
  function At(block: nat, idx: nat): nat { 1024 * block + idx }

  // The masks of lines 14-92 on 32-bit words, as arithmetic.
  predicate Present(e: word) { e as int % 2 == 1 }
  function OrPresent(e: word): word { if e as int % 2 == 0 then e as int + 1 else e }
  function OrWritable(e: word): word { if e as int / 2 % 2 == 0 then e as int + 2 else e }
  function DropPresent(e: word): word { e as int - e as int % 2 }
  function PageAddr(e: word): word { e as int - e as int % PAGE_SIZE }

  /** `(e & ~0x7FFFF000) | addr`, for page-aligned `addr`: bit 31 of `e` is kept. */
  function SetFrame(e: word, addr: word): word
    requires addr as int % PAGE_SIZE == 0
  {
    e as int % PAGE_SIZE + addr as int % TWO31 + if e as int >= TWO31 || addr as int >= TWO31 then TWO31 else 0
  }

  /** An entry with bit 31 left over from an earlier mapping. */
  predicate Stale(e: word, addr: word) { e as int >= TWO31 && (addr as int) < TWO31 }

  function Mapped(e: word, addr: word): word
    requires addr as int % PAGE_SIZE == 0
  {
    OrWritable(OrPresent(SetFrame(e, addr)))
  }

  lemma MappedEntry(e: word, addr: word)
    requires addr as int % PAGE_SIZE == 0
    ensures Present(Mapped(e, addr))
    ensures PageAddr(Mapped(e, addr)) as int == addr as int + if Stale(e, addr) then TWO31 else 0
    ensures (e as int) < TWO31 && (addr as int) < TWO31 ==> (Mapped(e, addr) as int) < TWO31
    ensures e == 0 ==> Mapped(e, addr) as int == addr as int + 3
    ensures Mapped(e, addr) as int % 4 == 3 && Mapped(e, addr) as int % 4096 / 4 == e as int % 4096 / 4
  {
    hide OrWritable, OrPresent;
    NoFlags();
    var low, k := e as int % PAGE_SIZE, addr as int / PAGE_SIZE;
    var top := addr as int + if Stale(e, addr) then TWO31 else 0;
    var j := k + if Stale(e, addr) then 0x8_0000 else 0;
    assert top == PAGE_SIZE * j;
    if addr as int >= TWO31 { assert addr as int % TWO31 == addr as int - TWO31; }
    assert SetFrame(e, addr) as int == low + PAGE_SIZE * j;
    LowBits12(low, j);
  }

  lemma NoFlags()
    ensures OrWritable(OrPresent(0)) == 3
  {
  }

  lemma Halves(a: nat, b: nat)
    ensures (a + 2 * b) % 2 == a % 2 && (a + 2 * b) / 2 == a / 2 + b
  {
  }

  lemma Pages(a: nat, b: nat)
    requires a < PAGE_SIZE
    ensures (a + PAGE_SIZE * b) % PAGE_SIZE == a
  {
  }

  lemma PresentAbove(low: word, k: nat)
    requires (low as int) < PAGE_SIZE && low as int + PAGE_SIZE * k < TWO32
    ensures OrPresent(low as int + PAGE_SIZE * k) as int == OrPresent(low) as int + PAGE_SIZE * k
    ensures low as int <= OrPresent(low) as int < PAGE_SIZE && Present(OrPresent(low))
  {
    Halves(low, 2048 * k);
  }

  lemma WritableAbove(low: word, k: nat)
    requires (low as int) < PAGE_SIZE && low as int + PAGE_SIZE * k < TWO32 && Present(low)
    ensures OrWritable(low as int + PAGE_SIZE * k) as int == OrWritable(low) as int + PAGE_SIZE * k
    ensures low as int <= OrWritable(low) as int < PAGE_SIZE && Present(OrWritable(low))
  {
    var h := low as int / 2;
    Halves(low, 2048 * k);
    Halves(h, 1024 * k);
    Halves(low, 1);
    if low as int + 2 >= PAGE_SIZE { assert h == 2047; }
  }

  lemma Fours(z: nat, j: nat)
    ensures (z + 4 * j) % 4 == z % 4
  {
  }

  lemma TwoFlags(low: nat)
    requires low < PAGE_SIZE
    ensures var z := OrWritable(OrPresent(low)) as int; z % 4 == 3 && z / 4 == low / 4
  {
    var q, r := low / 4, low % 4;
    Halves(r, 2 * q);
    assert OrPresent(low) as int == 4 * q + if r % 2 == 0 then r + 1 else r;
    var y := OrPresent(low) as int;
    assert y / 2 == 2 * q + (y - 4 * q) / 2;
    Halves((y - 4 * q) / 2, q);
  }

  /** The two flag bits are set below a page-aligned address without disturbing it. */
  lemma LowBits12(low: nat, k: nat)
    requires low < PAGE_SIZE && low + PAGE_SIZE * k < TWO32
    ensures var e := OrWritable(OrPresent(low + PAGE_SIZE * k)); var f := OrWritable(OrPresent(low));
      && f as int < PAGE_SIZE && e as int == f as int + PAGE_SIZE * k && Present(e)
      && PageAddr(e) as int == PAGE_SIZE * k && e as int % 4 == 3 && e as int % 4096 / 4 == low / 4
  {
    hide OrPresent, OrWritable;
    var y := OrPresent(low);
    PresentAbove(low, k);
    WritableAbove(y, k);
    var z := OrWritable(y) as int;
    Halves(z, 2048 * k);
    Pages(z, k);
    TwoFlags(low);
    Fours(z, 1024 * k);
  }

  // ---------------------------------------------------------------- translation

  ghost predicate Fits(s: State, dir: nat, max: nat) {
    0 < max <= MAX_BLOCKS && |s.mem| == ENTRIES * max && 0 < dir < max
  }

  /** The block of the table that serves directory slot i, when there is one. */
  function TableOf(s: State, dir: nat, i: nat): nat
    requires At(dir, i) < |s.mem|
  {
    s.mem[At(dir, i)] as int / PAGE_SIZE
  }

  /** Present directory entries name distinct, non-null, taken blocks; absent ones are zero. */
  ghost predicate Sound(s: State, dir: nat, max: nat) {
    && Fits(s, dir, max)
    && s.taken <= Range(0, max) && 0 in s.taken && dir in s.taken
    && (forall i :: 0 <= i < ENTRIES ==> SlotOk(s, dir, max, i))
    && (forall i, j :: 0 <= i < j < ENTRIES ==> TablesApart(s, dir, i, j))
  }

  ghost predicate TablesApart(s: State, dir: nat, i: nat, j: nat)
    requires At(dir, i) < |s.mem| && At(dir, j) < |s.mem|
  {
    Present(s.mem[At(dir, i)]) && Present(s.mem[At(dir, j)]) ==> TableOf(s, dir, i) != TableOf(s, dir, j)
  }

  ghost predicate SlotOk(s: State, dir: nat, max: nat, i: nat)
    requires Fits(s, dir, max) && i < ENTRIES
  {
    if Present(s.mem[At(dir, i)])
    then 0 < TableOf(s, dir, i) < max && TableOf(s, dir, i) != dir && TableOf(s, dir, i) in s.taken
    else s.mem[At(dir, i)] == 0
  }

  /** What the processor finds for page `pg`: the address of its frame, or a fault. */
  ghost function Lookup(s: State, dir: nat, max: nat, pg: nat): Option<nat>
    requires Sound(s, dir, max) && pg < PAGES
  {
    var pde := s.mem[At(dir, pg / ENTRIES)];
    if !Present(pde) then None else
      assert SlotOk(s, dir, max, pg / ENTRIES);
      var pte := s.mem[At(TableOf(s, dir, pg / ENTRIES), pg % ENTRIES)];
      if !Present(pte) then None else Some(PageAddr(pte) as int)
  }

  ghost function Translate(s: State, dir: nat, max: nat, v: word): Option<nat>
    requires Sound(s, dir, max)
  {
    match Lookup(s, dir, max, PageOf(v))
    case None => None
    case Some(frame) => Some(frame + v as int % PAGE_SIZE)
  }

  // ---------------------------------------------------------------- operations

  /** memset(table, 0, 4096) on block `block`. */
  function Zeroed(mem: seq<word>, block: nat): (r: seq<word>)
    ensures |r| == |mem|
    ensures forall i :: 0 <= i < |mem| ==> r[i] == if At(block, 0) <= i < At(block + 1, 0) then 0 else mem[i]
  {
    seq(|mem|, i requires 0 <= i < |mem| => if At(block, 0) <= i < At(block + 1, 0) then 0 else mem[i])
  }

  ghost function Update(s: State, a: nat, e: word): State
    requires a < |s.mem|
  {
    s.(mem := s.mem[a := e])
  }

  /** Lines 183-192: give directory slot i a zeroed table, halting when memory is full. */
  ghost function NewTable(s: State, dir: nat, max: nat, i: nat): State
    requires Sound(s, dir, max) && i < ENTRIES
  {
    hide Sound, Mapped;
    SlotAt(s, dir, max, i);
    var f := LeastFree(s.taken, 0, max);
    if f == max then s.(halted := true)
    else State(Zeroed(s.mem, f)[At(dir, i) := Mapped(s.mem[At(dir, i)], f * PAGE_SIZE)], s.taken + {f}, s.halted)
  }

  lemma NewTableSlots(s: State, dir: nat, max: nat, i: nat)
    requires Sound(s, dir, max) && i < ENTRIES && !Present(s.mem[At(dir, i)])
    ensures var f := LeastFree(s.taken, 0, max); var t := NewTable(s, dir, max, i);
      f < max ==>
        && Fits(t, dir, max) && t.mem[At(dir, i)] as int == f * PAGE_SIZE + 3 && TableOf(t, dir, i) == f
        && (forall k :: 0 <= k < ENTRIES && k != i ==> t.mem[At(dir, k)] == s.mem[At(dir, k)])
        && (forall k :: 0 <= k < ENTRIES ==> t.mem[At(f, k)] == 0)
        && (forall g, k :: 0 <= g < max && g != f && g != dir && 0 <= k < ENTRIES ==>
          t.mem[At(g, k)] == s.mem[At(g, k)])
  {
    hide Mapped;
    var f := LeastFree(s.taken, 0, max);
    assert SlotOk(s, dir, max, i);
    if f < max {
      assert (f * PAGE_SIZE) % PAGE_SIZE == 0;
      MappedEntry(s.mem[At(dir, i)], f * PAGE_SIZE);
      var t := NewTable(s, dir, max, i);
      forall g, k | 0 <= g < max && 0 <= k < ENTRIES && (g != dir || k != i)
        ensures t.mem[At(g, k)] == if g == f then 0 else s.mem[At(g, k)]
      {
        ZeroedAt(s.mem, f, g, k);
        assert At(g, k) != At(dir, i);
      }
    }
  }

  lemma ZeroedAt(mem: seq<word>, f: nat, g: nat, k: nat)
    requires k < ENTRIES && At(g, k) < |mem|
    ensures Zeroed(mem, f)[At(g, k)] == if g == f then 0 else mem[At(g, k)]
  {
    if g < f { assert At(g, k) < At(f, 0); }
    if g > f { assert At(g, k) >= At(f + 1, 0); }
  }

  lemma HaltSound(s: State, dir: nat, max: nat)
    requires Sound(s, dir, max)
    ensures Sound(s.(halted := true), dir, max)
    ensures forall pg: nat :: pg < PAGES ==> Lookup(s.(halted := true), dir, max, pg) == Lookup(s, dir, max, pg)
  {
    var t := s.(halted := true);
    forall k | 0 <= k < ENTRIES ensures SlotOk(t, dir, max, k) { assert SlotOk(s, dir, max, k); }
    forall j, k | 0 <= j < k < ENTRIES ensures TablesApart(t, dir, j, k) { assert TablesApart(s, dir, j, k); }
  }

  /** A new table maps nothing and disturbs nothing. */
  lemma NewTableSound(s: State, dir: nat, max: nat, i: nat)
    requires Sound(s, dir, max) && i < ENTRIES && !Present(s.mem[At(dir, i)])
    requires LeastFree(s.taken, 0, max) < max
    ensures var t := NewTable(s, dir, max, i); Sound(t, dir, max) && Present(t.mem[At(dir, i)])
  {
    hide NewTable, TableOf;
    var f, t := LeastFree(s.taken, 0, max), NewTable(s, dir, max, i);
    NewTableSlots(s, dir, max, i);
    NewTableTaken(s, dir, max, i);
    forall k | 0 <= k < ENTRIES ensures SlotOk(t, dir, max, k) {
      assert SlotOk(s, dir, max, k);
      if k != i { SameTable(s, t, dir, k); }
    }
    forall j, k | 0 <= j < k < ENTRIES ensures TablesApart(t, dir, j, k) {
      assert TablesApart(s, dir, j, k) && SlotOk(s, dir, max, j) && SlotOk(s, dir, max, k);
      if j != i { SameTable(s, t, dir, j); }
      if k != i { SameTable(s, t, dir, k); }
    }
  }

  lemma SlotAt(s: State, dir: nat, max: nat, i: nat)
    requires Sound(s, dir, max) && i < ENTRIES
    ensures Fits(s, dir, max) && At(dir, i) < |s.mem| && SlotOk(s, dir, max, i)
  {
  }

  lemma NewTableHalts(s: State, dir: nat, max: nat, i: nat)
    requires Sound(s, dir, max) && i < ENTRIES && LeastFree(s.taken, 0, max) == max
    ensures NewTable(s, dir, max, i) == s.(halted := true)
  {
  }

  lemma NewTableTaken(s: State, dir: nat, max: nat, i: nat)
    requires Sound(s, dir, max) && i < ENTRIES && LeastFree(s.taken, 0, max) < max
    ensures NewTable(s, dir, max, i).taken == s.taken + {LeastFree(s.taken, 0, max)}
    ensures NewTable(s, dir, max, i).halted == s.halted
  {
  }

  lemma SameTable(s: State, t: State, dir: nat, k: nat)
    requires At(dir, k) < |s.mem| && At(dir, k) < |t.mem| && s.mem[At(dir, k)] == t.mem[At(dir, k)]
    ensures TableOf(s, dir, k) == TableOf(t, dir, k)
  {
  }

  lemma NewTableLookup(s: State, dir: nat, max: nat, i: nat, pg: nat)
    requires Sound(s, dir, max) && i < ENTRIES && !Present(s.mem[At(dir, i)]) && pg < PAGES
    requires LeastFree(s.taken, 0, max) < max
    ensures Sound(NewTable(s, dir, max, i), dir, max)
    ensures Lookup(NewTable(s, dir, max, i), dir, max, pg) == Lookup(s, dir, max, pg)
  {
    hide NewTable, TableOf;
    var t, k := NewTable(s, dir, max, i), pg / ENTRIES;
    NewTableSound(s, dir, max, i);
    NewTableSlots(s, dir, max, i);
    assert SlotOk(s, dir, max, k);
    if k != i { SameTable(s, t, dir, k); }
  }

  /** The directory slot has a table afterwards, unless the machine halted. */
  ghost function WithTable(s: State, dir: nat, max: nat, i: nat): (t: State)
    requires Sound(s, dir, max) && !s.halted && i < ENTRIES
    ensures Sound(t, dir, max)
    ensures t.halted <==> !Present(s.mem[At(dir, i)]) && LeastFree(s.taken, 0, max) == max
    ensures !t.halted ==> Present(t.mem[At(dir, i)])
  {
    if Present(s.mem[At(dir, i)]) then s
    else if LeastFree(s.taken, 0, max) == max then HaltSound(s, dir, max); NewTable(s, dir, max, i)
    else NewTableSound(s, dir, max, i); NewTable(s, dir, max, i)
  }

  lemma PageIndices(v: word)
    ensures DirIdx(v) == PageOf(v) / ENTRIES < ENTRIES && TabIdx(v) == PageOf(v) % ENTRIES < ENTRIES
    ensures PageOf(v) < PAGES
  {
  }

  /** The entry of a mapped slot's table for page pg. */
  ghost function EntryOf(s: State, dir: nat, max: nat, pg: nat): (a: nat)
    requires Sound(s, dir, max) && pg < PAGES
    ensures a < |s.mem|
  {
    assert SlotOk(s, dir, max, pg / ENTRIES);
    At(TableOf(s, dir, pg / ENTRIES), pg % ENTRIES)
  }

  /** Writing one page-table entry changes the translation of its own page only. */
  lemma SetEntry(s: State, dir: nat, max: nat, pg: nat, e: word)
    requires Sound(s, dir, max) && pg < PAGES && Present(s.mem[At(dir, pg / ENTRIES)])
    ensures var t := Update(s, EntryOf(s, dir, max, pg), e);
      && Sound(t, dir, max)
      && Lookup(t, dir, max, pg) == (if Present(e) then Some(PageAddr(e) as int) else None)
      && forall q: nat :: q < PAGES && q != pg ==> Lookup(t, dir, max, q) == Lookup(s, dir, max, q)
  {
    hide TableOf;
    var t := Update(s, EntryOf(s, dir, max, pg), e);
    SetEntrySound(s, dir, max, pg, e);
    assert SlotOk(s, dir, max, pg / ENTRIES);
    SameTable(s, t, dir, pg / ENTRIES);
    forall q: nat | q < PAGES && q != pg ensures Lookup(t, dir, max, q) == Lookup(s, dir, max, q) {
      var i, j := pg / ENTRIES, q / ENTRIES;
      assert SlotOk(s, dir, max, j);
      SameTable(s, t, dir, j);
      if i < j { assert TablesApart(s, dir, i, j); }
      if j < i { assert TablesApart(s, dir, j, i); }
      if i == j { assert pg % ENTRIES != q % ENTRIES; }
    }
  }

  lemma SetEntrySound(s: State, dir: nat, max: nat, pg: nat, e: word)
    requires Sound(s, dir, max) && pg < PAGES && Present(s.mem[At(dir, pg / ENTRIES)])
    ensures var t := Update(s, EntryOf(s, dir, max, pg), e);
      Sound(t, dir, max) && forall k :: 0 <= k < ENTRIES ==> t.mem[At(dir, k)] == s.mem[At(dir, k)]
  {
    hide TableOf;
    var t := Update(s, EntryOf(s, dir, max, pg), e);
    assert SlotOk(s, dir, max, pg / ENTRIES);
    forall k | 0 <= k < ENTRIES ensures SlotOk(t, dir, max, k) && t.mem[At(dir, k)] == s.mem[At(dir, k)] {
      assert SlotOk(s, dir, max, k);
      SameTable(s, t, dir, k);
    }
    forall j, k | 0 <= j < k < ENTRIES ensures TablesApart(t, dir, j, k) {
      assert TablesApart(s, dir, j, k);
      SameTable(s, t, dir, j);
      SameTable(s, t, dir, k);
    }
  }

  // ---------------------------------------------------------------- map_page and free_page

  ghost function MapPage(s: State, dir: nat, max: nat, phys: word, virt: word): (t: State)
    requires Sound(s, dir, max) && phys as int % PAGE_SIZE == 0
    ensures Sound(t, dir, max)
  {
    if s.halted then s
    else
      PageIndices(virt);
      var t := WithTable(s, dir, max, DirIdx(virt));
      if t.halted then t
      else
        var a := EntryOf(t, dir, max, PageOf(virt));
        SetEntry(t, dir, max, PageOf(virt), Mapped(t.mem[a], phys));
        Update(t, a, Mapped(t.mem[a], phys))
  }

  /** free_page: when the table is absent, the entry it clears is a word of block 0. */
  ghost function FreePage(s: State, dir: nat, max: nat, virt: word): (t: State)
    requires Sound(s, dir, max)
  {
    PageIndices(virt);
    var a := EntryOf(s, dir, max, PageOf(virt));
    Update(s, a, DropPresent(s.mem[a]))
  }
}
