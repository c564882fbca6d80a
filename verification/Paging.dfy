// mem/paging.h: page tables built in place in physical memory, in blocks taken from the block map.
// Physical memory is addressed directly, as the kernel does before it enables paging.
module Paging {
  import opened Machine
  import opened Frames
  import opened PagingModel
  import opened PagingTheorems

  class AddressSpace {
    const frames: FrameMap
    const mem: array<word>  // physical memory
    const dir: nat          // the block of dir_current
    var halted: bool        // die() was called

    ghost function Abstract(): State
      reads this, mem, frames, frames.words
    {
      State(mem[..], frames.Taken(), halted)
    }

    ghost predicate Valid()
      reads this, mem, frames, frames.words
    {
      mem as object != frames.words && frames.Valid() && Sound(Abstract(), dir, frames.max)
    }

    /** A zeroed directory in a block already taken. */
    constructor (blocks: FrameMap, memory: array<word>, directory: nat)
      requires blocks.Valid() && memory as object != blocks.words && memory.Length == ENTRIES * blocks.max as int
      requires 0 < directory < blocks.max as int && directory in blocks.Taken() && 0 in blocks.Taken()
      requires forall k :: 0 <= k < ENTRIES ==> memory[At(directory, k)] == 0
      ensures frames == blocks && mem == memory && dir == directory && !halted && Valid()
      ensures forall pg: nat :: pg < PAGES ==> Lookup(Abstract(), dir, frames.max, pg) == None
    {
      frames, mem, dir, halted := blocks, memory, directory, false;
      new;
      blocks.TakenInRange();
    }

    /** alloc_block and memset: a zeroed table for directory slot i, or a halt. */
    method AddTable(i: nat)
      requires Valid() && !halted && i < ENTRIES && !Present(mem[At(dir, i)])
      modifies this, mem, frames, frames.words
      ensures Valid() && Abstract() == NewTable(old(Abstract()), dir, frames.max, i)
    {
      hide Sound, Mapped, SetFrame, OrPresent, OrWritable, LeastFree, Zeroed;
      ghost var s := Abstract();
      SlotAt(s, dir, frames.max, i);
      ghost var f := LeastFree(s.taken, 0, frames.max);
      var g := frames.AllocBlock();
      if g.Halted? {
        halted := true;
        HaltSound(s, dir, frames.max);
        return;
      }
      var table := g.addr as int / PAGE_SIZE;
      Clear(mem, table);
      var e := At(dir, i);
      SlotAt(s, dir, frames.max, i);
      DirNotFree(s, dir, frames.max);
      FirstEntry(g.addr);
      mem[e] := SetFrame(OrWritable(OrPresent(mem[e])), g.addr);
      NewTableSound(s, dir, frames.max, i);
    }

    /** map_page. */
    method MapOne(phys: word, virt: word)
      requires Valid() && !halted && phys as int % PAGE_SIZE == 0
      modifies this, mem, frames, frames.words
      ensures Valid() && Abstract() == MapPage(old(Abstract()), dir, frames.max, phys, virt)
    {
      hide Sound, Mapped, TableOf, NewTable;
      ghost var s := Abstract();
      PageIndices(virt);
      var i := virt as int / TABLE_SPAN;
      SlotAt(s, dir, frames.max, i);
      if !Present(mem[At(dir, i)]) {
        AddTable(i);
        if halted {
          return;
        }
      }
      ghost var t := Abstract();
      assert t == WithTable(s, dir, frames.max, i);
      SlotAt(t, dir, frames.max, i);
      var e := TableEntry(virt);
      SetEntrySound(t, dir, frames.max, PageOf(virt), Mapped(mem[e], phys));
      mem[e] := Mapped(mem[e], phys);
    }

    /** The index in physical memory of the page-table entry for `virt` (get_pagetable, get_page). */
    method TableEntry(virt: word) returns (e: nat)
      requires Valid()
      ensures PageOf(virt) < PAGES && e == EntryOf(Abstract(), dir, frames.max, PageOf(virt))
    {
      hide Sound;
      PageIndices(virt);
      SlotAt(Abstract(), dir, frames.max, DirIdx(virt));
      var table := PageAddr(mem[At(dir, virt as int / TABLE_SPAN)]);
      e := table as int / 4 + virt as int / PAGE_SIZE % ENTRIES;
    }

    /** free_page. */
    method FreeOne(virt: word)
      requires Valid() && !halted
      modifies mem
      ensures Valid() && Abstract() == FreePage(old(Abstract()), dir, frames.max, virt)
    {
      hide Sound, Lookup, EntryOf, TableOf, DropPresent;
      ghost var s := Abstract();
      FreePageUnmaps(s, dir, frames.max, virt);
      var e := TableEntry(virt);
      mem[e] := DropPresent(mem[e]);
      assert mem[..] == s.mem[e := DropPresent(s.mem[e])];
      assert Abstract() == Update(s, e, DropPresent(s.mem[e]));
    }

    /** map_pages. */
    method MapMany(phys: word, virt: word, amt: word)
      requires Valid() && !halted && phys as int % PAGE_SIZE == 0
      modifies this, mem, frames, frames.words
      ensures Valid() && Abstract() == MapPages(old(Abstract()), dir, frames.max, phys, virt, amt as int)
    {
      hide Sound, MapPage;
      var p, v, left := phys, virt, amt as int;
      while left > 0
        invariant Valid() && p as int % PAGE_SIZE == 0 && left >= 0
        invariant halted ==> left == 0
        invariant MapPages(Abstract(), dir, frames.max, p, v, left)
          == MapPages(old(Abstract()), dir, frames.max, phys, virt, amt as int)
      {
        MapPagesUnfold(Abstract(), dir, frames.max, p, v, left);
        MapOne(p, v);
        p, v := Wrap(p as int + PAGE_SIZE), Wrap(v as int + PAGE_SIZE);
        left := left - 1;
        if halted {
          HaltedStays(Abstract(), dir, frames.max, p, v, left);
          left := 0;
        }
      }
    }

    /** map_tables. */
    method MapWholes(phys: word, virt: word, amt: word)
      requires Valid() && !halted && phys as int % PAGE_SIZE == 0
      modifies this, mem, frames, frames.words
      ensures Valid() && Abstract() == MapTables(old(Abstract()), dir, frames.max, phys, virt, amt as int)
    {
      hide Sound, MapTable;
      var p, v, left := phys, virt, amt as int;
      while left > 0
        invariant Valid() && p as int % PAGE_SIZE == 0 && left >= 0
        invariant halted ==> left == 0
        invariant MapTables(Abstract(), dir, frames.max, p, v, left)
          == MapTables(old(Abstract()), dir, frames.max, phys, virt, amt as int)
      {
        TableBelow(p);
        MapWhole(p, v);
        p, v := Wrap(p as int + TABLE_SPAN), Wrap(v as int + TABLE_SPAN);
        left := left - 1;
        if halted {
          HaltedTables(Abstract(), dir, frames.max, p, v, left);
          left := 0;
        }
      }
    }

    /** map_table. */
    method MapWhole(phys: word, virt: word)
      requires Valid() && !halted && phys as int % PAGE_SIZE == 0
      modifies this, mem, frames, frames.words
      ensures Valid() && Abstract() == MapTable(old(Abstract()), dir, frames.max, phys, virt)
    {
      hide Sound, NewTable, Filled, FilledAt, FilledEntry, TableOf;
      ghost var s := Abstract();
      PageIndices(virt);
      var i := virt as int / TABLE_SPAN;
      SlotAt(s, dir, frames.max, i);
      if Present(mem[At(dir, i)]) {
        return;
      }
      MapTableSound(s, dir, frames.max, phys, virt);
      if LeastFree(s.taken, 0, frames.max) == frames.max as int { NewTableHalts(s, dir, frames.max, i); }
      AddTable(i);
      if halted {
        return;
      }
      NewTableSlots(s, dir, frames.max, i);
      NewTableSound(s, dir, frames.max, i);
      SlotAt(Abstract(), dir, frames.max, i);
      ghost var t := Abstract();
      var table := mem[At(dir, i)] as int / PAGE_SIZE;
      FillTable(mem, table, phys, virt);
      assert Abstract() == t.(mem := Filled(t.mem, table, phys, TabIdx(virt)));
    }
  }

  /** The directory entry of a new table, built from an empty slot: flags first, then the frame. */
  lemma FirstEntry(table: word)
    requires table as int % PAGE_SIZE == 0
    ensures SetFrame(OrWritable(OrPresent(0)), table) == Mapped(0, table)
  {
    MappedEntry(0, table);
    if table as int >= TWO31 { assert table as int % TWO31 == table as int - TWO31; }
  }

  /** memset(table, 0, 4096). */
  method Clear(mem: array<word>, table: nat)
    requires At(table + 1, 0) <= mem.Length
    modifies mem
    ensures mem[..] == Zeroed(old(mem[..]), table)
  {
    for k := 0 to ENTRIES
      invariant forall a :: 0 <= a < mem.Length ==>
        mem[a] == if At(table, 0) <= a < At(table, k) then 0 else old(mem[a])
    {
      mem[At(table, k)] := 0;
    }
  }

  /** The loop of lines 227-233. */
  method FillTable(mem: array<word>, table: nat, phys: word, virt: word)
    requires At(table + 1, 0) <= mem.Length && phys as int % PAGE_SIZE == 0
    modifies mem
    ensures mem[..] == Filled(old(mem[..]), table, phys, TabIdx(virt))
  {
    hide FilledEntry, Mapped, SetFrame, OrWritable, OrPresent, Wrap, TabIdx, Rotate;
    ghost var was := mem[..];
    var frame, v := phys, virt;
    ghost var first := TabIdx(virt);
    WrapWord(phys);
    WrapWord(virt);
    for i := 0 to ENTRIES
      invariant frame as int % PAGE_SIZE == 0
      invariant frame == Wrap(phys as int + PAGE_SIZE * i) && v == Wrap(virt as int + PAGE_SIZE * i)
      invariant forall a :: 0 <= a < mem.Length && !(At(table, 0) <= a < At(table + 1, 0)) ==> mem[a] == was[a]
      invariant forall j :: 0 <= j < i ==> mem[At(table, Rotate(first, j))] == FilledEntry(phys, j)
    {
      FrameBelow(phys, i);
      FrameBelow(phys, i + 1);
      FirstEntry(frame);
      TabIdxAt(virt, i);
      FilledIs(phys, i);
      MappedEntry(0, frame);
      mem[At(table, TabIdx(v))] := SetFrame(OrWritable(OrPresent(0)), frame);
      forall j | 0 <= j < i ensures Rotate(first, j) != Rotate(first, i) { SlotsDistinct(first, j, i); }
      WrapAgain(phys, i);
      WrapAgain(virt, i);
      frame, v := Wrap(frame as int + PAGE_SIZE), Wrap(v as int + PAGE_SIZE);
    }
    FilledFrom(was, mem[..], table, phys, first);
  }

  function Rotate(first: nat, j: nat): (r: nat)
    ensures r < ENTRIES
  {
    (first + j) % ENTRIES
  }

  lemma SlotsDistinct(first: nat, j: nat, i: nat)
    requires j < i < ENTRIES
    ensures Rotate(first, j) != Rotate(first, i)
  {
  }

  /** Memory whose table entries are the consecutive frames is the filled memory. */
  lemma FilledFrom(m: seq<word>, n: seq<word>, table: nat, phys: word, first: nat)
    requires phys as int % PAGE_SIZE == 0 && |n| == |m| && At(table + 1, 0) <= |m|
    requires forall a :: 0 <= a < |m| && !(At(table, 0) <= a < At(table + 1, 0)) ==> n[a] == m[a]
    requires forall j :: 0 <= j < ENTRIES ==> n[At(table, Rotate(first, j))] == FilledEntry(phys, j)
    ensures n == Filled(m, table, phys, first)
  {
    hide FilledEntry;
    forall a | 0 <= a < |m| ensures n[a] == FilledAt(m, table, phys, first, a) {
      if At(table, 0) <= a < At(table + 1, 0) {
        var k := a - At(table, 0);
        RotateBack(k, first);
        assert a == At(table, Rotate(first, (k - first) % ENTRIES));
      }
    }
  }

  lemma RotateBack(k: nat, first: nat)
    requires k < ENTRIES
    ensures 0 <= (k - first) % ENTRIES < ENTRIES && Rotate(first, (k - first) % ENTRIES) == k
  {
    var q := (k - first) / ENTRIES;
    assert k - first == ENTRIES * q + (k - first) % ENTRIES;
    assert first + (k - first) % ENTRIES == k + ENTRIES * (-q);
    Rotated(k, -q);
  }

  lemma Rotated(k: nat, q: int)
    requires k < ENTRIES
    ensures (k + ENTRIES * q) % ENTRIES == k
  {
  }

  lemma TabIdxAt(virt: word, i: nat)
    ensures TabIdx(Wrap(virt as int + PAGE_SIZE * i)) == Rotate(TabIdx(virt), i) < ENTRIES
  {
    var q, r := virt as int / PAGE_SIZE + i, virt as int % PAGE_SIZE;
    assert virt as int + PAGE_SIZE * i == PAGE_SIZE * q + r;
    PageOfWrapped(q, r);
    var h := q / ENTRIES;
    var k := (virt as int / PAGE_SIZE) / ENTRIES;
    assert q == ENTRIES * k + (TabIdx(virt) + i);
    AddMultiple(TabIdx(virt) + i, k);
  }

  lemma AddMultiple(a: nat, k: nat)
    ensures (ENTRIES * k + a) % ENTRIES == a % ENTRIES
  {
  }

  lemma PageOfWrapped(q: nat, r: nat)
    requires r < PAGE_SIZE
    ensures TabIdx(Wrap(PAGE_SIZE * q + r)) == q % ENTRIES
  {
    var h, l := q / PAGES, q % PAGES;
    assert PAGE_SIZE * q + r == TWO32 * h + (PAGE_SIZE * l + r);
    assert (TWO32 * h + (PAGE_SIZE * l + r)) % TWO32 == PAGE_SIZE * l + r;
    assert (PAGE_SIZE * l + r) / PAGE_SIZE == l;
    assert q == ENTRIES * (1024 * h) + l;
    AddMultiple(l, 1024 * h);
  }
}
