// What the mapping functions do to address translation, over the whole 32-bit space.
module PagingTheorems {
  import opened Machine
  import opened Frames
  import opened PagingModel

  // ---------------------------------------------------------------- one page

  /** The entry that map_page is about to overwrite: 0 when its table does not exist yet. */
  ghost function OldEntry(s: State, dir: nat, max: nat, pg: nat): word
    requires Sound(s, dir, max) && pg < PAGES
  {
    if Present(s.mem[At(dir, pg / ENTRIES)]) then s.mem[EntryOf(s, dir, max, pg)] else 0
  }

  /** The frame that an entry names once map_page(addr, _) has overwritten `e`: bit 31 of `e` stays. */
  function FrameOver(e: word, addr: word): nat { addr as int + if Stale(e, addr) then TWO31 else 0 }

  /** map_page as a new table, if one is needed, and one entry. */
  lemma {:induction false} MapPageParts(s: State, dir: nat, max: nat, phys: word, virt: word)
    requires Sound(s, dir, max) && phys as int % PAGE_SIZE == 0 && !s.halted
    ensures PageOf(virt) < PAGES
    ensures var t := WithTable(s, dir, max, PageOf(virt) / ENTRIES);
      !t.halted ==>
        && (forall q: nat :: q < PAGES ==> Lookup(t, dir, max, q) == Lookup(s, dir, max, q))
        && t.mem[EntryOf(t, dir, max, PageOf(virt))] == OldEntry(s, dir, max, PageOf(virt))
        && MapPage(s, dir, max, phys, virt)
             == Update(t, EntryOf(t, dir, max, PageOf(virt)), Mapped(OldEntry(s, dir, max, PageOf(virt)), phys))
  {
    hide Mapped, Lookup, NewTable;
    PageIndices(virt);
    var i := DirIdx(virt);
    var t := WithTable(s, dir, max, i);
    if !t.halted && !Present(s.mem[At(dir, i)]) {
      NewTableSlots(s, dir, max, i);
      forall q: nat | q < PAGES ensures Lookup(t, dir, max, q) == Lookup(s, dir, max, q) {
        NewTableLookup(s, dir, max, i, q);
      }
    }
  }

  /**
    After map_page(p, v) every address in v's page translates to p plus its offset, and 2 GiB more if
    the overwritten entry carried a bit 31 that p lacks; every other address translates as before.
   */
  lemma {:induction false} MapPageTranslates(s: State, dir: nat, max: nat, phys: word, virt: word, x: word)
    requires Sound(s, dir, max) && phys as int % PAGE_SIZE == 0 && !s.halted
    requires !MapPage(s, dir, max, phys, virt).halted
    ensures PageOf(virt) < PAGES
    ensures var after := Translate(MapPage(s, dir, max, phys, virt), dir, max, x);
      if PageOf(x) != PageOf(virt) then after == Translate(s, dir, max, x)
      else after == Some(FrameOver(OldEntry(s, dir, max, PageOf(virt)), phys) + x as int % PAGE_SIZE)
  {
    hide Mapped, Lookup, Update, Sound, TableOf, MapPage, OldEntry, EntryOf;
    PageIndices(x);
    MapPageParts(s, dir, max, phys, virt);
    PageIndices(virt);
    MapPageSplit(s, dir, max, phys, virt);
    var t := WithTable(s, dir, max, DirIdx(virt));
    var prior := OldEntry(s, dir, max, PageOf(virt));
    SetEntry(t, dir, max, PageOf(virt), Mapped(prior, phys));
    MappedEntry(prior, phys);
  }

  /** A page mapped to a frame of the upper 2 GiB and then to one of the lower reads the upper 2 GiB still. */
  lemma {:induction false} RemapFails(s: State, dir: nat, max: nat, high: word, low: word, virt: word, x: word)
    requires Sound(s, dir, max) && high as int % PAGE_SIZE == 0 && low as int % PAGE_SIZE == 0 && !s.halted
    requires (low as int) < TWO31 <= high as int && PageOf(x) == PageOf(virt)
    requires var t := MapPage(s, dir, max, high, virt); !t.halted && !MapPage(t, dir, max, low, virt).halted
    ensures Translate(MapPage(MapPage(s, dir, max, high, virt), dir, max, low, virt), dir, max, x)
      == Some(low as int + TWO31 + x as int % PAGE_SIZE)
  {
    hide Mapped, Lookup, MapPage, Sound, Translate;
    var t := MapPage(s, dir, max, high, virt);
    MapPageEntries(s, dir, max, high, virt);
    MappedEntry(OldEntry(s, dir, max, PageOf(virt)), high);
    MapPageTranslates(t, dir, max, low, virt, x);
  }

  /** The entries after map_page: its own is overwritten, every other is kept. */
  lemma {:induction false} MapPageEntries(s: State, dir: nat, max: nat, phys: word, virt: word)
    requires Sound(s, dir, max) && phys as int % PAGE_SIZE == 0 && !s.halted
    requires !MapPage(s, dir, max, phys, virt).halted
    ensures PageOf(virt) < PAGES
    ensures forall pg: nat :: pg < PAGES ==>
      OldEntry(MapPage(s, dir, max, phys, virt), dir, max, pg)
        == if pg == PageOf(virt) then Mapped(OldEntry(s, dir, max, pg), phys) else OldEntry(s, dir, max, pg)
  {
    hide Mapped, Lookup;
    PageIndices(virt);
    var t := WithTable(s, dir, max, DirIdx(virt));
    MapPageSplit(s, dir, max, phys, virt);
    MapPageParts(s, dir, max, phys, virt);
    WithTableEntries(s, dir, max, DirIdx(virt));
    forall pg: nat | pg < PAGES ensures OldEntry(MapPage(s, dir, max, phys, virt), dir, max, pg)
      == if pg == PageOf(virt) then Mapped(OldEntry(s, dir, max, pg), phys) else OldEntry(s, dir, max, pg)
    {
      UpdatedEntry(t, dir, max, PageOf(virt), Mapped(OldEntry(s, dir, max, PageOf(virt)), phys), pg);
    }
  }

  lemma MapPageSplit(s: State, dir: nat, max: nat, phys: word, virt: word)
    requires Sound(s, dir, max) && phys as int % PAGE_SIZE == 0 && !s.halted
    ensures PageOf(virt) / ENTRIES < ENTRIES && WithTable(s, dir, max, PageOf(virt) / ENTRIES).halted ==>
      MapPage(s, dir, max, phys, virt).halted
    ensures !WithTable(s, dir, max, DirIdx(virt)).halted ==>
      Present(WithTable(s, dir, max, DirIdx(virt)).mem[At(dir, DirIdx(virt))])
  {
    PageIndices(virt);
  }

  /** Running out of memory halts the machine with every translation as it was. */
  lemma MapPageHalts(s: State, dir: nat, max: nat, phys: word, virt: word)
    requires Sound(s, dir, max) && phys as int % PAGE_SIZE == 0 && !s.halted
    ensures MapPage(s, dir, max, phys, virt).halted
      <==> !Present(s.mem[At(dir, DirIdx(virt))]) && LeastFree(s.taken, 0, max) == max
    ensures MapPage(s, dir, max, phys, virt).halted ==> MapPage(s, dir, max, phys, virt) == s.(halted := true)
  {
    PageIndices(virt);
  }

  /**
    free_page unmaps its own page only. When the page has no table it was not mapped, and the call
    clears bit 0 of a word of block 0 instead, which no translation reads.
   */
  lemma FreePageUnmaps(s: State, dir: nat, max: nat, virt: word)
    requires Sound(s, dir, max)
    ensures PageOf(virt) < PAGES
    ensures var t := FreePage(s, dir, max, virt);
      && Sound(t, dir, max) && t.taken == s.taken
      && Lookup(t, dir, max, PageOf(virt)) == None
      && forall q: nat :: q < PAGES && q != PageOf(virt) ==> Lookup(t, dir, max, q) == Lookup(s, dir, max, q)
  {
    PageIndices(virt);
    var a := EntryOf(s, dir, max, PageOf(virt));
    if Present(s.mem[At(dir, DirIdx(virt))]) {
      assert !Present(DropPresent(s.mem[a]));
      SetEntry(s, dir, max, PageOf(virt), DropPresent(s.mem[a]));
    } else {
      assert SlotOk(s, dir, max, DirIdx(virt));
      BlockZeroUnread(s, dir, max, TabIdx(virt), DropPresent(s.mem[a]));
    }
  }

  /** The word that free_page reaches for `virt`: with no table, a word of block 0. */
  ghost function FreedWord(s: State, dir: nat, max: nat, virt: word): (a: nat)
    requires Sound(s, dir, max)
    ensures a < |s.mem|
  {
    PageIndices(virt);
    var i, k := virt as int / 0x40_0000, virt as int / 4096 % 1024;
    assert SlotOk(s, dir, max, i);
    if s.mem[1024 * dir + i] as int % 2 == 1 then 1024 * (s.mem[1024 * dir + i] as int / 4096) + k else k
  }

  /** free_page clears bit 0 of that word; no other bit of memory, and no block, changes. */
  lemma FreePageWords(s: State, dir: nat, max: nat, virt: word)
    requires Sound(s, dir, max)
    ensures var t, a := FreePage(s, dir, max, virt), FreedWord(s, dir, max, virt);
      && t.taken == s.taken && t.halted == s.halted && |t.mem| == |s.mem|
      && t.mem[a] as int % 2 == 0 && t.mem[a] as int / 2 == s.mem[a] as int / 2
      && forall b :: 0 <= b < |s.mem| && b != a ==> t.mem[b] == s.mem[b]
  {
    PageIndices(virt);
    assert SlotOk(s, dir, max, DirIdx(virt));
  }

  /** What map_page will overwrite keeps its frame through a free: only bit 0 may differ. */
  lemma FreedEntry(s: State, dir: nat, max: nat, virt: word)
    requires Sound(s, dir, max)
    ensures PageOf(virt) < PAGES && Sound(FreePage(s, dir, max, virt), dir, max)
    ensures OldEntry(FreePage(s, dir, max, virt), dir, max, PageOf(virt)) as int / 2
      == OldEntry(s, dir, max, PageOf(virt)) as int / 2
  {
    hide FreePage, TableOf, Lookup;
    PageIndices(virt);
    FreePageUnmaps(s, dir, max, virt);
    FreePageWords(s, dir, max, virt);
    var t, i, a := FreePage(s, dir, max, virt), DirIdx(virt), FreedWord(s, dir, max, virt);
    SlotAt(s, dir, max, i);
    FreedOutside(s, dir, max, virt);
    assert t.mem[At(dir, i)] == s.mem[At(dir, i)];
    SameTable(s, t, dir, i);
    if Present(s.mem[At(dir, i)]) { assert a == EntryOf(s, dir, max, PageOf(virt)) by { TableIs(s, dir, i); } }
  }

  lemma TableIs(s: State, dir: nat, i: nat)
    requires At(dir, i) < |s.mem|
    ensures TableOf(s, dir, i) == s.mem[1024 * dir + i] as int / 4096
  {
  }

  /** It is no word of the directory. */
  lemma FreedOutside(s: State, dir: nat, max: nat, virt: word)
    requires Sound(s, dir, max)
    ensures !(1024 * dir <= FreedWord(s, dir, max, virt) < 1024 * dir + 1024)
  {
    PageIndices(virt);
    assert SlotOk(s, dir, max, DirIdx(virt));
  }

  /**
    A page freed and mapped again translates to its new frame, 2 GiB higher exactly if the entry before
    the free had a bit 31 that the frame lacks.
   */
  lemma {:induction false} MapAfterFree(s: State, dir: nat, max: nat, phys: word, virt: word, x: word)
    requires Sound(s, dir, max) && !s.halted && phys as int % PAGE_SIZE == 0 && PageOf(x) == PageOf(virt)
    requires Sound(FreePage(s, dir, max, virt), dir, max)
    requires !MapPage(FreePage(s, dir, max, virt), dir, max, phys, virt).halted
    ensures PageOf(virt) < PAGES
    ensures Translate(MapPage(FreePage(s, dir, max, virt), dir, max, phys, virt), dir, max, x)
      == Some(phys as int + x as int % 4096
          + if OldEntry(s, dir, max, PageOf(virt)) as int >= TWO31 && (phys as int) < TWO31 then TWO31 else 0)
  {
    hide FreePage, MapPage, Translate, OldEntry, Sound;
    FreedEntry(s, dir, max, virt);
    FreePageWords(s, dir, max, virt);
    MapPageTranslates(FreePage(s, dir, max, virt), dir, max, phys, virt, x);
    var e, g := OldEntry(s, dir, max, PageOf(virt)), OldEntry(FreePage(s, dir, max, virt), dir, max, PageOf(virt));
    assert e as int >= TWO31 <==> g as int >= TWO31;
  }

  /**
    What map_page does to memory, word for word. With a table present, its entry gets the frame and
    the two flags and keeps its other flags. Without one, the lowest free block is taken, zeroed but
    for that entry, and named by the directory. No other word changes.
   */
  lemma {:induction false} MapPageWords(s: State, dir: nat, max: nat, phys: word, virt: word)
    requires Sound(s, dir, max) && phys as int % PAGE_SIZE == 0 && !s.halted
    requires !MapPage(s, dir, max, phys, virt).halted
    ensures 1024 * dir + virt as int / 0x40_0000 < |s.mem|
    ensures var d, k := 1024 * dir + virt as int / 0x40_0000, virt as int / 4096 % 1024;
      var t := MapPage(s, dir, max, phys, virt);
      && |t.mem| == |s.mem|
      && if s.mem[d] as int % 2 == 1 then
           var a := 1024 * (s.mem[d] as int / 4096) + k;
           && a < |s.mem| && t.taken == s.taken
           && t.mem[a] as int % 4 == 3 && t.mem[a] as int % 4096 / 4 == s.mem[a] as int % 4096 / 4
           && t.mem[a] as int / 4096 * 4096
                == phys as int + (if s.mem[a] as int >= TWO31 && (phys as int) < TWO31 then TWO31 else 0)
           && forall b :: 0 <= b < |s.mem| && b != a ==> t.mem[b] == s.mem[b]
         else
           var f := LeastFree(s.taken, 0, max);
           && f < max && f != dir && t.taken == s.taken + {f}
           && forall b :: 0 <= b < |s.mem| ==>
                t.mem[b] as int == if b == 1024 * f + k then phys as int + 3
                  else if 1024 * f <= b < 1024 * f + 1024 then 0
                  else if b == d then 4096 * f + 3
                  else s.mem[b] as int
  {
    hide Mapped, NewTable, Sound, TableOf;
    PageIndices(virt);
    var i := DirIdx(virt);
    SlotAt(s, dir, max, i);
    TableIs(s, dir, i);
    if Present(s.mem[At(dir, i)]) {
      MapPagePresent(s, dir, max, phys, virt);
      MappedEntry(s.mem[EntryOf(s, dir, max, PageOf(virt))], phys);
    } else {
      FreshWords(s, dir, max, phys, virt);
    }
  }

  /** The same for a slot without a table. */
  lemma {:induction false} FreshWords(s: State, dir: nat, max: nat, phys: word, virt: word)
    requires Sound(s, dir, max) && phys as int % PAGE_SIZE == 0 && !s.halted
    requires At(dir, DirIdx(virt)) < |s.mem| && !Present(s.mem[At(dir, DirIdx(virt))])
    requires !MapPage(s, dir, max, phys, virt).halted
    ensures var t, f := MapPage(s, dir, max, phys, virt), LeastFree(s.taken, 0, max);
      && |t.mem| == |s.mem| && f < max && f != dir && t.taken == s.taken + {f}
      && forall b :: 0 <= b < |s.mem| ==>
           t.mem[b] as int == if b == At(f, TabIdx(virt)) then phys as int + 3
             else if At(f, 0) <= b < At(f + 1, 0) then 0
             else if b == At(dir, DirIdx(virt)) then 4096 * f + 3
             else s.mem[b] as int
  {
    hide Mapped, Sound, TableOf, NewTable;
    PageIndices(virt);
    var i, f := DirIdx(virt), LeastFree(s.taken, 0, max);
    MapPageHalts(s, dir, max, phys, virt);
    var t := NewTable(s, dir, max, i);
    NewTableSound(s, dir, max, i);
    NewTableWords(s, dir, max, i);
    SlotAt(t, dir, max, i);
    NewTableSlots(s, dir, max, i);
    MapPagePresent(t, dir, max, phys, virt);
    FreshTable(s, dir, max, phys, virt);
    MappedEntry(0, phys);
  }

  lemma NewTableWords(s: State, dir: nat, max: nat, i: nat)
    requires Sound(s, dir, max) && i < ENTRIES && !Present(s.mem[At(dir, i)])
    requires LeastFree(s.taken, 0, max) < max
    ensures var t, f := NewTable(s, dir, max, i), LeastFree(s.taken, 0, max);
      && |t.mem| == |s.mem| && f != dir && t.taken == s.taken + {f} && t.halted == s.halted
      && forall b :: 0 <= b < |s.mem| ==>
           t.mem[b] as int == if At(f, 0) <= b < At(f + 1, 0) then 0
             else if b == At(dir, i) then 4096 * f + 3
             else s.mem[b] as int
  {
    hide Mapped, Zeroed;
    NewTableSlots(s, dir, max, i);
  }

  /** Block 0 holds no table, so its words do not matter to any translation. */
  lemma BlockZeroUnread(s: State, dir: nat, max: nat, k: nat, e: word)
    requires Sound(s, dir, max) && k < ENTRIES
    ensures var t := Update(s, At(0, k), e);
      Sound(t, dir, max) && forall q: nat :: q < PAGES ==> Lookup(t, dir, max, q) == Lookup(s, dir, max, q)
  {
    hide TableOf;
    var t := Update(s, At(0, k), e);
    forall i | 0 <= i < ENTRIES ensures SlotOk(t, dir, max, i) {
      assert SlotOk(s, dir, max, i);
      SameTable(s, t, dir, i);
    }
    forall i, j | 0 <= i < j < ENTRIES ensures TablesApart(t, dir, i, j) {
      assert TablesApart(s, dir, i, j);
      SameTable(s, t, dir, i);
      SameTable(s, t, dir, j);
    }
    forall q: nat | q < PAGES ensures Lookup(t, dir, max, q) == Lookup(s, dir, max, q) {
      assert SlotOk(s, dir, max, q / ENTRIES);
      SameTable(s, t, dir, q / ENTRIES);
    }
  }

  // ---------------------------------------------------------------- map_pages

  ghost function MapPages(s: State, dir: nat, max: nat, phys: word, virt: word, n: nat): (t: State)
    requires Sound(s, dir, max) && phys as int % PAGE_SIZE == 0
    ensures Sound(t, dir, max)
    decreases n
  {
    if n == 0 then s
    else
      assert Wrap(phys as int + PAGE_SIZE) as int % PAGE_SIZE == 0;
      MapPages(MapPage(s, dir, max, phys, virt), dir, max, Wrap(phys as int + PAGE_SIZE),
        Wrap(virt as int + PAGE_SIZE), n - 1)
  }

  lemma WithTableEntries(s: State, dir: nat, max: nat, i: nat)
    requires Sound(s, dir, max) && !s.halted && i < ENTRIES && !WithTable(s, dir, max, i).halted
    ensures forall pg: nat :: pg < PAGES ==>
      OldEntry(WithTable(s, dir, max, i), dir, max, pg) == OldEntry(s, dir, max, pg)
  {
    hide TableOf, NewTable;
    var t := WithTable(s, dir, max, i);
    if !Present(s.mem[At(dir, i)]) {
      NewTableSlots(s, dir, max, i);
      forall pg: nat | pg < PAGES ensures OldEntry(t, dir, max, pg) == OldEntry(s, dir, max, pg) {
        var k := pg / ENTRIES;
        assert SlotOk(s, dir, max, k);
        if k != i { SameTable(s, t, dir, k); }
      }
    }
  }

  lemma UpdatedEntry(s: State, dir: nat, max: nat, pg: nat, e: word, q: nat)
    requires Sound(s, dir, max) && pg < PAGES && q < PAGES && Present(s.mem[At(dir, pg / ENTRIES)])
    ensures Sound(Update(s, EntryOf(s, dir, max, pg), e), dir, max)
    ensures OldEntry(Update(s, EntryOf(s, dir, max, pg), e), dir, max, q)
      == if q == pg then e else OldEntry(s, dir, max, q)
  {
    hide TableOf;
    var t, i, j := Update(s, EntryOf(s, dir, max, pg), e), pg / ENTRIES, q / ENTRIES;
    SetEntrySound(s, dir, max, pg, e);
    assert SlotOk(s, dir, max, i) && SlotOk(s, dir, max, j);
    SameTable(s, t, dir, i);
    SameTable(s, t, dir, j);
    if i < j { assert TablesApart(s, dir, i, j); }
    if j < i { assert TablesApart(s, dir, j, i); }
    if i == j && q != pg { assert pg % ENTRIES != q % ENTRIES; }
  }

  /** How many pages past that of `virt` page q lies, going round the address space. */
  function PagesPast(virt: word, q: nat): nat { (q - PageOf(virt)) % PAGES }

  /**
    map_pages maps n consecutive pages to n consecutive frames, both going round at 4 GiB, each frame
    2 GiB higher where the old entry left a stale bit 31; it leaves every other page alone.
   */
  lemma {:induction false} MapPagesLinear(s: State, dir: nat, max: nat, phys: word, virt: word, n: nat)
    requires Sound(s, dir, max) && phys as int % PAGE_SIZE == 0 && n <= PAGES
    requires !MapPages(s, dir, max, phys, virt, n).halted
    ensures !s.halted
    ensures forall q: nat :: q < PAGES ==>
      Lookup(MapPages(s, dir, max, phys, virt, n), dir, max, q)
        == if PagesPast(virt, q) < n
           then Some(FrameOver(OldEntry(s, dir, max, q), Wrap(phys as int + PAGE_SIZE * PagesPast(virt, q))))
           else Lookup(s, dir, max, q)
    decreases n
  {
    hide Mapped, Lookup, MapPage, OldEntry, FrameOver, Sound, PagesPast;
    if n > 0 {
      var t := MapPage(s, dir, max, phys, virt);
      var p, v := Wrap(phys as int + PAGE_SIZE), Wrap(virt as int + PAGE_SIZE);
      MapPagesUnfold(s, dir, max, phys, virt, n);
      if t.halted { HaltedStays(t, dir, max, p, v, n - 1); }
      if s.halted { HaltedStays(s, dir, max, phys, virt, n); }
      MapPageLookup(s, dir, max, phys, virt);
      MapPageEntries(s, dir, max, phys, virt);
      MapPagesLinear(t, dir, max, p, v, n - 1);
      forall q: nat | q < PAGES ensures Lookup(MapPages(s, dir, max, phys, virt, n), dir, max, q)
        == if PagesPast(virt, q) < n
           then Some(FrameOver(OldEntry(s, dir, max, q), Wrap(phys as int + PAGE_SIZE * PagesPast(virt, q))))
           else Lookup(s, dir, max, q)
      {
        NextPast(phys, virt, q);
      }
    }
  }

  /** One page on: page q is one page nearer, or it was the page itself and is now the farthest. */
  lemma NextPast(phys: word, virt: word, q: nat)
    requires q < PAGES
    ensures var p, v := Wrap(phys as int + PAGE_SIZE), Wrap(virt as int + PAGE_SIZE);
      var i, j := PagesPast(virt, q), PagesPast(v, q);
      && PageOf(virt) < PAGES
      && (q == PageOf(virt) ==> i == 0 && j == PAGES - 1 && Wrap(phys as int + PAGE_SIZE * i) == phys)
      && (q != PageOf(virt) ==> i == j + 1 && Wrap(phys as int + PAGE_SIZE * i) == Wrap(p as int + PAGE_SIZE * j))
  {
    var a := PageOf(virt);
    var v := Wrap(virt as int + PAGE_SIZE);
    PastIs(virt, q);
    PastIs(v, q);
    assert PageOf(v) == if a + 1 < PAGES then a + 1 else 0;
    var j := PagesPast(v, q);
    WrapTwice(phys, j + 1);
  }

  lemma PastIs(virt: word, q: nat)
    requires q < PAGES
    ensures PageOf(virt) < PAGES
    ensures PagesPast(virt, q) == if q >= PageOf(virt) then q - PageOf(virt) else q - PageOf(virt) + PAGES
  {
  }

  lemma {:induction false} HaltedStays(s: State, dir: nat, max: nat, phys: word, virt: word, n: nat)
    requires Sound(s, dir, max) && phys as int % PAGE_SIZE == 0 && s.halted
    ensures MapPages(s, dir, max, phys, virt, n) == s
    decreases n
  {
    if n > 0 {
      HaltedStays(s, dir, max, Wrap(phys as int + PAGE_SIZE), Wrap(virt as int + PAGE_SIZE), n - 1);
    }
  }

  lemma {:induction false} MapPageLookup(s: State, dir: nat, max: nat, phys: word, virt: word)
    requires Sound(s, dir, max) && phys as int % PAGE_SIZE == 0
    requires !s.halted && !MapPage(s, dir, max, phys, virt).halted
    ensures forall q: nat :: q < PAGES ==>
      Lookup(MapPage(s, dir, max, phys, virt), dir, max, q)
        == if q == PageOf(virt) then Some(FrameOver(OldEntry(s, dir, max, q), phys)) else Lookup(s, dir, max, q)
  {
    hide Mapped, Lookup, Update, Sound, TableOf, MapPage, OldEntry, EntryOf;
    MapPageSplit(s, dir, max, phys, virt);
    MapPageParts(s, dir, max, phys, virt);
    PageIndices(virt);
    var t := WithTable(s, dir, max, DirIdx(virt));
    var prior := OldEntry(s, dir, max, PageOf(virt));
    SetEntry(t, dir, max, PageOf(virt), Mapped(prior, phys));
    MappedEntry(prior, phys);
  }

  /** size_to_pages, with its 32-bit wrap. */
  function SizeToPages(sz: word): nat {
    var res := Wrap(sz as int - sz as int % PAGE_SIZE + 0x1000) as int / PAGE_SIZE;
    if res == 0 then 1 else res
  }

  /** The pages cover the size exactly when rounding up does not wrap. */
  lemma SizeToPagesCovers(sz: word)
    ensures sz as int <= PAGE_SIZE * SizeToPages(sz) <==> (sz as int) < 0xFFFF_F000
    ensures SizeToPages(sz) == if (sz as int) < 0xFFFF_F000 then sz as int / PAGE_SIZE + 1 else 1
  {
    var q := sz as int / PAGE_SIZE;
    assert sz as int - sz as int % PAGE_SIZE + 0x1000 == PAGE_SIZE * (q + 1);
  }

  /**
    map_pages(p, v, size_to_pages(sz)) maps each byte of [v, v+sz) onto the same byte of [p, p+sz),
    exactly when the entry of its page had no bit 31 that the new frame lacks.
   */
  lemma {:induction false} MapSizeLinear(s: State, dir: nat, max: nat, phys: word, virt: word, sz: word, x: word)
    requires Sound(s, dir, max) && phys as int % PAGE_SIZE == 0 && virt as int % PAGE_SIZE == 0
    requires (sz as int) < 0xFFFF_F000
    requires phys as int + PAGE_SIZE * SizeToPages(sz) <= TWO32 && virt as int + PAGE_SIZE * SizeToPages(sz) <= TWO32
    requires !MapPages(s, dir, max, phys, virt, SizeToPages(sz)).halted
    requires virt as int <= x as int < virt as int + sz as int
    ensures PageOf(x) < PAGES && phys as int + PAGE_SIZE * PagesPast(virt, PageOf(x)) < TWO32
    ensures Translate(MapPages(s, dir, max, phys, virt, SizeToPages(sz)), dir, max, x)
        == Some(phys as int + (x as int - virt as int))
      <==> !Stale(OldEntry(s, dir, max, PageOf(x)), phys as int + PAGE_SIZE * PagesPast(virt, PageOf(x)))
  {
    hide Lookup, MapPages, OldEntry, PagesPast;
    var n, v := SizeToPages(sz), PageOf(virt);
    SizeToPagesCovers(sz);
    assert virt as int == PAGE_SIZE * v;
    MapPagesLinear(s, dir, max, phys, virt, n);
    PageIndices(x);
    PastIs(virt, PageOf(x));
    assert x as int == PAGE_SIZE * PageOf(x) + x as int % PAGE_SIZE;
    assert v <= PageOf(x) < v + n;
  }

  // ---------------------------------------------------------------- map_table

  /** Entry k of a filled table: consecutive frames from `phys`, present and writable. */
  function FilledEntry(phys: word, k: nat): word
    requires phys as int % PAGE_SIZE == 0
  {
    FrameBelow(phys, k);
    Wrap(phys as int + PAGE_SIZE * k) as int + 3
  }

  lemma FrameBelow(phys: word, k: nat)
    requires phys as int % PAGE_SIZE == 0
    ensures Wrap(phys as int + PAGE_SIZE * k) as int % PAGE_SIZE == 0
      && Wrap(phys as int + PAGE_SIZE * k) as int + 3 < TWO32
  {
    var x := phys as int + PAGE_SIZE * k;
    assert x == PAGE_SIZE * (phys as int / PAGE_SIZE + k);
    assert x % TWO32 == PAGE_SIZE * ((phys as int / PAGE_SIZE + k) % PAGES);
  }

  function FilledAt(mem: seq<word>, f: nat, phys: word, first: nat, a: nat): word
    requires phys as int % PAGE_SIZE == 0 && a < |mem|
  {
    if At(f, 0) <= a < At(f + 1, 0) then FilledEntry(phys, (a - At(f, 0) - first) % ENTRIES) else mem[a]
  }

  /** Memory with the table in block `f` filled: entry (first + i) mod 1024 holds frame i. */
  function Filled(mem: seq<word>, f: nat, phys: word, first: nat): (r: seq<word>)
    requires phys as int % PAGE_SIZE == 0
    ensures |r| == |mem|
    ensures forall a :: 0 <= a < |mem| ==> r[a] == FilledAt(mem, f, phys, first, a)
  {
    seq(|mem|, a requires 0 <= a < |mem| => FilledAt(mem, f, phys, first, a))
  }

  /** A full table is already filled. */
  lemma FilledDone(mem: seq<word>, f: nat, phys: word)
    requires phys as int % PAGE_SIZE == 0 && At(f + 1, 0) <= |mem|
    requires forall k :: 0 <= k < ENTRIES ==> mem[At(f, k)] == FilledEntry(phys, k)
    ensures Filled(mem, f, phys, 0) == mem
  {
    hide FilledEntry;
    forall a | 0 <= a < |mem| ensures mem[a] == FilledAt(mem, f, phys, 0, a) {
      if At(f, 0) <= a < At(f + 1, 0) { assert a == At(f, a - At(f, 0)); }
    }
  }

  /** Filling does not depend on what the table held. */
  lemma FilledUpdate(mem: seq<word>, f: nat, phys: word, first: nat, k: nat, e: word)
    requires phys as int % PAGE_SIZE == 0 && At(f, k) < |mem| && k < ENTRIES
    ensures Filled(mem[At(f, k) := e], f, phys, first) == Filled(mem, f, phys, first)
  {
    hide FilledEntry;
    forall a | 0 <= a < |mem|
      ensures FilledAt(mem[At(f, k) := e], f, phys, first, a) == FilledAt(mem, f, phys, first, a) {
    }
  }

  /** map_table: nothing if the directory slot is in use, else a new table of 1024 consecutive frames. */
  ghost function MapTable(s: State, dir: nat, max: nat, phys: word, virt: word): State
    requires Sound(s, dir, max) && phys as int % PAGE_SIZE == 0
  {
    PageIndices(virt);
    if s.halted || Present(s.mem[At(dir, DirIdx(virt))]) then s
    else
      var f, t := LeastFree(s.taken, 0, max), NewTable(s, dir, max, DirIdx(virt));
      if t.halted then t else t.(mem := Filled(t.mem, f, phys, TabIdx(virt)))
  }

  /** map_table on a slot in use does nothing at all. */
  lemma MapTablePresent(s: State, dir: nat, max: nat, phys: word, virt: word)
    requires Sound(s, dir, max) && phys as int % PAGE_SIZE == 0
    ensures 1024 * dir + virt as int / 0x40_0000 < |s.mem|
    ensures s.mem[1024 * dir + virt as int / 0x40_0000] as int % 2 == 1 ==> MapTable(s, dir, max, phys, virt) == s
  {
    PageIndices(virt);
  }

  /**
    map_table on an empty slot, from any address of its 4 MiB: the page of that address gets the first
    frame, the pages after it the next ones, going round inside the slot; every other page keeps its
    translation.
   */
  lemma {:induction false} MapTableLookup(s: State, dir: nat, max: nat, phys: word, virt: word, q: nat)
    requires Sound(s, dir, max) && phys as int % PAGE_SIZE == 0 && !s.halted && q < PAGES
    requires DirIdx(virt) < ENTRIES && !Present(s.mem[At(dir, DirIdx(virt))])
    requires !MapTable(s, dir, max, phys, virt).halted
    ensures Sound(MapTable(s, dir, max, phys, virt), dir, max)
    ensures Lookup(MapTable(s, dir, max, phys, virt), dir, max, q)
      == if q / 1024 == virt as int / 0x40_0000
         then Some(Wrap(phys as int + 4096 * ((q - virt as int / 4096) % 1024)) as int)
         else Lookup(s, dir, max, q)
  {
    hide NewTable, TableOf, FilledEntry, Filled, Sound, Lookup;
    PageIndices(virt);
    var i, f := DirIdx(virt), LeastFree(s.taken, 0, max);
    if f == max { NewTableHalts(s, dir, max, i); }
    NewTableSound(s, dir, max, i);
    NewTableSlots(s, dir, max, i);
    NewTableTaken(s, dir, max, i);
    MapTableSound(s, dir, max, phys, virt);
    NewTableLookup(s, dir, max, i, q);
    DirNotFree(s, dir, max);
    FilledLookup(NewTable(s, dir, max, i), dir, max, phys, i, TabIdx(virt), q);
    assert MapTable(s, dir, max, phys, virt)
      == NewTable(s, dir, max, i).(mem := Filled(NewTable(s, dir, max, i).mem, f, phys, TabIdx(virt)));
    if q / ENTRIES == i { SamePast(q, virt); }
  }

  /** Filling the table of slot i changes the translation of that slot's pages only. */
  lemma {:induction false} FilledLookup(t: State, dir: nat, max: nat, phys: word, i: nat, first: nat, q: nat)
    requires Sound(t, dir, max) && phys as int % PAGE_SIZE == 0 && i < ENTRIES && first < ENTRIES && q < PAGES
    requires At(dir, i) < |t.mem| && Present(t.mem[At(dir, i)])
    ensures var u := t.(mem := Filled(t.mem, TableOf(t, dir, i), phys, first));
      && Sound(u, dir, max)
      && Lookup(u, dir, max, q)
           == if q / ENTRIES == i then Some(Wrap(phys as int + PAGE_SIZE * ((q % ENTRIES - first) % ENTRIES)) as int)
              else Lookup(t, dir, max, q)
  {
    hide TableOf, FilledEntry, Filled, Sound;
    var f, j, k := TableOf(t, dir, i), q / ENTRIES, q % ENTRIES;
    var u := t.(mem := Filled(t.mem, f, phys, first));
    SlotAt(t, dir, max, i);
    SlotAt(t, dir, max, j);
    forall x | 0 <= x < ENTRIES ensures u.mem[At(dir, x)] == t.mem[At(dir, x)] {
      OutsideTable(t.mem, f, phys, first, dir, x);
    }
    SoundSameDirectory(t, u, dir, max);
    SameTable(t, u, dir, j);
    SlotAt(u, dir, max, j);
    if j == i {
      FilledFrame(phys, (k - first) % ENTRIES);
      assert u.mem[At(f, k)] == FilledEntry(phys, (k - first) % ENTRIES);
    } else if Present(t.mem[At(dir, j)]) {
      ApartAt(t, dir, max, i, j);
      OutsideTable(t.mem, f, phys, first, TableOf(t, dir, j), k);
    }
  }

  lemma FilledFrame(phys: word, k: nat)
    requires phys as int % PAGE_SIZE == 0
    ensures Present(FilledEntry(phys, k)) && PageAddr(FilledEntry(phys, k)) == Wrap(phys as int + PAGE_SIZE * k)
  {
    FrameBelow(phys, k);
    var p := Wrap(phys as int + PAGE_SIZE * k) as int;
    assert p == PAGE_SIZE * (p / PAGE_SIZE);
  }

  lemma ApartAt(s: State, dir: nat, max: nat, i: nat, j: nat)
    requires Sound(s, dir, max) && i < ENTRIES && j < ENTRIES && i != j
    ensures At(dir, i) < |s.mem| && At(dir, j) < |s.mem|
    ensures Present(s.mem[At(dir, i)]) && Present(s.mem[At(dir, j)]) ==> TableOf(s, dir, i) != TableOf(s, dir, j)
  {
    if i < j { assert TablesApart(s, dir, i, j); } else { assert TablesApart(s, dir, j, i); }
  }

  /** Inside a slot, counting pages and counting entries go round alike. */
  lemma SamePast(q: nat, virt: word)
    requires q < PAGES && q / ENTRIES == DirIdx(virt)
    ensures (q - PageOf(virt)) % ENTRIES == (q % ENTRIES - TabIdx(virt)) % ENTRIES
  {
    PageIndices(virt);
    assert q - PageOf(virt) == q % ENTRIES - TabIdx(virt);
  }

  /** map_page on a slot whose table already exists. */
  lemma MapPagePresent(s: State, dir: nat, max: nat, phys: word, virt: word)
    requires Sound(s, dir, max) && phys as int % PAGE_SIZE == 0 && !s.halted && Present(s.mem[At(dir, DirIdx(virt))])
    ensures PageOf(virt) < PAGES
      && EntryOf(s, dir, max, PageOf(virt)) == At(TableOf(s, dir, DirIdx(virt)), TabIdx(virt))
    ensures var a := EntryOf(s, dir, max, PageOf(virt));
      MapPage(s, dir, max, phys, virt) == Update(s, a, Mapped(s.mem[a], phys))
  {
    PageIndices(virt);
  }

  lemma MapPagesUnfold(s: State, dir: nat, max: nat, phys: word, virt: word, n: nat)
    requires Sound(s, dir, max) && phys as int % PAGE_SIZE == 0 && n > 0
    ensures Wrap(phys as int + PAGE_SIZE) as int % PAGE_SIZE == 0
    ensures MapPages(s, dir, max, phys, virt, n)
      == MapPages(MapPage(s, dir, max, phys, virt), dir, max, Wrap(phys as int + PAGE_SIZE),
        Wrap(virt as int + PAGE_SIZE), n - 1)
  {
    hide Sound, MapPage;
    FrameBelow(phys, 1);
  }

  /** A table partly filled by map_page. */
  ghost predicate Filling(s: State, dir: nat, max: nat, phys: word, virt: word, f: nat, i: nat) {
    && Sound(s, dir, max) && phys as int % PAGE_SIZE == 0 && !s.halted && virt as int % TABLE_SPAN == 0
    && DirIdx(virt) < ENTRIES
    && Present(s.mem[At(dir, DirIdx(virt))]) && TableOf(s, dir, DirIdx(virt)) == f < max && f != dir
    && (forall k :: 0 <= k < i <= ENTRIES ==> s.mem[At(f, k)] == FilledEntry(phys, k))
    && (forall k :: i <= k < ENTRIES ==> s.mem[At(f, k)] == 0)
  }

  lemma {:induction false} FillStep(s: State, dir: nat, max: nat, phys: word, virt: word, f: nat, i: nat)
    requires Filling(s, dir, max, phys, virt, f, i) && i < ENTRIES
    ensures var p, v := Wrap(phys as int + PAGE_SIZE * i), Wrap(virt as int + PAGE_SIZE * i);
      && p as int % PAGE_SIZE == 0
      && MapPage(s, dir, max, p, v) == s.(mem := s.mem[At(f, i) := FilledEntry(phys, i)])
      && Filling(MapPage(s, dir, max, p, v), dir, max, phys, virt, f, i + 1)
  {
    hide Mapped, Sound, TableOf, MapPage, FilledEntry;
    FrameBelow(phys, i);
    var p, v := Wrap(phys as int + PAGE_SIZE * i), Wrap(virt as int + PAGE_SIZE * i);
    SlotIndices(virt, i);
    MapPagePresent(s, dir, max, p, v);
    MappedEntry(0, p);
    FilledIs(phys, i);
    SlotAt(s, dir, max, DirIdx(virt));
    var t := MapPage(s, dir, max, p, v);
    EntryApart(f, i, dir, DirIdx(virt));
    SameTable(s, t, dir, DirIdx(virt));
  }

  lemma FilledIs(phys: word, i: nat)
    requires phys as int % PAGE_SIZE == 0
    ensures FilledEntry(phys, i) as int == Wrap(phys as int + PAGE_SIZE * i) as int + 3
  {
  }

  /** The remaining 1024-i calls of map_page fill the rest of the table. */
  lemma {:induction false} MapPagesFill(s: State, dir: nat, max: nat, phys: word, virt: word, f: nat, i: nat)
    requires Filling(s, dir, max, phys, virt, f, i) && i <= ENTRIES
    ensures Sound(s, dir, max) && Wrap(phys as int + PAGE_SIZE * i) as int % PAGE_SIZE == 0
      && phys as int % PAGE_SIZE == 0
    ensures MapPages(s, dir, max, Wrap(phys as int + PAGE_SIZE * i), Wrap(virt as int + PAGE_SIZE * i), ENTRIES - i)
      == s.(mem := Filled(s.mem, f, phys, 0))
    decreases ENTRIES - i
  {
    hide Sound, TableOf, MapPage, FilledEntry, Wrap, Filled;
    FillingFacts(s, dir, max, phys, virt, f, i);
    FrameBelow(phys, i);
    if i == ENTRIES {
      FilledDone(s.mem, f, phys);
    } else {
      var p, v := Wrap(phys as int + PAGE_SIZE * i), Wrap(virt as int + PAGE_SIZE * i);
      FillStep(s, dir, max, phys, virt, f, i);
      MapPagesUnfold(s, dir, max, p, v, ENTRIES - i);
      WrapAgain(phys, i);
      WrapAgain(virt, i);
      MapPagesFill(MapPage(s, dir, max, p, v), dir, max, phys, virt, f, i + 1);
      FilledUpdate(s.mem, f, phys, 0, i, FilledEntry(phys, i));
    }
  }

  lemma FillingFacts(s: State, dir: nat, max: nat, phys: word, virt: word, f: nat, i: nat)
    requires Filling(s, dir, max, phys, virt, f, i)
    ensures Sound(s, dir, max) && At(f + 1, 0) <= |s.mem| && phys as int % PAGE_SIZE == 0
  {
  }

  lemma EntryApart(f: nat, i: nat, g: nat, j: nat)
    requires i < ENTRIES && j < ENTRIES && f != g
    ensures At(f, i) != At(g, j)
  {
  }

  lemma WrapAgain(x: word, i: nat)
    ensures Wrap(Wrap(x as int + PAGE_SIZE * i) as int + PAGE_SIZE) == Wrap(x as int + PAGE_SIZE * (i + 1))
  {
  }

  /** From a 4 MiB boundary the i-th page uses entry i of the same table. */
  lemma SlotIndices(virt: word, i: nat)
    requires virt as int % TABLE_SPAN == 0 && i < ENTRIES
    ensures virt as int + PAGE_SIZE * i < TWO32
    ensures DirIdx(virt as int + PAGE_SIZE * i) == DirIdx(virt) && TabIdx(virt as int + PAGE_SIZE * i) == i
  {
    var d := DirIdx(virt);
    assert virt as int == TABLE_SPAN * d;
    var x := virt as int + PAGE_SIZE * i;
    assert x / PAGE_SIZE == 1024 * d + i;
  }

  /**
    map_table on a 4 MiB boundary with an empty slot leaves exactly the state that 1024 calls of
    map_page leave: the same directory, table, block map and halt.
   */
  lemma {:induction false} MapTableIsMapPages(s: State, dir: nat, max: nat, phys: word, virt: word)
    requires Sound(s, dir, max) && phys as int % PAGE_SIZE == 0 && !s.halted
    requires virt as int % TABLE_SPAN == 0 && !Present(s.mem[At(dir, DirIdx(virt))])
    ensures MapTable(s, dir, max, phys, virt) == MapPages(s, dir, max, phys, virt, ENTRIES)
  {
    hide Mapped, NewTable, Sound, MapPages, MapPage, TableOf, FilledEntry, Filled;
    PageIndices(virt);
    var i, f := DirIdx(virt), LeastFree(s.taken, 0, max);
    SlotIndices(virt, 0);
    if f == max {
      MapPageHalts(s, dir, max, phys, virt);
      NewTableHalts(s, dir, max, i);
      HaltSound(s, dir, max);
      MapPagesUnfold(s, dir, max, phys, virt, ENTRIES);
      HaltedStays(s.(halted := true), dir, max, Wrap(phys as int + PAGE_SIZE), Wrap(virt as int + PAGE_SIZE), 1023);
    } else {
      var t := NewTable(s, dir, max, i);
      NewTableSound(s, dir, max, i);
      NewTableSlots(s, dir, max, i);
      NewTableTaken(s, dir, max, i);
      SlotAt(t, dir, max, i);
      FreshTable(s, dir, max, phys, virt);
      MapPagesUnfold(s, dir, max, phys, virt, ENTRIES);
      MapPagesUnfold(t, dir, max, phys, virt, ENTRIES);
      MapPagesFill(t, dir, max, phys, virt, f, 0);
    }
  }

  /** The first map_page of an empty slot is a map_page after the new table. */
  lemma FreshTable(s: State, dir: nat, max: nat, phys: word, virt: word)
    requires Sound(s, dir, max) && phys as int % PAGE_SIZE == 0 && !s.halted
    requires !Present(s.mem[At(dir, DirIdx(virt))]) && LeastFree(s.taken, 0, max) < max
    ensures DirIdx(virt) < ENTRIES && Sound(NewTable(s, dir, max, DirIdx(virt)), dir, max)
    ensures MapPage(s, dir, max, phys, virt) == MapPage(NewTable(s, dir, max, DirIdx(virt)), dir, max, phys, virt)
  {
    hide Mapped, NewTable, Sound;
    PageIndices(virt);
    NewTableSound(s, dir, max, DirIdx(virt));
    NewTableTaken(s, dir, max, DirIdx(virt));
  }

  /** Soundness only depends on the directory. */
  lemma SoundSameDirectory(s: State, t: State, dir: nat, max: nat)
    requires Sound(s, dir, max) && |t.mem| == |s.mem| && t.taken == s.taken
    requires forall k :: 0 <= k < ENTRIES ==> t.mem[At(dir, k)] == s.mem[At(dir, k)]
    ensures Sound(t, dir, max)
  {
    forall i | 0 <= i < ENTRIES ensures SlotOk(t, dir, max, i) { assert SlotOk(s, dir, max, i); }
    forall i, j | 0 <= i < j < ENTRIES ensures TablesApart(t, dir, i, j) { assert TablesApart(s, dir, i, j); }
  }

  lemma MapTableSound(s: State, dir: nat, max: nat, phys: word, virt: word)
    requires Sound(s, dir, max) && phys as int % PAGE_SIZE == 0
    ensures Sound(MapTable(s, dir, max, phys, virt), dir, max)
  {
    hide Sound, NewTable, FilledEntry, FilledAt;
    PageIndices(virt);
    var i, f := DirIdx(virt), LeastFree(s.taken, 0, max);
    SlotAt(s, dir, max, i);
    if !s.halted && !Present(s.mem[At(dir, i)]) {
      if f == max {
        NewTableHalts(s, dir, max, i);
        HaltSound(s, dir, max);
      } else {
        var t := NewTable(s, dir, max, i);
        NewTableSound(s, dir, max, i);
        NewTableTaken(s, dir, max, i);
        SlotAt(t, dir, max, i);
        DirNotFree(s, dir, max);
        forall k | 0 <= k < ENTRIES ensures Filled(t.mem, f, phys, TabIdx(virt))[At(dir, k)] == t.mem[At(dir, k)] {
          OutsideTable(t.mem, f, phys, TabIdx(virt), dir, k);
        }
        SoundSameDirectory(t, t.(mem := Filled(t.mem, f, phys, TabIdx(virt))), dir, max);
      }
    }
  }

  lemma DirNotFree(s: State, dir: nat, max: nat)
    requires Sound(s, dir, max) && LeastFree(s.taken, 0, max) < max
    ensures LeastFree(s.taken, 0, max) != dir && LeastFree(s.taken, 0, max) != 0
  {
  }

  lemma OutsideTable(mem: seq<word>, f: nat, phys: word, first: nat, g: nat, k: nat)
    requires phys as int % PAGE_SIZE == 0 && g != f && k < ENTRIES && At(g, k) < |mem|
    ensures FilledAt(mem, f, phys, first, At(g, k)) == mem[At(g, k)]
  {
    if g < f { assert At(g, k) < At(f, 0); }
    if g > f { assert At(g, k) >= At(f + 1, 0); }
  }

  // ---------------------------------------------------------------- map_tables

  lemma TableBelow(phys: word)
    requires phys as int % PAGE_SIZE == 0
    ensures Wrap(phys as int + TABLE_SPAN) as int % PAGE_SIZE == 0
  {
    FrameBelow(phys, ENTRIES);
  }

  ghost function MapTables(s: State, dir: nat, max: nat, phys: word, virt: word, n: nat): (t: State)
    requires Sound(s, dir, max) && phys as int % PAGE_SIZE == 0
    ensures Sound(t, dir, max)
    decreases n
  {
    if n == 0 then s
    else
      TableBelow(phys);
      MapTableSound(s, dir, max, phys, virt);
      MapTables(MapTable(s, dir, max, phys, virt), dir, max, Wrap(phys as int + TABLE_SPAN),
        Wrap(virt as int + TABLE_SPAN), n - 1)
  }

  lemma MapTablesUnfold(s: State, dir: nat, max: nat, phys: word, virt: word, n: nat)
    requires Sound(s, dir, max) && phys as int % PAGE_SIZE == 0 && n > 0
    ensures Wrap(phys as int + TABLE_SPAN) as int % PAGE_SIZE == 0
    ensures Sound(MapTable(s, dir, max, phys, virt), dir, max)
    ensures MapTables(s, dir, max, phys, virt, n)
      == MapTables(MapTable(s, dir, max, phys, virt), dir, max, Wrap(phys as int + TABLE_SPAN),
        Wrap(virt as int + TABLE_SPAN), n - 1)
  {
    hide Sound, MapTable;
    TableBelow(phys);
    MapTableSound(s, dir, max, phys, virt);
  }

  /** How many directory slots past that of `virt` the slot of page q lies, going round. */
  function SlotsPast(virt: word, q: nat): nat { (q / 1024 - virt as int / 0x40_0000) % 1024 }

  /**
    map_tables over any n slots, used or empty: each empty one is filled with the frames that belong to
    its place, each used one is left alone, and so is every other slot.
   */
  lemma {:induction false} MapTablesLookup(s: State, dir: nat, max: nat, phys: word, virt: word, n: nat, q: nat)
    requires Sound(s, dir, max) && phys as int % PAGE_SIZE == 0 && n <= 1024 && q < PAGES
    requires !s.halted && !MapTables(s, dir, max, phys, virt, n).halted
    ensures 1024 * dir + q / 1024 < |s.mem|
    ensures Lookup(MapTables(s, dir, max, phys, virt, n), dir, max, q)
      == if SlotsPast(virt, q) < n && s.mem[1024 * dir + q / 1024] as int % 2 == 0
         then Some(Wrap(phys as int + 0x40_0000 * SlotsPast(virt, q)
                        + 4096 * ((q - virt as int / 4096) % 1024)) as int)
         else Lookup(s, dir, max, q)
    decreases n
  {
    hide Sound, Lookup, MapTable, MapTables, SlotsPast;
    SlotAt(s, dir, max, q / ENTRIES);
    if n == 0 {
      MapTablesNone(s, dir, max, phys, virt);
    } else {
      var t := MapTable(s, dir, max, phys, virt);
      var p, v := Wrap(phys as int + TABLE_SPAN), Wrap(virt as int + TABLE_SPAN);
      PageIndices(virt);
      SlotAt(s, dir, max, DirIdx(virt));
      MapTablesUnfold(s, dir, max, phys, virt, n);
      if t.halted { HaltedTables(t, dir, max, p, v, n - 1); }
      MapTablesLookup(t, dir, max, p, v, n - 1, q);
      NextSlot(phys, virt, q);
      if Present(s.mem[At(dir, DirIdx(virt))]) {
        MapTablePresent(s, dir, max, phys, virt);
      } else {
        MapTableLookup(s, dir, max, phys, virt, q);
        if q / ENTRIES != DirIdx(virt) { MapTableOtherSlot(s, dir, max, phys, virt, q / ENTRIES); }
      }
    }
  }

  lemma MapTablesNone(s: State, dir: nat, max: nat, phys: word, virt: word)
    requires Sound(s, dir, max) && phys as int % PAGE_SIZE == 0
    ensures MapTables(s, dir, max, phys, virt, 0) == s
  {
  }

  /** One slot on: the slot of page q is one slot nearer, or it was the slot itself and is now the farthest. */
  lemma NextSlot(phys: word, virt: word, q: nat)
    requires q < PAGES
    ensures var p, v := Wrap(phys as int + TABLE_SPAN), Wrap(virt as int + TABLE_SPAN);
      var i, j := SlotsPast(virt, q), SlotsPast(v, q);
      var x := 4096 * ((q - virt as int / 4096) % 1024);
      && (q - virt as int / 4096) % 1024 == (q - v as int / 4096) % 1024
      && (q / 1024 == DirIdx(virt) ==> i == 0 && j == 1023)
      && (q / 1024 != DirIdx(virt) ==>
        i == j + 1 && Wrap(phys as int + TABLE_SPAN * i + x) == Wrap(p as int + TABLE_SPAN * j + x))
  {
    var d, v := DirIdx(virt), Wrap(virt as int + TABLE_SPAN);
    SlotDistance(virt, q);
    SlotDistance(v, q);
    assert DirIdx(v) == if d + 1 < 1024 then d + 1 else 0;
    var past := virt as int + TABLE_SPAN >= TWO32;
    assert v as int == virt as int + TABLE_SPAN - if past then TWO32 else 0;
    assert v as int / 4096 == virt as int / 4096 + 1024 - if past then PAGES else 0;
    Thousands(q - v as int / 4096, if past then 1 - 1024 else 1);
    var j := SlotsPast(v, q);
    WrapMore(phys as int + TABLE_SPAN, TABLE_SPAN * j + 4096 * ((q - virt as int / 4096) % 1024));
  }

  lemma SlotDistance(virt: word, q: nat)
    requires q < PAGES
    ensures SlotsPast(virt, q)
      == if q / 1024 >= DirIdx(virt) then q / 1024 - DirIdx(virt) else q / 1024 - DirIdx(virt) + 1024
  {
  }

  lemma Thousands(x: int, k: int)
    ensures (x + 1024 * k) % 1024 == x % 1024
  {
  }

  lemma WrapMore(x: int, y: int)
    ensures Wrap(Wrap(x) as int + y) == Wrap(x + y)
  {
    var k := x / TWO32;
    var z := Wrap(x) as int + y;
    assert x + y == z + TWO32 * k;
    assert (z + TWO32 * k) % TWO32 == z % TWO32;
  }

  lemma {:induction false} HaltedTables(s: State, dir: nat, max: nat, phys: word, virt: word, n: nat)
    requires Sound(s, dir, max) && phys as int % PAGE_SIZE == 0 && s.halted
    ensures MapTables(s, dir, max, phys, virt, n) == s
    decreases n
  {
    hide Sound;
    if n > 0 {
      TableBelow(phys);
      HaltedTables(s, dir, max, Wrap(phys as int + TABLE_SPAN), Wrap(virt as int + TABLE_SPAN), n - 1);
    }
  }

  /** map_pages of a+b pages is map_pages of a, then of b. */
  lemma {:induction false} MapPagesSplit(s: State, dir: nat, max: nat, phys: word, virt: word, a: nat, b: nat)
    requires Sound(s, dir, max) && phys as int % PAGE_SIZE == 0
    ensures Wrap(phys as int + PAGE_SIZE * a) as int % PAGE_SIZE == 0
    ensures MapPages(s, dir, max, phys, virt, a + b)
      == MapPages(MapPages(s, dir, max, phys, virt, a), dir, max,
                  Wrap(phys as int + PAGE_SIZE * a), Wrap(virt as int + PAGE_SIZE * a), b)
    decreases a
  {
    hide Sound, MapPage, MapPages;
    FrameBelow(phys, a);
    if a == 0 {
      WrapWord(phys);
      WrapWord(virt);
      MapPagesNone(s, dir, max, phys, virt);
    } else {
      MapPagesUnfold(s, dir, max, phys, virt, a + b);
      MapPagesUnfold(s, dir, max, phys, virt, a);
      var p, v := Wrap(phys as int + PAGE_SIZE), Wrap(virt as int + PAGE_SIZE);
      MapPagesSplit(MapPage(s, dir, max, phys, virt), dir, max, p, v, a - 1, b);
      WrapTwice(phys, a);
      WrapTwice(virt, a);
    }
  }

  /** map_pages of one page is map_page. */
  lemma MapPagesOne(s: State, dir: nat, max: nat, phys: word, virt: word)
    requires Sound(s, dir, max) && phys as int % PAGE_SIZE == 0
    ensures MapPages(s, dir, max, phys, virt, 0) == s
    ensures MapPages(s, dir, max, phys, virt, 1) == MapPage(s, dir, max, phys, virt)
  {
    hide Sound, MapPage;
    MapPagesUnfold(s, dir, max, phys, virt, 1);
    FrameBelow(phys, 1);
    MapPagesNone(s, dir, max, phys, virt);
    MapPagesNone(MapPage(s, dir, max, phys, virt), dir, max, Wrap(phys as int + PAGE_SIZE),
      Wrap(virt as int + PAGE_SIZE));
  }

  lemma MapPagesNone(s: State, dir: nat, max: nat, phys: word, virt: word)
    requires Sound(s, dir, max) && phys as int % PAGE_SIZE == 0
    ensures MapPages(s, dir, max, phys, virt, 0) == s
  {
  }

  lemma WrapWord(x: word)
    ensures Wrap(x as int + PAGE_SIZE * 0) == x
  {
  }

  lemma WrapTwice(x: word, a: nat)
    requires a > 0
    ensures Wrap(Wrap(x as int + PAGE_SIZE) as int + PAGE_SIZE * (a - 1)) == Wrap(x as int + PAGE_SIZE * a)
  {
  }

  /** Slots that map_table on another slot leaves empty. */
  lemma MapTableOtherSlot(s: State, dir: nat, max: nat, phys: word, virt: word, j: nat)
    requires Sound(s, dir, max) && phys as int % PAGE_SIZE == 0 && j < ENTRIES && j != DirIdx(virt)
    ensures Sound(MapTable(s, dir, max, phys, virt), dir, max)
    ensures At(dir, j) < |s.mem| == |MapTable(s, dir, max, phys, virt).mem|
    ensures MapTable(s, dir, max, phys, virt).mem[At(dir, j)] == s.mem[At(dir, j)]
  {
    hide Sound, FilledEntry, FilledAt;
    PageIndices(virt);
    var i, f := DirIdx(virt), LeastFree(s.taken, 0, max);
    MapTableSound(s, dir, max, phys, virt);
    SlotAt(s, dir, max, i);
    SlotAt(s, dir, max, j);
    if !s.halted && !Present(s.mem[At(dir, i)]) && f < max {
      var t := NewTable(s, dir, max, i);
      NewTableSlots(s, dir, max, i);
      DirNotFree(s, dir, max);
      OutsideTable(t.mem, f, phys, TabIdx(virt), dir, j);
    }
  }

  /** map_tables over n empty slots, from a 4 MiB boundary, is map_pages over their 1024 n pages. */
  lemma {:induction false} MapTablesIsMapPages(s: State, dir: nat, max: nat, phys: word, virt: word, n: nat)
    requires Sound(s, dir, max) && phys as int % PAGE_SIZE == 0 && virt as int % TABLE_SPAN == 0
    requires DirIdx(virt) + n <= ENTRIES
    requires forall j :: DirIdx(virt) <= j < DirIdx(virt) + n ==> !Present(s.mem[At(dir, j)])
    ensures MapTables(s, dir, max, phys, virt, n) == MapPages(s, dir, max, phys, virt, ENTRIES * n)
    decreases n
  {
    hide Sound, MapPage, MapPages, MapTable;
    if n == 0 {
      MapPagesNone(s, dir, max, phys, virt);
    } else if s.halted {
      HaltedTables(s, dir, max, phys, virt, n);
      HaltedStays(s, dir, max, phys, virt, ENTRIES * n);
    } else {
      PageIndices(virt);
      MapTableIsMapPages(s, dir, max, phys, virt);
      var t := MapTable(s, dir, max, phys, virt);
      var p, v := Wrap(phys as int + TABLE_SPAN), Wrap(virt as int + TABLE_SPAN);
      TableBelow(phys);
      MapPagesSplit(s, dir, max, phys, virt, ENTRIES, ENTRIES * (n - 1));
      if n > 1 {
        assert v as int == virt as int + TABLE_SPAN && DirIdx(v) == DirIdx(virt) + 1;
        forall j | DirIdx(v) <= j < DirIdx(v) + (n - 1) ensures At(dir, j) < |t.mem| && !Present(t.mem[At(dir, j)]) {
          MapTableOtherSlot(s, dir, max, phys, virt, j);
        }
        MapTablesIsMapPages(t, dir, max, p, v, n - 1);
      } else {
        MapPagesNone(t, dir, max, p, v);
      }
    }
  }

  // ---------------------------------------------------------------- runs

  /** Calls of the mapping functions, and of the block allocator by the rest of the kernel. */
  datatype Op = Map(phys: word, virt: word) | MapWhole(phys: word, virt: word) | Unmap(virt: word) | TakeBlock
    | GiveBlock(b: nat)

  /** Frames are page-aligned; a block given back belongs neither to a table nor to the directory. */
  ghost predicate Legal(s: State, dir: nat, max: nat, op: Op)
    requires Sound(s, dir, max)
  {
    match op
    case Map(phys, _) => phys as int % PAGE_SIZE == 0
    case MapWhole(phys, _) => phys as int % PAGE_SIZE == 0
    case Unmap(_) => true
    case TakeBlock => true
    case GiveBlock(b) => b != 0 && b != dir && forall i :: 0 <= i < ENTRIES ==> !UsesBlock(s, dir, i, b)
  }

  ghost predicate UsesBlock(s: State, dir: nat, i: nat, b: nat)
    requires At(dir, i) < |s.mem|
  {
    Present(s.mem[At(dir, i)]) && TableOf(s, dir, i) == b
  }

  ghost function Step(s: State, dir: nat, max: nat, op: Op): State
    requires Sound(s, dir, max) && Legal(s, dir, max, op)
  {
    match op
    case Map(phys, virt) => MapPage(s, dir, max, phys, virt)
    case MapWhole(phys, virt) => MapTable(s, dir, max, phys, virt)
    case Unmap(virt) => if s.halted then s else FreePage(s, dir, max, virt)
    case TakeBlock =>
      var f := LeastFree(s.taken, 0, max);
      if s.halted then s else if f == max then s.(halted := true) else s.(taken := s.taken + {f})
    case GiveBlock(b) => if s.halted then s else s.(taken := s.taken - {b})
  }

  /** No call breaks the shared invariant of tables and block map. */
  lemma StepSound(s: State, dir: nat, max: nat, op: Op)
    requires Sound(s, dir, max) && Legal(s, dir, max, op)
    ensures Sound(Step(s, dir, max, op), dir, max)
    ensures op.TakeBlock? || op.GiveBlock? ==>
      forall pg: nat :: pg < PAGES ==> Lookup(Step(s, dir, max, op), dir, max, pg) == Lookup(s, dir, max, pg)
  {
    hide TableOf, MapPage, MapTable;
    forall i | 0 <= i < ENTRIES && Present(s.mem[At(dir, i)]) ensures TableOf(s, dir, i) in s.taken {
      SlotAt(s, dir, max, i);
    }
    match op
    case Map(phys, virt) =>
    case MapWhole(phys, virt) => MapTableSound(s, dir, max, phys, virt);
    case Unmap(virt) => FreePageUnmaps(s, dir, max, virt);
    case TakeBlock =>
      var f := LeastFree(s.taken, 0, max);
      if f == max { HaltSound(s, dir, max); } else { TakenSound(s, dir, max, s.taken + {f}); }
    case GiveBlock(b) =>
      forall i | 0 <= i < ENTRIES && Present(s.mem[At(dir, i)]) ensures TableOf(s, dir, i) != b {
        assert !UsesBlock(s, dir, i, b);
      }
      TakenSound(s, dir, max, s.taken - {b});
  }

  lemma TakenSound(s: State, dir: nat, max: nat, taken: set<nat>)
    requires Sound(s, dir, max) && taken <= Range(0, max) && 0 in taken && dir in taken
    requires forall i :: 0 <= i < ENTRIES && Present(s.mem[At(dir, i)]) ==> TableOf(s, dir, i) in taken
    ensures Sound(s.(taken := taken), dir, max)
    ensures forall pg: nat :: pg < PAGES ==> Lookup(s.(taken := taken), dir, max, pg) == Lookup(s, dir, max, pg)
  {
    hide TableOf;
    var t := s.(taken := taken);
    forall i | 0 <= i < ENTRIES ensures SlotOk(t, dir, max, i) && TableOf(t, dir, i) == TableOf(s, dir, i) {
      assert SlotOk(s, dir, max, i);
      SameTable(s, t, dir, i);
    }
    forall i, j | 0 <= i < j < ENTRIES ensures TablesApart(t, dir, i, j) { assert TablesApart(s, dir, i, j); }
    forall pg: nat | pg < PAGES ensures Lookup(t, dir, max, pg) == Lookup(s, dir, max, pg) {
      assert SlotOk(s, dir, max, pg / ENTRIES);
      SameTable(s, t, dir, pg / ENTRIES);
    }
  }

  ghost predicate LegalRun(s: State, dir: nat, max: nat, ops: seq<Op>)
    requires Sound(s, dir, max)
    decreases |ops|
  {
    ops == [] || (Legal(s, dir, max, ops[0])
      && (StepSound(s, dir, max, ops[0]); LegalRun(Step(s, dir, max, ops[0]), dir, max, ops[1..])))
  }

  ghost function Run(s: State, dir: nat, max: nat, ops: seq<Op>): (t: State)
    requires Sound(s, dir, max) && LegalRun(s, dir, max, ops)
    ensures Sound(t, dir, max)
    decreases |ops|
  {
    if ops == [] then s else StepSound(s, dir, max, ops[0]); Run(Step(s, dir, max, ops[0]), dir, max, ops[1..])
  }

  /** In every reachable state, two directory slots never share a table, and no table block can be allocated again. */
  lemma TablesOwned(s: State, dir: nat, max: nat, ops: seq<Op>, i: nat, j: nat)
    requires Sound(s, dir, max) && LegalRun(s, dir, max, ops) && i < j < ENTRIES
    ensures var t := Run(s, dir, max, ops);
      && At(dir, j) < |t.mem| && At(dir, i) < |t.mem|
      && (Present(t.mem[At(dir, i)]) ==>
        0 < TableOf(t, dir, i) < max && TableOf(t, dir, i) != LeastFree(t.taken, 0, max))
      && (Present(t.mem[At(dir, i)]) && Present(t.mem[At(dir, j)]) ==> TableOf(t, dir, i) != TableOf(t, dir, j))
  {
    hide TableOf, Run, LegalRun;
    var t := Run(s, dir, max, ops);
    SlotAt(t, dir, max, i);
    SlotAt(t, dir, max, j);
    assert TablesApart(t, dir, i, j);
  }
}
