/** The virtual-memory section of kernel/core-c.c: the bump allocator, the page
    tables it feeds, and `vm_init`. */
module Paging {
  import opened Words
  import opened FrameBitmap
  import opened PageTables

  /** `kmalloc` returns an address (and the physical address it stores through
      its last argument), calls `kpanic`, or reads through a null page pointer. */
  datatype Outcome = Done(addr: Word, physAddr: nat) | Panic | NullFault

  /** Whether the heap window still finds its frames, once the identity region has
      settled at `l.p` pages: a question of where the directory is. */
  lemma PanicThreshold(l: Layout)
    requires l.hasHeap && 1 <= l.t <= 16 && 1024 * (l.t - 1) < l.p <= 1024 * l.t && l.p == Top(l) + 16
    ensures l.p + HEAP_PAGES > NFRAMES <==> l.kp > 0x3FBC
  {
  }

  /** A request that does not fit in the heap window, from a bump pointer inside it,
      escapes the "Heap is full!" test exactly when the 32-bit sum wraps. */
  lemma FullHeapMissed(a: Word, size: Word)
    requires 0xD00_0000 <= a <= 0xD01_0000 < a + size
    ensures Add(a, size) <= 0xD01_0000 <==> a + size >= TWO_32
  {
  }

  /** Where `kmalloc` places what it takes from physical memory: with `pageAlign`
      at the next page, even when `a` is aligned already. */
  function Placed(a: Word, pageAlign: bool): Word {
    if pageAlign && a >= 0x1000 then Add(a - a % 0x1000, 0x1000) else a
  }

  /** The next page boundary above `a`, which is 0 for the last page; with no page
      below it, or when no alignment is asked for, `a` itself. */
  lemma PlacedAbove(a: Word, pageAlign: bool)
    ensures !pageAlign || a < 0x1000 ==> Placed(a, pageAlign) == a
    ensures pageAlign && 0x1000 <= a < 0xFFFF_F000 ==>
              a < Placed(a, true) <= a + 0x1000 && Placed(a, true) % 0x1000 == 0
    ensures pageAlign && a >= 0xFFFF_F000 ==> Placed(a, true) == 0
  {
  }

  /** The layout once the table for index `x` exists. */
  function WithIndex(l: Layout, x: nat): Layout {
    if TablePage(l, x) != 0 then l
    else if x == HEAP_INDEX then l.(hasHeap := true)
    else l.(t := l.t + 1)
  }

  /** The boot code asks only for the heap's table and for identity tables in order. */
  predicate MayAsk(l: Layout, x: nat) {
    x < 1024 && (TablePage(l, x) != 0 || x == HEAP_INDEX || (x == l.t < 17 && l.hasHeap))
  }

  lemma TableWords(phys: Word, top: nat, table: Word)
    requires 1 <= top < 0xF_FFF0 && phys == 4096 * top && table == Placed(phys, true)
    ensures table == 4096 * (top + 1) && Add(table, 0x1000) == 4096 * (top + 2) && table % 8 == 0
  {
    WholePages(phys, top);
    WholePages(4096 * (top + 1), top + 1);
  }

  /** The table for index `x` that the bump allocator gives. */
  lemma BootTable(m: seq<Word>, l: Layout, x: nat, phys: Word)
    requires Holds(m, l) && MayAsk(l, x) && TablePage(l, x) == 0 && phys == 4096 * Top(l)
    ensures var table, d := Placed(phys, true), 1024 * l.kp + x;
            && Add(table, 0x1000) == 4096 * Top(WithIndex(l, x))
            && Holds(m[d := table][d + 1024 := table - table % 8 + 7], WithIndex(l, x))
  {
    TableWords(phys, Top(l), Placed(phys, true));
    var table, d := Placed(phys, true), 1024 * l.kp + x;
    assert m[d := table][d + 1024 := table - table % 8 + 7] == WithTable(m, l, x);
    if x == HEAP_INDEX {
      AddHeapTable(m, l);
    } else {
      AddIdentityTable(m, l);
    }
  }

  /** Address of the entry with number `o` in the table of index `x`. */
  function EntryAddress(l: Layout, x: nat, o: nat): nat {
    4096 * TablePage(l, x) + 4 * o
  }

  lemma EntryWord(m: seq<Word>, l: Layout, x: nat, o: nat)
    requires Holds(m, l) && x < 1024 && TablePage(l, x) != 0 && o < 1024
    ensures Add(m[1024 * l.kp + x], 4 * o) == EntryAddress(l, x, o) && 0 < EntryAddress(l, x, o) / 4 < RAM_WORDS
  {
    DirWord(m, l, x);
  }

  /** What `get_page` finds for `va`, and the physical address read off it. */
  lemma FoundEntry(m: seq<Word>, l: Layout, kdir: Word, cr3: Word, va: Word, e: Word)
    requires Holds(m, l) && l.hasHeap && l.cleared && kdir == 4096 * l.kp && kdir / 4 == 1024 * l.kp
    requires cr3 == 4096 * (l.kp + 1)
    requires var table := m[kdir / 4 + va / 0x40_0000];
             e == if table == 0 then 0 else Add(table, 4 * (va / 0x1000 % 1024))
    ensures e == 0 <==> TablePage(l, va / 0x40_0000) == 0
    ensures e != 0 ==>
              && e / 4 < RAM_WORDS
              && Reported(m[e / 4], va) ==
                 match Walk(m, cr3, va) case Some(pa) => pa case None => va % 4096
  {
    DirWord(m, l, va / 0x40_0000);
    if TablePage(l, va / 0x40_0000) != 0 {
      EntryWord(m, l, va / 0x40_0000, va / 0x1000 % 1024);
      EntryAgrees(m, l, va);
    }
  }

  /** The table of the next identity page exists or is the next one to make. */
  lemma NextAsk(l: Layout)
    requires Sane(l) && l.hasHeap && (l.t <= 16 || l.p < 1024 * l.t)
    ensures MayAsk(l, l.p / 1024)
    ensures var t := if l.p == 1024 * l.t then l.t + 1 else l.t;
            WithIndex(l, l.p / 1024) == l.(t := t) && l.p < 1024 * t
  {
  }

  lemma PageNumber(a: Word, q: nat, b: nat)
    requires a == 4096 * q + b && b < 4096
    ensures a / 0x1000 == q && a / 0x40_0000 == q / 1024
  {
  }

  /** The entry `new_frame` fills for identity page `p`. */
  lemma FillIdentity(m: seq<Word>, l: Layout, e: nat)
    requires Holds(m, l) && l.p < 1024 * l.t && l.h == 0 && !l.cleared && e == EntryAddress(l, l.p / 1024, l.p % 1024)
    ensures e / 4 < RAM_WORDS && m[e / 4] == 0
    ensures Holds(m[e / 4 := 4096 * l.p + 3], l.(p := l.p + 1))
  {
    assert PteAt(m, l, l.p / 1024, l.p % 1024);
    MapIdentity(m, l);
  }

  /** The entry it fills for heap page `h`. */
  lemma FillHeap(m: seq<Word>, l: Layout, e: nat)
    requires Holds(m, l) && l.hasHeap && l.h < HEAP_PAGES && e == EntryAddress(l, HEAP_INDEX, l.h)
    ensures e / 4 < RAM_WORDS && m[e / 4] == 0
    ensures Holds(m[e / 4 := 4096 * (l.p + l.h) + 3], l.(h := l.h + 1))
  {
    assert HeapAt(m, l, l.h);
    MapHeap(m, l);
  }

  /** The translation of a finished layout, address by address. */
  lemma Translation(m: seq<Word>, l: Layout, cr3: Word, phys: Word)
    requires Holds(m, l) && l.hasHeap && l.cleared && l.h == 16 && l.p == Top(l) + 16
    requires cr3 == 4096 * (l.kp + 1) && phys == 4096 * Top(l)
    ensures phys / 0x1000 == Top(l)
    ensures forall va: Word :: 0x1000 <= va < phys + 0x1_0000 ==> Walk(m, cr3, va) == Some(va)
    ensures forall va: Word :: 0xD00_0000 <= va < 0xD01_0000 ==>
              Walk(m, cr3, va) == Some(0x1000 * l.p + (va - 0xD00_0000))
    ensures forall va: Word :: va < 0x1000 || (phys + 0x1_0000 <= va && !(0xD00_0000 <= va < 0xD01_0000)) ==>
              Walk(m, cr3, va) == None
  {
    WholePages(phys, Top(l));
    forall va: Word
      ensures Walk(m, cr3, va) == MapsTo(l.p, l.h, va)
    {
      WalkIsMapsTo(m, l, va);
    }
  }

  /** The request got the `size` bytes at 0xD000000 + `before`, and they are mapped to
      the frames behind the identity region. */
  ghost predicate Granted(m: seq<Word>, cr3: Word, phys: Word, r: Outcome, before: nat, size: nat) {
    && |m| == RAM_WORDS && cr3 <= TWO_32 - 4096
    && r.Done? && r.addr == 0xD00_0000 + before
    && (size > 0 ==> r.physAddr == 0x1000 * (phys / 0x1000 + 16) + before)
    && forall va: Word :: r.addr <= va < r.addr + size ==>
         Walk(m, cr3, va) == Some(0x1000 * (phys / 0x1000 + 16) + (va - 0xD00_0000))
  }

  lemma WindowGranted(m: seq<Word>, l: Layout, cr3: Word, phys: Word, r: Outcome, before: nat, size: nat)
    requires Holds(m, l) && l.hasHeap && l.cleared && l.h == 16 && l.p == Top(l) + 16
    requires cr3 == 4096 * (l.kp + 1) && phys == 4096 * Top(l)
    requires before + size <= 0x1_0000 && r.Done? && r.addr == 0xD00_0000 + before
    requires r.physAddr == match Walk(m, cr3, r.addr) case Some(pa) => pa case None => r.addr % 4096
    ensures Granted(m, cr3, phys, r, before, size)
  {
    WindowAt(m, l, cr3, phys, r.addr);
    forall va: Word | r.addr <= va < r.addr + size
      ensures Walk(m, cr3, va) == Some(0x1000 * (phys / 0x1000 + 16) + (va - 0xD00_0000))
    {
      WindowAt(m, l, cr3, phys, va);
    }
  }

  lemma WindowAt(m: seq<Word>, l: Layout, cr3: Word, phys: Word, va: Word)
    requires Holds(m, l) && l.hasHeap && l.cleared && l.h == 16 && l.p == Top(l) + 16
    requires cr3 == 4096 * (l.kp + 1) && phys == 4096 * Top(l)
    ensures 0xD00_0000 <= va < 0xD01_0000 ==>
              Walk(m, cr3, va) == Some(0x1000 * (phys / 0x1000 + 16) + (va - 0xD00_0000))
  {
    WholePages(phys, Top(l));
    WalkIsMapsTo(m, l, va);
  }

  /** Each request got its bytes behind those of the requests before it. */
  ghost predicate AllGranted(m: seq<Word>, cr3: Word, phys: Word, rs: seq<Outcome>, sizes: seq<Word>) {
    |rs| <= |sizes| && forall i :: 0 <= i < |rs| ==> Granted(m, cr3, phys, rs[i], Total(sizes[..i]), sizes[i])
  }

  /** An address of the window, or the one behind it, has a table. */
  lemma WindowTable(l: Layout, a: Word)
    requires l.hasHeap && 0xD00_0000 <= a <= 0xD01_0000
    ensures TablePage(l, a / 0x40_0000) != 0
  {
    assert a / 0x40_0000 == 52;
  }

  /** The bytes that a sequence of requests asks for. */
  function Total(sizes: seq<Word>): nat {
    if sizes == [] then 0 else Total(sizes[..|sizes| - 1]) + sizes[|sizes| - 1]
  }

  lemma {:induction false} TotalGrows(sizes: seq<Word>, i: nat)
    requires i < |sizes|
    ensures Total(sizes[..i + 1]) == Total(sizes[..i]) + sizes[i] <= Total(sizes)
    decreases |sizes|
  {
    var init := sizes[..|sizes| - 1];
    if i < |init| {
      TotalGrows(init, i);
      assert init[..i] == sizes[..i] && init[..i + 1] == sizes[..i + 1];
    } else {
      assert sizes[..i + 1] == sizes;
    }
    assert sizes[..i + 1][..i] == sizes[..i];
  }

  class Vm {
    /** Physical memory, one element a 32-bit word. */
    const ram: array<Word>
    const frames: array<bv32>
    var kdir: Word
    /** `phys_alloc_addr`. */
    var phys: Word
    /** `heap_addr` in `alloc`. */
    var heapAddr: Word
    var heapReady: bool
    var cr3: Word
    ghost var layout: Layout

    ghost predicate Shape()
      reads this
    {
      ram.Length == RAM_WORDS && frames.Length * FRAME_BIT == NFRAMES
    }

    /** The tables in memory are those of `layout`. */
    ghost predicate Built()
      reads this, ram
    {
      Shape() && Holds(ram[..], layout) && kdir == 4096 * layout.kp
    }

    /** Built, with the bump pointer just above what was built. */
    ghost predicate Booting()
      reads this, ram
    {
      Built() && !heapReady && phys == 4096 * Top(layout)
    }

    /** The physical branch of `kmalloc` (kernel/core-c.c:369-379). */
    method BumpAlloc(size: Word, pageAlign: bool) returns (addr: Word)
      modifies `phys
      ensures addr == Placed(old(phys), pageAlign) && phys == Add(addr, size)
    {
      if pageAlign && phys - phys % 0x1000 != 0 {
        phys := phys - phys % 0x1000;
        phys := Add(phys, 0x1000);
      }
      addr := phys;
      phys := Add(phys, size);
    }

    /** The directory is inside memory. */
    predicate HasDirectory()
      reads this
    {
      ram.Length == RAM_WORDS && kdir % 4 == 0 && kdir / 4 + 2048 <= RAM_WORDS
    }

    /** `get_page(addr, kdir, 0)`: the address of the page entry, 0 when there is
        no table. */
    method FindPage(addr: Word) returns (e: Word)
      requires HasDirectory()
      ensures var table := ram[kdir / 4 + addr / 0x40_0000];
              e == if table == 0 then 0 else Add(table, 4 * (addr / 0x1000 % 1024))
    {
      var index := addr / 0x1000 / 1024;
      var offset := addr / 0x1000 % 1024;
      assert index == addr / 0x40_0000;
      if ram[kdir / 4 + index] != 0 {
        return Add(ram[kdir / 4 + index], 4 * offset);
      }
      return 0;
    }

    /** `get_page(addr, kdir, 1)` before the heap is ready: a missing table is made
        out of the memory being mapped. */
    method GetPage(addr: Word) returns (e: Word)
      requires HasDirectory() && !heapReady
      modifies ram, `phys
      ensures var d, table := kdir / 4 + addr / 0x40_0000, Placed(old(phys), true);
              if old(ram[d]) != 0 then
                ram[..] == old(ram[..]) && phys == old(phys)
              else
                && phys == Add(table, 0x1000)
                && ram[..] == old(ram[..])[d := table][d + 1024 := table - table % 8 + 7]
      ensures e == Add(ram[kdir / 4 + addr / 0x40_0000], 4 * (addr / 0x1000 % 1024))
    {
      var index := addr / 0x1000 / 1024;
      var offset := addr / 0x1000 % 1024;
      assert index == addr / 0x40_0000;
      if ram[kdir / 4 + index] == 0 {
        var table := BumpAlloc(0x1000, true);
        ram[kdir / 4 + index] := table;
        ram[kdir / 4 + 1024 + index] := table - table % 8 + 7;
      }
      return Add(ram[kdir / 4 + index], 4 * offset);
    }

    /** `get_page(addr, kdir, 1)` while booting, for the heap window or for the
        identity region and the 4 MB behind it. */
    method BootPage(addr: Word) returns (e: Word)
      requires Booting() && MayAsk(layout, addr / 0x40_0000)
      modifies ram, `phys, `layout
      ensures Booting() && layout == WithIndex(old(layout), addr / 0x40_0000)
      ensures e == EntryAddress(layout, addr / 0x40_0000, addr / 0x1000 % 1024)
    {
      ghost var x, m, l := addr / 0x40_0000, ram[..], layout;
      DirWord(m, l, x);
      WholePages(kdir, l.kp);
      e := GetPage(addr);
      if TablePage(l, x) == 0 {
        BootTable(m, l, x, old(phys));
        layout := WithIndex(l, x);
      }
      EntryWord(ram[..], layout, x, addr / 0x1000 % 1024);
    }

    /** `new_frame`: give the entry at word `e` the least unused frame `n`, unless
        it has a frame. */
    method NewFrame(e: nat) returns (panicked: bool, ghost n: nat)
      requires Shape() && e < RAM_WORDS
      modifies ram, frames
      ensures panicked <==> old(ram[e]) < 4096 && IsFirst(FrameSet(old(frames[..])), NFRAMES)
      ensures old(ram[e]) < 4096 && !panicked ==>
                && LeastFree(FrameSet(old(frames[..])), n)
                && FrameSet(frames[..]) == FrameSet(old(frames[..])) + {n}
                && ram[..] == old(ram[..])[e := 4096 * n + old(ram[e]) / 8 * 8 + 3]
      ensures old(ram[e]) >= 4096 || panicked ==>
                ram[..] == old(ram[..]) && frames[..] == old(frames[..])
    {
      if ram[e] / 4096 != 0 {
        return false, 0;
      }
      var index := FindFree(frames);
      if index == NO_FRAME {
        return true, 0;
      }
      SetBit(frames, index * 0x1000);
      // present = 1, frameaddr = index, writeable = 1, usermode = 0
      ram[e] := index * 4096 + ram[e] / 8 * 8 + 3;
      return false, index;
    }

    /** `new_frame` on a blank entry while booting, with `p` frames in use; the
        filled entry makes the layout `l`. */
    method Fill(e: Word, ghost p: nat, ghost l: Layout) returns (panicked: bool)
      requires Booting() && e / 4 < RAM_WORDS && ram[e / 4] == 0
      requires p <= NFRAMES && IsFirst(FrameSet(frames[..]), p)
      requires Holds(ram[..][e / 4 := 4096 * p + 3], l) && l.kp == layout.kp && Top(l) == Top(layout)
      modifies ram, frames, `layout
      ensures panicked <==> p == NFRAMES
      ensures !panicked ==> Booting() && layout == l && IsFirst(FrameSet(frames[..]), p + 1)
    {
      ghost var used, n := FrameSet(frames[..]), 0;
      panicked, n := NewFrame(e / 4);
      NextFrame(used, p, n);
      if !panicked {
        layout := l;
      }
    }

    /** Lines 431-432: the directory, page aligned and zeroed. */
    method CreateDirectory()
      requires Shape() && !heapReady && 0x1000 <= phys <= 0x400_0000
      requires forall w :: phys / 4 < w < RAM_WORDS ==> ram[w] == 0
      modifies ram, `kdir, `phys, `layout
      ensures Booting()
      ensures layout == Layout(old(phys) / 0x1000 + 1, false, 0, 0, 0, false)
    {
      kdir := BumpAlloc(0x2000, true);
      layout := Layout(kdir / 4096, false, 0, 0, 0, false);
      ZeroWords(kdir / 4, 0x800);
      EmptyDirectory(ram[..], layout.kp);
    }

    /** `memset(p, 0, 4 * count)` on whole words. */
    method ZeroWords(from: nat, count: nat)
      requires from + count <= ram.Length
      modifies ram
      ensures forall w :: 0 <= w < ram.Length ==> ram[w] == if from <= w < from + count then 0 else old(ram[w])
    {
      var k := 0;
      while k < count
        invariant 0 <= k <= count
        invariant forall w :: 0 <= w < ram.Length ==> ram[w] == if from <= w < from + k then 0 else old(ram[w])
      {
        ram[from + k] := 0;
        k := k + 1;
      }
    }

    /** Lines 435-437: every byte of the heap window asks for its table. */
    method ReserveHeapTable()
      requires Booting() && !layout.hasHeap
      modifies ram, `phys, `layout
      ensures Booting() && layout == old(layout).(hasHeap := true)
    {
      var i := KHEAP_BASE;
      while i < KHEAP_BASE + KHEAP_SIZE
        invariant KHEAP_BASE <= i <= KHEAP_BASE + KHEAP_SIZE
        invariant Booting()
        invariant layout == if i == KHEAP_BASE then old(layout) else old(layout).(hasHeap := true)
      {
        var e := BootPage(i);
        i := i + 1;
      }
    }

    /** Line 443: map the next page to itself, making its table when page `p` is
        the first of a new 4 MB. */
    method MapNextPage(i: nat) returns (panicked: bool)
      requires Booting() && layout.hasHeap && layout.h == 0 && !layout.cleared
      requires i == 4096 * layout.p && layout.p <= NFRAMES && IsFirst(FrameSet(frames[..]), layout.p)
      requires layout.t <= 16 || layout.p < 1024 * layout.t
      modifies ram, frames, `phys, `layout
      ensures panicked <==> old(layout).p == NFRAMES
      ensures !panicked ==>
        && Booting() && IsFirst(FrameSet(frames[..]), layout.p)
        && var l := old(layout);
           layout == l.(p := l.p + 1, t := if l.p == 1024 * l.t then l.t + 1 else l.t)
    {
      PageNumber(i, layout.p, 0);
      NextAsk(layout);
      var e := BootPage(i);
      FillIdentity(ram[..], layout, e);
      panicked := Fill(e, layout.p, layout.(p := layout.p + 1));
    }

    /** Lines 442-444: the identity map. The bound moves up by two pages with
        every table the loop itself makes. */
    method MapIdentityRegion() returns (panicked: bool)
      requires Booting() && layout == Layout(layout.kp, true, 0, 0, 0, false)
      requires IsFirst(FrameSet(frames[..]), 0)
      modifies ram, frames, `phys, `layout
      ensures panicked ==> old(layout).kp + 20 + 2 * 16 > NFRAMES
      ensures !panicked ==>
        && Booting() && layout == Layout(old(layout).kp, true, layout.t, Top(layout) + 16, 0, false)
        && layout.p <= NFRAMES && IsFirst(FrameSet(frames[..]), layout.p)
        && 1 <= layout.t <= 16 && 1024 * (layout.t - 1) < layout.p
    {
      var i := 0;
      while i < phys + 0x10000
        invariant Booting() && layout == Layout(old(layout).kp, true, layout.t, layout.p, 0, false)
        invariant i == 4096 * layout.p && layout.p <= NFRAMES && layout.p <= Top(layout) + 16
        invariant layout.t <= 16 && (layout.t > 0 ==> 1024 * (layout.t - 1) < layout.p)
        invariant IsFirst(FrameSet(frames[..]), layout.p)
        decreases phys + 0x10000 + 0x2000 * (1023 - layout.t) - i
      {
        panicked := MapNextPage(i);
        if panicked {
          return;
        }
        i := i + 0x1000;
      }
      return false;
    }

    /** Line 449: give the next heap page the next frame. */
    method MapNextHeapPage(i: nat) returns (panicked: bool)
      requires Booting() && layout.hasHeap && layout.h < HEAP_PAGES && i == KHEAP_BASE + 4096 * layout.h
      requires layout.p + layout.h <= NFRAMES && IsFirst(FrameSet(frames[..]), layout.p + layout.h)
      modifies ram, frames, `phys, `layout
      ensures panicked <==> old(layout).p + old(layout).h == NFRAMES
      ensures !panicked ==> Booting() && layout == old(layout).(h := old(layout).h + 1)
      ensures !panicked ==> IsFirst(FrameSet(frames[..]), layout.p + layout.h)
    {
      PageNumber(i, 1024 * HEAP_INDEX + layout.h, 0);
      var e := BootPage(i);
      FillHeap(ram[..], layout, e);
      panicked := Fill(e, layout.p + layout.h, layout.(h := layout.h + 1));
    }

    /** Lines 448-450: frames for the heap window. */
    method MapHeapWindow() returns (panicked: bool)
      requires Booting() && layout.hasHeap && layout.h == 0 && layout.p <= NFRAMES
      requires IsFirst(FrameSet(frames[..]), layout.p)
      modifies ram, frames, `phys, `layout
      ensures panicked <==> old(layout).p + HEAP_PAGES > NFRAMES
      ensures !panicked ==> Booting() && layout == old(layout).(h := HEAP_PAGES)
      ensures !panicked ==> IsFirst(FrameSet(frames[..]), layout.p + HEAP_PAGES)
    {
      var i := KHEAP_BASE;
      while i < KHEAP_BASE + KHEAP_SIZE
        invariant Booting() && layout == old(layout).(h := layout.h)
        invariant i == KHEAP_BASE + 4096 * layout.h && layout.h <= HEAP_PAGES
        invariant layout.p + layout.h <= NFRAMES && IsFirst(FrameSet(frames[..]), layout.p + layout.h)
      {
        panicked := MapNextHeapPage(i);
        if panicked {
          return;
        }
        i := i + 0x1000;
      }
      return false;
    }

    /** Line 453: wipe the entry of page 0, so that a null pointer faults. */
    method UnmapPageZero()
      requires Booting() && layout.t > 0
      modifies ram, `layout
      ensures Booting() && layout == old(layout).(cleared := true)
    {
      ghost var m := ram[..];
      assert DirAt(m, layout, 0);
      ram[ram[kdir / 4] / 4] := 0;
      ClearZero(m, layout);
      layout := layout.(cleared := true);
    }

    /** What `vm_init` leaves behind. */
    ghost predicate Ready()
      reads this, ram, frames
    {
      && Built() && heapReady && phys == 4096 * Top(layout) && cr3 == kdir + 0x1000
      && layout == Layout(layout.kp, true, layout.t, Top(layout) + 16, HEAP_PAGES, true)
      && IsFirst(FrameSet(frames[..]), layout.p + HEAP_PAGES)
    }

    /** Lines 431-450: directory, tables and frames. */
    method BuildTables() returns (panicked: bool)
      requires Shape() && !heapReady && 0x1000 <= phys <= 0x400_0000
      requires forall w :: phys / 4 < w < RAM_WORDS ==> ram[w] == 0
      requires IsFirst(FrameSet(frames[..]), 0)
      modifies ram, frames, `kdir, `phys, `layout
      ensures panicked <==> old(phys) >= 0x3FB_C000
      ensures !panicked ==>
        && Booting() && layout == Layout(layout.kp, true, layout.t, Top(layout) + 16, HEAP_PAGES, false)
        && layout.t > 0 && IsFirst(FrameSet(frames[..]), layout.p + HEAP_PAGES)
        && layout.kp == old(phys) / 0x1000 + 1 && 1024 * (layout.t - 1) < layout.p <= 1024 * layout.t
    {
      CreateDirectory();
      ReserveHeapTable();
      panicked := MapIdentityRegion();
      if panicked {
        return;
      }
      PanicThreshold(layout);
      panicked := MapHeapWindow();
    }

    /** All of it, up to the flag that switches `kmalloc` over. */
    method BuildAndLoad() returns (panicked: bool)
      requires Shape() && !heapReady && 0x1000 <= phys <= 0x400_0000
      requires forall w :: phys / 4 < w < RAM_WORDS ==> ram[w] == 0
      requires IsFirst(FrameSet(frames[..]), 0)
      modifies this, ram, frames
      ensures panicked <==> old(phys) >= 0x3FB_C000
      ensures !panicked ==> Ready() && heapAddr == old(heapAddr)
      ensures !panicked ==>
                layout.kp == old(phys) / 0x1000 + 1 && 1024 * (layout.t - 1) < layout.p <= 1024 * layout.t
    {
      panicked := BuildTables();
      if panicked {
        return;
      }
      UnmapPageZero();
      cr3 := kdir + 0x1000;
      heapReady := true;
    }

    /** `vm_init`. It panics exactly when the kernel image ends at 0x3FBC000 or
        above. Otherwise the page walk maps every address from 0x1000 to
        phys_alloc_addr + 0x10000 to itself (the directory and all tables
        included), the heap window onto the next 16 frames, and nothing else. The
        directory takes 2 pages and each table 2 more, with one table for every
        started 4 MB of the identity map. */
    method VmInit() returns (panicked: bool)
      requires Shape() && !heapReady && 0x1000 <= phys <= 0x400_0000
      requires forall w :: phys / 4 < w < RAM_WORDS ==> ram[w] == 0
      requires IsFirst(FrameSet(frames[..]), 0)
      modifies this, ram, frames
      ensures panicked <==> old(phys) >= 0x3FB_C000
      ensures !panicked ==> Ready() && heapAddr == old(heapAddr)
      ensures !panicked ==>
                var n := phys / 0x1000 + 16;
                && phys == 0x1000 * (old(phys) / 0x1000 + 5 + 2 * ((n + 1023) / 1024))
                && IsFirst(FrameSet(frames[..]), n + 16)
                && (forall va: Word :: 0x1000 <= va < phys + 0x1_0000 ==> Walk(ram[..], cr3, va) == Some(va))
                && (forall va: Word :: 0xD00_0000 <= va < 0xD01_0000 ==>
                      Walk(ram[..], cr3, va) == Some(0x1000 * n + (va - 0xD00_0000)))
                && (forall va: Word :: va < 0x1000 || (phys + 0x1_0000 <= va && !(0xD00_0000 <= va < 0xD01_0000)) ==>
                      Walk(ram[..], cr3, va) == None)
    {
      panicked := BuildAndLoad();
      if !panicked {
        Translation(ram[..], layout, cr3, phys);
        assert (layout.p + 1023) / 1024 == layout.t;
      }
    }
  
    /** The heap branch of `kmalloc` (kernel/core-c.c:359-367) with `alloc`: a bump
        of `heap_addr` that wraps at 2^32. The physical address it reports is the
        one the page walk gives wherever the page is present, and a request that
        stays in the window is physically contiguous. */
    method HeapAlloc(size: Word, wantPhys: bool) returns (r: Outcome)
      requires Ready()
      modifies `heapAddr
      ensures Ready() && heapAddr == Add(old(heapAddr), size)
      ensures r.Panic? <==> heapAddr > 0xD01_0000
      ensures r.NullFault? <==> !r.Panic? && wantPhys && TablePage(layout, old(heapAddr) / 0x40_0000) == 0
      ensures r.Done? ==> r.addr == old(heapAddr)
      ensures r.Done? && wantPhys ==>
                r.physAddr == match Walk(ram[..], cr3, r.addr) case Some(pa) => pa case None => r.addr % 4096
      ensures r.Done? && wantPhys && 0xD00_0000 <= r.addr && r.addr + size <= 0xD01_0000 ==>
                Contiguous(ram[..], cr3, r.addr, r.physAddr, size)
    {
      var base := heapAddr;
      heapAddr := Add(heapAddr, size);
      if heapAddr > KHEAP_BASE + KHEAP_SIZE {
        return Panic;
      }
      if !wantPhys {
        return Done(base, 0);
      }
      r := PhysicalOf(base);
      if size > 0 && KHEAP_BASE <= base && base + size <= KHEAP_BASE + KHEAP_SIZE {
        WindowContiguous(ram[..], layout, base, size);
      }
    }

    /** Lines 362-365: the physical address of `addr`, by `get_page(addr, kdir, 0)`. */
    method PhysicalOf(addr: Word) returns (r: Outcome)
      requires Ready()
      ensures r.NullFault? <==> TablePage(layout, addr / 0x40_0000) == 0
      ensures r.NullFault? || r ==
              Done(addr, match Walk(ram[..], cr3, addr) case Some(pa) => pa case None => addr % 4096)
    {
      WholePages(kdir, layout.kp);
      var page := FindPage(addr);
      FoundEntry(ram[..], layout, kdir, cr3, addr, page);
      if page == 0 {
        return NullFault;
      }
      return Done(addr, Reported(ram[page / 4], addr));
    }

    /** `kmalloc`: the heap branch once `vm_init` has run, the bump branch before. */
    method Kmalloc(size: Word, pageAlign: bool, wantPhys: bool) returns (r: Outcome)
      requires heapReady ==> Ready()
      modifies `phys, `heapAddr
      ensures !heapReady ==> r == Done(Placed(old(phys), pageAlign), Placed(old(phys), pageAlign))
      ensures !heapReady ==> heapAddr == old(heapAddr) && phys == Add(r.addr, size)
      ensures !heapReady && (!pageAlign || old(phys) < 0x1000) ==> r.addr == old(phys)
      ensures !heapReady && pageAlign && 0x1000 <= old(phys) < 0xFFFF_F000 ==>
                r.addr % 0x1000 == 0 && old(phys) < r.addr <= old(phys) + 0x1000
      ensures !heapReady && pageAlign && old(phys) >= 0xFFFF_F000 ==> r.addr == 0
      ensures heapReady ==> Ready() && phys == old(phys) && heapAddr == Add(old(heapAddr), size)
      ensures heapReady ==> (r.Panic? <==> heapAddr > 0xD01_0000)
      ensures heapReady ==>
                (r.NullFault? <==> !r.Panic? && wantPhys && TablePage(layout, old(heapAddr) / 0x40_0000) == 0)
      ensures heapReady && r.Done? ==> r.addr == old(heapAddr)
      ensures heapReady && r.Done? && wantPhys ==>
                && r.physAddr == (match Walk(ram[..], cr3, r.addr) case Some(pa) => pa case None => r.addr % 4096)
                && (0xD00_0000 <= r.addr && r.addr + size <= 0xD01_0000 ==>
                      Contiguous(ram[..], cr3, r.addr, r.physAddr, size))
    {
      if heapReady {
        r := HeapAlloc(size, wantPhys);
      } else {
        PlacedAbove(phys, pageAlign);
        var addr := BumpAlloc(size, pageAlign);
        r := Done(addr, addr);
      }
    }

    /** Requests that together fit in the heap window, from its start: they follow one
        another without a gap from 0xD000000 on, the same way in physical memory, and
        every byte of each is mapped. */
    method HeapRequests(sizes: seq<Word>) returns (rs: seq<Outcome>)
      requires Ready() && heapAddr == 0xD00_0000 && Total(sizes) <= 0x1_0000
      modifies `heapAddr
      ensures Ready() && |rs| == |sizes| && heapAddr == 0xD00_0000 + Total(sizes)
      ensures AllGranted(ram[..], cr3, phys, rs, sizes)
    {
      rs := [];
      while |rs| < |sizes|
        invariant Ready() && |rs| <= |sizes| && heapAddr == 0xD00_0000 + Total(sizes[..|rs|])
        invariant AllGranted(ram[..], cr3, phys, rs, sizes)
      {
        var i := |rs|;
        TotalGrows(sizes, i);
        var r := HeapRequest(sizes[i], Total(sizes[..i]));
        rs := rs + [r];
      }
      assert sizes[..|rs|] == sizes;
    }

    /** One request, when `before` bytes of the window are taken. */
    method HeapRequest(size: Word, ghost before: nat) returns (r: Outcome)
      requires Ready() && heapAddr == 0xD00_0000 + before && before + size <= 0x1_0000
      modifies `heapAddr
      ensures Ready() && heapAddr == 0xD00_0000 + before + size && Granted(ram[..], cr3, phys, r, before, size)
    {
      AddSmall(heapAddr, size);
      WindowTable(layout, heapAddr);
      r := HeapAlloc(size, true);
      WindowGranted(ram[..], layout, cr3, phys, r, before, size);
    }

    /** After `vm_init` the two pages of the directory are mapped to themselves. */
    lemma DirectoryReachesItself(b: nat)
      requires Ready() && b < 0x2000
      ensures Walk(ram[..], cr3, kdir + b) == Some(kdir + b)
    {
      IdentityAt(kdir + b);
    }

    /** So is every page table, so the kernel can still change its mappings. */
    lemma TablesReachThemselves(x: nat, b: nat)
      requires Ready() && x < 1024 && TablePage(layout, x) != 0 && b < 0x1000
      ensures Walk(ram[..], cr3, 4096 * TablePage(layout, x) + b) == Some(4096 * TablePage(layout, x) + b)
    {
      IdentityAt(4096 * TablePage(layout, x) + b);
    }

    lemma IdentityAt(va: Word)
      requires Ready() && 0x1000 <= va < phys + 0x1_0000
      ensures Walk(ram[..], cr3, va) == Some(va)
    {
      WalkIsMapsTo(ram[..], layout, va);
    }

    /** After `vm_init` no two mapped addresses share a physical address. */
    lemma TranslationInjective(va: Word, vb: Word)
      requires Ready()
      requires Walk(ram[..], cr3, va).Some? && Walk(ram[..], cr3, va) == Walk(ram[..], cr3, vb)
      ensures va == vb
    {
      WalkIsMapsTo(ram[..], layout, va);
      WalkIsMapsTo(ram[..], layout, vb);
      MapsToInjective(layout.p, layout.h, va, vb);
    }
  }
}
