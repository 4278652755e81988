/** The kernel page directory and tables as words of physical memory, and the
    32-bit page walk of section 4.3 of the Intel SDM volume 3A over them. */
module PageTables {
  import opened Words

  /** Words in a 4 GB physical address space. */
  const RAM_WORDS: nat := 0x4000_0000
  const KHEAP_BASE: nat := 0xD00_0000
  const KHEAP_SIZE: nat := 0x1_0000
  /** Directory index and first page of the heap window. */
  const HEAP_INDEX: nat := 52
  const HEAP_PAGES: nat := 16

  lemma WholePages(a: nat, page: nat)
    requires a == 4096 * page
    ensures a % 4 == 0 && a / 4 == 1024 * page && a % 8 == 0 && a / 4096 == page && a % 4096 == 0
  {
    assert a / 4 == 1024 * page;
    assert a / 8 == 512 * page;
  }

  datatype Option<T> = None | Some(value: T)

  /** What the boot code has built so far. The directory is at page `kp`; `t`
      identity tables exist and map pages 0 to p - 1; the heap table, once it
      exists, maps `h` pages to the frames after p; `cleared` says that the entry
      of page 0 has been wiped. */
  datatype Layout = Layout(kp: nat, hasHeap: bool, t: nat, p: nat, h: nat, cleared: bool)

  /** First page above everything allocated: `phys_alloc_addr` / 4096. */
  function Top(l: Layout): nat {
    l.kp + 2 + (if l.hasHeap then 2 else 0) + 2 * l.t
  }

  /** Page of the table for directory index `x`, or 0. */
  function TablePage(l: Layout, x: nat): nat {
    if x == HEAP_INDEX then (if l.hasHeap then l.kp + 3 else 0)
    else if x < l.t then l.kp + 5 + 2 * x
    else 0
  }

  function PhysWord(l: Layout, x: nat): nat {
    if TablePage(l, x) == 0 then 0 else 4096 * TablePage(l, x) + 7
  }

  /** Entry of identity page `q`. */
  function PteWord(l: Layout, q: nat): nat {
    if q < l.p && !(q == 0 && l.cleared) then 4096 * q + 3 else 0
  }

  /** Entry of heap page `o`. */
  function HeapWord(l: Layout, o: nat): nat {
    if o < l.h then 4096 * (l.p + o) + 3 else 0
  }

  ghost predicate Sane(l: Layout) {
    && 1 <= l.kp <= 0x4001 && l.t <= 17 && l.p <= 1024 * l.t && l.h <= HEAP_PAGES
    && (!l.hasHeap ==> l.t == 0 && l.h == 0)
  }

  ghost predicate DirAt(m: seq<Word>, l: Layout, x: nat)
    requires |m| == RAM_WORDS && Sane(l) && x < 1024
  {
    m[1024 * l.kp + x] == 4096 * TablePage(l, x) && m[1024 * (l.kp + 1) + x] == PhysWord(l, x)
  }

  ghost predicate PteAt(m: seq<Word>, l: Layout, x: nat, o: nat)
    requires |m| == RAM_WORDS && Sane(l) && x < l.t && o < 1024
  {
    m[1024 * (l.kp + 5 + 2 * x) + o] == PteWord(l, 1024 * x + o)
  }

  ghost predicate HeapAt(m: seq<Word>, l: Layout, o: nat)
    requires |m| == RAM_WORDS && Sane(l) && o < 1024
  {
    l.hasHeap ==> m[1024 * (l.kp + 3) + o] == HeapWord(l, o)
  }

  /** Memory `m` holds exactly the layout `l`, and is zero above it. */
  ghost predicate Holds(m: seq<Word>, l: Layout) {
    && |m| == RAM_WORDS && Sane(l)
    && (forall x :: 0 <= x < 1024 ==> DirAt(m, l, x))
    && (forall x, o :: 0 <= x < l.t && 0 <= o < 1024 ==> PteAt(m, l, x, o))
    && (forall o :: 0 <= o < 1024 ==> HeapAt(m, l, o))
    && (forall w :: 1024 * Top(l) <= w < RAM_WORDS ==> m[w] == 0)
  }

  lemma DirWord(m: seq<Word>, l: Layout, x: nat)
    requires Holds(m, l) && x < 1024
    ensures m[1024 * l.kp + x] == 4096 * TablePage(l, x)
  {
    assert DirAt(m, l, x);
  }

  /** Zeroed memory from page `kp` on is an empty directory. */
  lemma EmptyDirectory(m: seq<Word>, kp: nat)
    requires |m| == RAM_WORDS && 1 <= kp <= 0x4001
    requires forall w :: 1024 * kp <= w < RAM_WORDS ==> m[w] == 0
    ensures Holds(m, Layout(kp, false, 0, 0, 0, false))
  {
  }

  /** Directory index `x` pointed at the first page past the one that the
      alignment code skips. */
  function WithTable(m: seq<Word>, l: Layout, x: nat): seq<Word>
    requires |m| == RAM_WORDS && l.kp <= 0x4001 && l.t <= 17 && x < 1024
  {
    m[1024 * l.kp + x := 4096 * (Top(l) + 1)][1024 * (l.kp + 1) + x := 4096 * (Top(l) + 1) + 7]
  }

  lemma AddIdentityTable(m: seq<Word>, l: Layout)
    requires Holds(m, l) && l.hasHeap && l.t < 17
    ensures Holds(WithTable(m, l, l.t), l.(t := l.t + 1))
  {
    var x := l.t;
    var l' := l.(t := x + 1);
    var m' := WithTable(m, l, x);
    forall y | 0 <= y < 1024
      ensures DirAt(m', l', y)
    {
      assert DirAt(m, l, y);
    }
    forall y, o | 0 <= y < l'.t && 0 <= o < 1024
      ensures PteAt(m', l', y, o)
    {
      if y < l.t { assert PteAt(m, l, y, o); }
    }
    forall o | 0 <= o < 1024
      ensures HeapAt(m', l', o)
    {
      assert HeapAt(m, l, o);
    }
  }

  lemma AddHeapTable(m: seq<Word>, l: Layout)
    requires Holds(m, l) && !l.hasHeap
    ensures Holds(WithTable(m, l, HEAP_INDEX), l.(hasHeap := true))
  {
    var x := HEAP_INDEX;
    var l' := l.(hasHeap := true);
    var m' := WithTable(m, l, x);
    forall y | 0 <= y < 1024
      ensures DirAt(m', l', y)
    {
      assert DirAt(m, l, y);
    }
    forall o | 0 <= o < 1024
      ensures HeapAt(m', l', o)
    {
      assert m[1024 * (l.kp + 3) + o] == 0;
    }
  }

  lemma SplitPage(q: nat, y: nat, o: nat)
    requires o < 1024
    ensures 1024 * y + o == q <==> y == q / 1024 && o == q % 1024
  {
  }

  /** Filling the entry of the next identity page. */
  lemma MapIdentity(m: seq<Word>, l: Layout)
    requires Holds(m, l) && l.p < 1024 * l.t && l.h == 0 && !l.cleared && 4096 * l.p + 3 < TWO_32
    ensures Holds(m[1024 * (l.kp + 5 + 2 * (l.p / 1024)) + l.p % 1024 := 4096 * l.p + 3], l.(p := l.p + 1))
  {
    var m' := m[1024 * (l.kp + 5 + 2 * (l.p / 1024)) + l.p % 1024 := 4096 * l.p + 3];
    var l' := l.(p := l.p + 1);
    forall y | 0 <= y < 1024
      ensures DirAt(m', l', y)
    {
      assert DirAt(m, l, y);
    }
    forall y, o | 0 <= y < l'.t && 0 <= o < 1024
      ensures PteAt(m', l', y, o)
    {
      assert PteAt(m, l, y, o);
      SplitPage(l.p, y, o);
    }
    forall o | 0 <= o < 1024
      ensures HeapAt(m', l', o)
    {
      assert HeapAt(m, l, o);
    }
  }

  /** Filling the entry of the next heap page. */
  lemma MapHeap(m: seq<Word>, l: Layout)
    requires Holds(m, l) && l.hasHeap && l.h < HEAP_PAGES && 4096 * (l.p + l.h) + 3 < TWO_32
    ensures Holds(m[1024 * (l.kp + 3) + l.h := 4096 * (l.p + l.h) + 3], l.(h := l.h + 1))
  {
    var m' := m[1024 * (l.kp + 3) + l.h := 4096 * (l.p + l.h) + 3];
    var l' := l.(h := l.h + 1);
    forall y | 0 <= y < 1024
      ensures DirAt(m', l', y)
    {
      assert DirAt(m, l, y);
    }
    forall y, o | 0 <= y < l'.t && 0 <= o < 1024
      ensures PteAt(m', l', y, o)
    {
      assert PteAt(m, l, y, o);
    }
    forall o | 0 <= o < 1024
      ensures HeapAt(m', l', o)
    {
      assert HeapAt(m, l, o);
    }
  }

  /** Wiping the entry of page 0. */
  lemma ClearZero(m: seq<Word>, l: Layout)
    requires Holds(m, l) && l.t > 0
    ensures Holds(m[1024 * (l.kp + 5) := 0], l.(cleared := true))
  {
    var m' := m[1024 * (l.kp + 5) := 0];
    var l' := l.(cleared := true);
    forall y | 0 <= y < 1024
      ensures DirAt(m', l', y)
    {
      assert DirAt(m, l, y);
    }
    forall y, o | 0 <= y < l'.t && 0 <= o < 1024
      ensures PteAt(m', l', y, o)
    {
      assert PteAt(m, l, y, o);
    }
    forall o | 0 <= o < 1024
      ensures HeapAt(m', l', o)
    {
      assert HeapAt(m, l, o);
    }
  }

  /** The processor's translation of `va` with the directory at `cr3`. */
  function Walk(m: seq<Word>, cr3: nat, va: Word): Option<nat>
    requires |m| == RAM_WORDS && cr3 <= TWO_32 - 4096
  {
    var pde := m[cr3 / 4 + va / 0x40_0000];
    if pde % 2 == 0 then None
    else
      var pte := m[(pde - pde % 4096) / 4 + va / 4096 % 1024];
      if pte % 2 == 0 then None else Some(pte - pte % 4096 + va % 4096)
  }

  /** The translation the boot code is meant to build: identity below page `p`
      except page 0, and the heap window onto the `h` frames from `p` on. */
  function MapsTo(p: nat, h: nat, va: Word): Option<nat> {
    if 0x1000 <= va < 4096 * p then Some(va)
    else if KHEAP_BASE <= va < KHEAP_BASE + 4096 * h then Some(4096 * p + (va - KHEAP_BASE))
    else None
  }

  /** The walk over a finished layout is that translation, for every address. */
  lemma WalkIsMapsTo(m: seq<Word>, l: Layout, va: Word)
    requires Holds(m, l) && l.hasHeap && l.cleared
    ensures Walk(m, 4096 * (l.kp + 1), va) == MapsTo(l.p, l.h, va)
  {
    var x, o, b := va / 0x40_0000, va / 4096 % 1024, va % 4096;
    SplitAddress(va, x, o, b);
    MapsToPage(l.p, l.h, 1024 * x + o, b, va);
    WalkPage(m, l, x, o, va);
  }

  lemma SplitAddress(va: Word, x: nat, o: nat, b: nat)
    requires x == va / 0x40_0000 && o == va / 4096 % 1024 && b == va % 4096
    ensures x < 1024 && va == 4096 * (1024 * x + o) + b
  {
  }

  /** The intended translation, page by page. */
  lemma MapsToPage(p: nat, h: nat, q: nat, b: nat, va: Word)
    requires va == 4096 * q + b && b < 4096
    ensures MapsTo(p, h, va) ==
            if 1 <= q < p then Some(va)
            else if 1024 * HEAP_INDEX <= q < 1024 * HEAP_INDEX + h then Some(4096 * (p + q - 1024 * HEAP_INDEX) + b)
            else None
  {
  }

  /** The walk, page by page. */
  lemma WalkPage(m: seq<Word>, l: Layout, x: nat, o: nat, va: Word)
    requires Holds(m, l) && l.hasHeap && l.cleared
    requires x < 1024 && x == va / 0x40_0000 && o == va / 4096 % 1024
    ensures var q := 1024 * x + o;
            Walk(m, 4096 * (l.kp + 1), va) ==
            if 1 <= q < l.p then Some(4096 * q + va % 4096)
            else if x == HEAP_INDEX && o < l.h then Some(4096 * (l.p + o) + va % 4096)
            else None
  {
    assert DirAt(m, l, x);
    if x < l.t {
      assert PteAt(m, l, x, o);
      WalkVia(m, 4096 * (l.kp + 1), va, l.kp + 5 + 2 * x, 1024 * x + o, PteWord(l, 1024 * x + o) != 0);
    } else if x == HEAP_INDEX {
      assert HeapAt(m, l, o);
      WalkVia(m, 4096 * (l.kp + 1), va, l.kp + 3, l.p + o, o < l.h);
    }
  }

  lemma WalkVia(m: seq<Word>, cr3: nat, va: Word, page: nat, frame: nat, present: bool)
    requires |m| == RAM_WORDS && cr3 <= TWO_32 - 4096 && page < 0xF_FFFF
    requires m[cr3 / 4 + va / 0x40_0000] == 4096 * page + 7
    requires m[1024 * page + va / 4096 % 1024] == if present then 4096 * frame + 3 else 0
    ensures Walk(m, cr3, va) == if present then Some(4096 * frame + va % 4096) else None
  {
    var pde, pte := m[cr3 / 4 + va / 0x40_0000], m[1024 * page + va / 4096 % 1024];
    EntryFields(pde, page, 7);
    if present {
      EntryFields(pte, frame, 3);
    }
  }

  lemma EntryFields(w: nat, page: nat, low: nat)
    requires w == 4096 * page + low && low < 4096
    ensures w / 4096 == page && w % 4096 == low && w % 2 == low % 2 && (w - w % 4096) / 4 == 1024 * page
  {
    assert w / 4096 == page;
    assert w / 2 == 2048 * page + low / 2;
  }

  /** The physical address `kmalloc` computes from an entry: its frame, and the
      low 12 bits of the virtual address. */
  function Reported(entry: Word, va: Word): Word {
    entry / 4096 * 4096 + va % 4096
  }

  /** Reading the entry of `va` through the kernel's own table pointers agrees with
      the processor's walk wherever the page is present. */
  lemma EntryAgrees(m: seq<Word>, l: Layout, va: Word)
    requires Holds(m, l) && l.hasHeap && l.cleared && TablePage(l, va / 0x40_0000) != 0
    ensures m[1024 * l.kp + va / 0x40_0000] == 4096 * TablePage(l, va / 0x40_0000)
    ensures Reported(m[1024 * TablePage(l, va / 0x40_0000) + va / 4096 % 1024], va) ==
            match Walk(m, 4096 * (l.kp + 1), va)
            case Some(pa) => pa
            case None => va % 4096
  {
    var x, o := va / 0x40_0000, va / 4096 % 1024;
    assert DirAt(m, l, x);
    if x < l.t {
      assert PteAt(m, l, x, o);
      EntryVia(m, 4096 * (l.kp + 1), va, l.kp + 5 + 2 * x, 1024 * x + o, PteWord(l, 1024 * x + o) != 0);
    } else {
      assert HeapAt(m, l, o);
      EntryVia(m, 4096 * (l.kp + 1), va, l.kp + 3, l.p + o, o < l.h);
    }
  }

  lemma EntryVia(m: seq<Word>, cr3: nat, va: Word, page: nat, frame: nat, present: bool)
    requires |m| == RAM_WORDS && cr3 <= TWO_32 - 4096 && page < 0xF_FFFF
    requires m[cr3 / 4 + va / 0x40_0000] == 4096 * page + 7
    requires m[1024 * page + va / 4096 % 1024] == if present then 4096 * frame + 3 else 0
    ensures Reported(m[1024 * page + va / 4096 % 1024], va) ==
            match Walk(m, cr3, va) case Some(pa) => pa case None => va % 4096
  {
    WalkVia(m, cr3, va, page, frame, present);
    if present {
      EntryFields(m[1024 * page + va / 4096 % 1024], frame, 3);
    }
  }

  /** The `size` bytes at `va` are the `size` bytes at physical `pa`. */
  ghost predicate Contiguous(m: seq<Word>, cr3: nat, va: nat, pa: nat, size: nat)
    requires |m| == RAM_WORDS && cr3 <= TWO_32 - 4096
  {
    forall v: Word :: va <= v < va + size ==> Walk(m, cr3, v) == Some(pa + (v - va))
  }

  lemma WindowContiguous(m: seq<Word>, l: Layout, va: Word, size: nat)
    requires Holds(m, l) && l.hasHeap && l.cleared && l.h == HEAP_PAGES
    requires KHEAP_BASE <= va && va + size <= KHEAP_BASE + KHEAP_SIZE && size > 0
    ensures Walk(m, 4096 * (l.kp + 1), va).Some?
    ensures Contiguous(m, 4096 * (l.kp + 1), va, Walk(m, 4096 * (l.kp + 1), va).value, size)
  {
    WalkIsMapsTo(m, l, va);
    var cr3, pa := 4096 * (l.kp + 1), Walk(m, 4096 * (l.kp + 1), va).value;
    forall v: Word | va <= v < va + size
      ensures Walk(m, cr3, v) == Some(pa + (v - va))
    {
      WalkIsMapsTo(m, l, v);
    }
  }

  /** No two mapped addresses share a physical address. */
  lemma MapsToInjective(p: nat, h: nat, va: Word, vb: Word)
    requires MapsTo(p, h, va).Some? && MapsTo(p, h, va) == MapsTo(p, h, vb)
    ensures va == vb
  {
  }
}
