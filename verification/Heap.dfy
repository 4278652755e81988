/** lib/mem.c itself: the allocator's loops over the word array, proved to
    refine the block functions. */
module Heap {
  import opened Words
  import opened Mcb
  import opened HeapBlocks
  import opened HeapTheory
  import opened HeapRuns
  import opened HeapWords

  /** What `free_memory` does: return 0, return -1, or read through a null
      pointer (lib/mem.c:57 calls `mcb_next` on what may be NULL). */
  datatype FreeOutcome = Freed | NotFound | NullFault

  /** `mcb_next` (lib/mem.c:62). */
  function McbNext(m: seq<Word>, k: nat): int
    requires k < |m|
  {
    if IsEnd(m[k]) then NULL else k + 1 + Size(m[k]) / 4
  }

  /** `mcb_next` steps from block to block and stops after the last one. */
  lemma McbNextStep(m: seq<Word>, bs: seq<Block>, i: nat)
    requires Tiles(m, bs) && i < |bs|
    ensures Off(bs, i) + 1 + bs[i].words <= |m|
    ensures m[Off(bs, i)] == Header(bs[i], i == |bs| - 1)
    ensures Size(m[Off(bs, i)]) == 4 * bs[i].words && IsFree(m[Off(bs, i)]) == bs[i].free
    ensures IsEnd(m[Off(bs, i)]) == (i == |bs| - 1)
    ensures McbNext(m, Off(bs, i)) == if i + 1 < |bs| then Off(bs, i + 1) else NULL
  {
    assert HeaderAt(m, bs, i);
    HeaderFields(bs[i], i == |bs| - 1);
    OffMonotonic(bs, i, |bs|);
  }

  /** The header words an allocation writes make the new block list's tiling. */
  lemma CarveTiles(m: seq<Word>, m': seq<Word>, bs: seq<Block>, i: nat, n: nat)
    requires Tiles(m, bs) && i < |bs| && Fits(bs[i], n) && Off(bs, i) + bs[i].words < |m|
    requires SameOutside(m, m', Off(bs, i), Off(bs, i) + 1 + bs[i].words)
    requires var c, p, last := Carve(bs[i], n), Off(bs, i), i == |bs| - 1;
             && m'[p] == Header(c[0], last && |c| == 1)
             && (|c| == 2 ==> m'[p + 1 + n] == Header(c[1], last))
    ensures Tiles(m', CarveAt(bs, i, n)) && PayloadsKept(bs, m, m')
  {
    var c, cs := Carve(bs[i], n), CarveAt(bs, i, n);
    CarveSpliced(bs, i, n);
    assert HeaderAt(m', cs, i) && (|c| == 2 ==> HeaderAt(m', cs, i + 1));
    TilesSplice(m, m', bs, cs, i, i + 1, i + |c|);
    WritesInFreeBlock(bs, m, m', i);
  }

  /** Splitting: the two header words written are those of the two new blocks. */
  lemma SplitTiles(m: seq<Word>, m': seq<Word>, bs: seq<Block>, i: nat, n: nat, p: nat)
    requires Tiles(m, bs) && i < |bs| && bs[i].free && bs[i].words > n + 1
    requires p == Off(bs, i) && p + bs[i].words < |m| && 4 * |m| < TWO_32
    requires m' == m[p + 1 + n := Header(Block(bs[i].words - n - 1, true), i == |bs| - 1)][p := 4 * n]
    ensures Tiles(m', CarveAt(bs, i, n)) && PayloadsKept(bs, m, m')
  {
    SplitWords(m, m', bs[i], p, n, i == |bs| - 1);
    CarveTiles(m, m', bs, i, n);
  }

  lemma SplitWords(m: seq<Word>, m': seq<Word>, b: Block, p: nat, n: nat, last: bool)
    requires b.words > n + 1 && p + b.words < |m| && 4 * |m| < TWO_32
    requires m' == m[p + 1 + n := Header(Block(b.words - n - 1, true), last)][p := 4 * n]
    ensures SameOutside(m, m', p, p + 1 + b.words)
    ensures var c := Carve(b, n);
            |c| == 2 && m'[p] == Header(c[0], false) && m'[p + 1 + n] == Header(c[1], last)
  {
  }

  /** Taking a block whole: FREE is cleared and END stays. */
  lemma WholeTiles(m: seq<Word>, bs: seq<Block>, i: nat, n: nat)
    requires Tiles(m, bs) && i < |bs| && Fits(bs[i], n) && bs[i].words <= n + 1
    requires Off(bs, i) + bs[i].words < |m| && m[Off(bs, i)] == Header(bs[i], i == |bs| - 1)
    ensures var m' := m[Off(bs, i) := ClrFree(m[Off(bs, i)])];
            Tiles(m', CarveAt(bs, i, n)) && PayloadsKept(bs, m, m')
  {
    HeaderFields(bs[i], i == |bs| - 1);
    CarveTiles(m, m[Off(bs, i) := ClrFree(m[Off(bs, i)])], bs, i, n);
  }

  lemma CarveSpliced(bs: seq<Block>, i: nat, n: nat)
    requires i < |bs| && Fits(bs[i], n)
    ensures var c, cs := Carve(bs[i], n), CarveAt(bs, i, n);
            && Spliced(bs, cs, i, i + 1, i + |c|) && Off(cs, i) == Off(bs, i)
            && cs[i] == c[0] && (|c| == 2 ==> cs[i + 1] == c[1] && Off(cs, i + 1) == Off(bs, i) + 1 + n)
  {
    var c, cs := Carve(bs[i], n), CarveAt(bs, i, n);
    assert cs[..i] == bs[..i] && cs[i + |c|..] == bs[i + 1..];
    OffPrefix(bs, cs, i);
  }

  /** The header word a release leaves makes the merged block list's tiling. */
  lemma MergeTiles(m: seq<Word>, m': seq<Word>, bs: seq<Block>, lo: nat, i: nat, hi: nat)
    requires Tiles(m, bs) && lo <= i < hi <= |bs| && Off(bs, lo) < |m| == |m'|
    requires forall k :: 0 <= k < |m| && k != Off(bs, lo) && k != Off(bs, i) ==> m'[k] == m[k]
    requires m'[Off(bs, lo)] == Header(Merged(bs[lo..hi]), hi == |bs|)
    ensures Tiles(m', MergeAt(bs, lo, hi)) && PayloadsKept(bs, m, m')
  {
    var cs := MergeAt(bs, lo, hi);
    RunSpan(bs, lo, hi);
    MergeSpliced(bs, lo, hi);
    assert HeaderAt(m', cs, lo);
    assert SameOutside(m, m', Off(bs, lo), Off(bs, hi)) by {
      OffMonotonic(bs, i, hi);
      if lo < i { OffMonotonic(bs, lo, i); }
    }
    TilesSplice(m, m', bs, cs, lo, hi, lo + 1);
    WritesInHeaders(bs, m, m', lo, i);
  }

  /** The header of block `i` once it is free and has absorbed a free successor. */
  lemma GrowForward(m: seq<Word>, bs: seq<Block>, i: nat)
    requires Tiles(m, bs) && i < |bs| && !bs[i].free && 4 * |m| <= TWO_32
    requires HeaderAt(m, bs, i) && (i + 1 < |bs| ==> HeaderAt(m, bs, i + 1))
    ensures var hi, own := MergeHi(bs, i), SetFree(m[Off(bs, i)]);
            (if hi == i + 1 then own else Absorb(own, m[Off(bs, i + 1)])) == Header(Merged(bs[i..hi]), hi == |bs|)
    ensures i + 1 < |bs| ==> Off(bs, i) < Off(bs, i + 1) && IsFree(m[Off(bs, i + 1)]) == bs[i + 1].free
  {
    var hi := MergeHi(bs, i);
    McbNextStep(m, bs, i);
    MergedWords(bs, i, hi, |m|);
    if i + 1 < |bs| {
      McbNextStep(m, bs, i + 1);
      if hi == i + 2 { AbsorbHeader(Block(bs[i].words, true), bs[i + 1], hi == |bs|); }
    }
  }

  /** The header of a free predecessor once it has absorbed what follows. */
  lemma GrowBackward(m: seq<Word>, bs: seq<Block>, i: nat)
    requires Tiles(m, bs) && 0 < i < |bs| && 4 * |m| <= TWO_32 && HeaderAt(m, bs, i - 1)
    ensures var hi := MergeHi(bs, i);
            var grown := Header(Merged(bs[i..hi]), hi == |bs|);
            grown < TWO_32 &&
            (bs[i - 1].free ==>
               Absorb(m[Off(bs, i - 1)], grown) == Header(Merged(bs[i - 1..hi]), hi == |bs|))
    ensures Off(bs, i - 1) < Off(bs, i) && IsFree(m[Off(bs, i - 1)]) == bs[i - 1].free
  {
    var hi := MergeHi(bs, i);
    McbNextStep(m, bs, i - 1);
    MergedWords(bs, i, hi, |m|);
    MergedWords(bs, i - 1, hi, |m|);
    if bs[i - 1].free { AbsorbHeader(bs[i - 1], Merged(bs[i..hi]), hi == |bs|); }
  }

  lemma MergedWords(bs: seq<Block>, lo: nat, hi: nat, size: nat)
    requires lo < hi <= |bs| && Span(bs) == size
    ensures Merged(bs[lo..hi]).words == Off(bs, hi) - Off(bs, lo) - 1 < size
  {
    RunSpan(bs, lo, hi);
    OffMonotonic(bs, lo, hi);
  }

  lemma MergeSpliced(bs: seq<Block>, lo: nat, hi: nat)
    requires lo < hi <= |bs|
    ensures var cs := MergeAt(bs, lo, hi);
            Spliced(bs, cs, lo, hi, lo + 1) && Off(cs, lo) == Off(bs, lo) && cs[lo] == Merged(bs[lo..hi])
  {
    var cs := MergeAt(bs, lo, hi);
    assert cs[..lo] == bs[..lo] && cs[lo + 1..] == bs[hi..];
    OffPrefix(bs, cs, lo);
    RunSpan(bs, lo, hi);
  }

  class Allocator {
    /** Address of the first header, `memlist`. */
    const base: nat
    /** The region `kmalloc` returned, one element a 32-bit word. */
    const mem: array<Word>
    ghost var blocks: seq<Block>

    ghost predicate Valid()
      reads this, mem
    {
      && base > 0 && base + 4 * mem.Length <= TWO_32
      && Tiles(mem[..], blocks)
      && Coalesced(blocks)
    }

    /** `ptr` is the address of a live payload. */
    ghost predicate IsLive(bs: seq<Block>, ptr: nat) {
      var a := (ptr - base) / 4;
      a >= 0 && ptr == base + 4 * a && a in Live(bs, 0)
    }

    /** `initialize_heap`; `base` is what `kmalloc` returns. */
    constructor (sz: Word, base: nat)
      requires base > 0 && base + Roundup(sz) + 4 <= TWO_32
      ensures Valid() && fresh(mem) && this.base == base
      ensures blocks == Initial(sz).blocks
      ensures mem.Length == Roundup(sz) / 4 + 1 && mem[0] == Roundup(sz) + 3
    {
      RoundupCovers(sz);
      var rounded := Roundup(sz);
      this.base := base;
      mem := new Word[rounded / 4 + 1];
      blocks := [Block(rounded / 4, true)];
      new;
      mem[0] := rounded + 3;
      assert HeaderAt(mem[..], blocks, 0);
      assert Span(blocks) == rounded / 4 + 1;
    }

    /** Lines 21-28 of lib/mem.c: split the block at `mcb` when more than a header
        is left over, and take it. */
    method Take(mcb: nat, sz: Word, ghost i: nat)
      requires Valid() && i < |blocks| && mcb == Off(blocks, i)
      requires sz % 4 == 0 && Fits(blocks[i], sz / 4)
      modifies mem, `blocks
      ensures Valid()
      ensures blocks == CarveAt(old(blocks), i, sz / 4)
      ensures PayloadsKept(old(blocks), old(mem[..]), mem[..])
    {
      ghost var n := sz / 4;
      ghost var m := mem[..];
      McbNextStep(m, blocks, i);
      assert mem[mcb] == m[mcb];
      AddSmall(sz, 4);
      ghost var want;
      if Size(mem[mcb]) > Add(sz, 4) {
        var newfree := mcb + 1 + sz / 4;
        RestHeader(blocks[i].words - n - 1, m[mcb]);
        mem[newfree] := CopyEnd(SetFree(Size(mem[mcb]) - sz - 4), mem[mcb]);
        mem[mcb] := sz;
        want := m[newfree := mem[newfree]][mcb := sz];
        SplitTiles(m, want, blocks, i, n, mcb);
      } else {
        WholeTiles(m, blocks, i, n);
        want := m[mcb := ClrFree(m[mcb])];
      }
      mem[mcb] := ClrFree(mem[mcb]);
      assert mem[..] == want;
      CarveCoalesced(blocks, i, n);
      blocks := CarveAt(blocks, i, n);
    }

    /** `allocate_memory`. */
    method AllocateMemory(request: Word) returns (ptr: nat)
      requires Valid()
      modifies mem, `blocks
      ensures Valid()
      ensures blocks == Allocate(old(blocks), WordsFor(request))
      ensures var i := FirstFit(old(blocks), WordsFor(request));
              if i == |old(blocks)| then ptr == 0
              else
                && ptr == base + 4 * (Off(old(blocks), i) + 1)
                && base + 4 <= ptr && ptr + Roundup(request) <= base + 4 * mem.Length
      ensures PayloadsKept(old(blocks), old(mem[..]), mem[..])
    {
      var sz := Roundup(request);
      RoundupCovers(request);
      ghost var n := WordsFor(request);
      var mcb := 0;
      ghost var i := 0;
      while mcb != NULL
        invariant i <= |blocks|
        invariant mcb == if i < |blocks| then Off(blocks, i) else NULL
        invariant forall j :: 0 <= j < i ==> !Fits(blocks[j], n)
        invariant mem[..] == old(mem[..]) && blocks == old(blocks)
        decreases |blocks| - i
      {
        McbNextStep(mem[..], blocks, i);
        assert mem[mcb] == mem[..][mcb];
        if Size(mem[mcb]) >= sz && IsFree(mem[mcb]) {
          assert FirstFit(blocks, n) == i;
          Take(mcb, sz, i);
          return base + 4 * (mcb + 1);
        }
        mcb := McbNext(mem[..], mcb);
        i := i + 1;
      }
      assert FirstFit(blocks, n) == |blocks|;
      return 0;
    }
  
    /** Lines 43-51 of lib/mem.c: mark the block at `mcb` free and merge it with
        its free neighbours. */
    method Merge(prev: int, mcb: nat, next: int, ghost i: nat)
      requires Valid() && i < |blocks| && !blocks[i].free && mcb == Off(blocks, i)
      requires prev == if i > 0 then Off(blocks, i - 1) else NULL
      requires next == if i + 1 < |blocks| then Off(blocks, i + 1) else NULL
      modifies mem, `blocks
      ensures Valid()
      ensures blocks == Release(old(blocks), i)
      ensures PayloadsKept(old(blocks), old(mem[..]), mem[..])
    {
      ghost var m := mem[..];
      ghost var lo, hi := MergeLo(blocks, i), MergeHi(blocks, i);
      ghost var last := hi == |blocks|;
      McbNextStep(m, blocks, i);
      assert HeaderAt(m, blocks, i);
      assert i + 1 < |blocks| ==> HeaderAt(m, blocks, i + 1);
      GrowForward(m, blocks, i);
      if i > 0 {
        assert HeaderAt(m, blocks, i - 1);
        GrowBackward(m, blocks, i);
      }
      mem[mcb] := SetFree(mem[mcb]);
      if next != NULL && IsFree(mem[next]) {
        mem[mcb] := Absorb(mem[mcb], mem[next]);
      }
      assert mem[mcb] == Header(Merged(blocks[i..hi]), last);
      if prev != NULL && IsFree(mem[prev]) {
        mem[prev] := Absorb(mem[prev], mem[mcb]);
      }
      assert mem[Off(blocks, lo)] == Header(Merged(blocks[lo..hi]), last);
      MergeTiles(m, mem[..], blocks, lo, i, hi);
      ReleaseCoalesced(blocks, i);
      blocks := Release(blocks, i);
    }

    /** `free_memory`. The call succeeds exactly on the pointer of a live block;
        on any other pointer the walk ends in a read through NULL, and -1 is
        never returned. */
    method FreeMemory(ptr: nat) returns (r: FreeOutcome)
      requires Valid()
      modifies mem, `blocks
      ensures Valid()
      ensures r == Freed <==> exists j :: 0 <= j < |old(blocks)| && LiveBlockAt(old(blocks), j, ptr)
      ensures r == Freed || r == NullFault
      ensures r == Freed <==> IsLive(old(blocks), ptr)
      ensures blocks == if r == Freed then ReleaseAt(old(blocks), (ptr - base) / 4) else old(blocks)
      ensures r != Freed ==> mem[..] == old(mem[..])
      ensures PayloadsKept(old(blocks), old(mem[..]), mem[..])
    {
      var prev := NULL;
      var mcb := 0;
      ghost var i := 0;
      McbNextStep(mem[..], blocks, 0);
      var next := McbNext(mem[..], mcb);
      while true
        invariant i < |blocks| && mcb == Off(blocks, i)
        invariant prev == if i > 0 then Off(blocks, i - 1) else NULL
        invariant next == if i + 1 < |blocks| then Off(blocks, i + 1) else NULL
        invariant forall j :: 0 <= j < i ==> !LiveBlockAt(blocks, j, ptr)
        invariant mem[..] == old(mem[..]) && blocks == old(blocks)
        decreases |blocks| - i
      {
        McbNextStep(mem[..], blocks, i);
        assert mem[mcb] == mem[..][mcb];
        if base + 4 * (mcb + 1) == ptr && !IsFree(mem[mcb]) {
          assert LiveBlockAt(old(blocks), i, ptr);
          BlockIsLive(ptr, i);
          Merge(prev, mcb, next, i);
          return Freed;
        }
        prev := mcb;
        if next == NULL {
          LiveIsBlock(ptr);
          return NullFault;
        }
        mcb := next;
        i := i + 1;
        McbNextStep(mem[..], blocks, i);
        next := McbNext(mem[..], mcb);
      }
    }

    /** Block `j` is in use and `ptr` is the address behind its header. */
    ghost predicate LiveBlockAt(bs: seq<Block>, j: nat, ptr: nat)
      requires j < |bs|
    {
      !bs[j].free && ptr == base + 4 * (Off(bs, j) + 1)
    }

    lemma BlockIsLive(ptr: nat, j: nat)
      requires j < |blocks| && LiveBlockAt(blocks, j, ptr)
      ensures IsLive(blocks, ptr) && ReleaseAt(blocks, (ptr - base) / 4) == Release(blocks, j)
    {
      LiveAt(blocks, 0, j);
    }

    lemma LiveIsBlock(ptr: nat)
      ensures IsLive(blocks, ptr) ==> exists j :: 0 <= j < |blocks| && LiveBlockAt(blocks, j, ptr)
    {
      var a := (ptr - base) / 4;
      if IsLive(blocks, ptr) {
        IndexOfLive(blocks, 0, a);
        assert LiveBlockAt(blocks, IndexOf(blocks, 0, a), ptr);
      }
    }
  }

  /** A live payload, as the words a client sees. */
  ghost function Payload(m: seq<Word>, bs: seq<Block>, a: nat): seq<Word>
    requires Span(bs) == |m| && a in Live(bs, 0)
  {
    LiveBounds(bs, 0, a);
    m[a..a + Live(bs, 0)[a]]
  }

  lemma PayloadSame(m: seq<Word>, m': seq<Word>, bs: seq<Block>, a: nat)
    requires PayloadsKept(bs, m, m') && Span(bs) == |m| && a in Live(bs, 0)
    ensures Payload(m, bs, a) == Payload(m', bs, a)
  {
    IndexOfLive(bs, 0, a);
    LiveBounds(bs, 0, a);
    var i := IndexOf(bs, 0, a);
    forall k | a <= k < a + bs[i].words
      ensures m'[k] == m[k]
    {
      assert InPayload(bs, i, k);
    }
  }

  /** A call of the allocator made on the word array. A successful allocation gives
      the request an address, which is the key of its entry in the ledger. */
  method Call(h: Allocator, op: Op, ghost s: State, ghost total: nat) returns (ptr: nat)
    requires h.Valid() && Inv(s, total) && h.blocks == s.blocks && Enabled(s, op) && !op.Store?
    modifies h.mem, h`blocks
    ensures h.Valid() && h.blocks == Step(s, op).blocks
    ensures PayloadsKept(s.blocks, old(h.mem[..]), h.mem[..])
    ensures op.Alloc? && ptr == 0 ==> Step(s, op) == s
    ensures op.Alloc? && ptr != 0 ==>
              && h.base + 4 <= ptr && ptr + Roundup(op.request) <= h.base + 4 * h.mem.Length
              && exists a :: ptr == h.base + 4 * a && Step(s, op).ledger == s.ledger[a := op.request]
    ensures op.Free? ==> ptr == h.base + 4 * op.addr
  {
    match op
    case Alloc(request) =>
      ptr := h.AllocateMemory(request);
    case Free(addr) =>
      ptr := h.base + 4 * addr;
      assert (ptr - h.base) / 4 == addr && h.IsLive(s.blocks, ptr);
      assert ReleaseAt(s.blocks, (ptr - h.base) / 4) == Step(s, op).blocks;
      var r := h.FreeMemory(ptr);
  }

  /** A client stores into its own payload. */
  method StoreWord(h: Allocator, addr: nat, k: nat, w: Word)
    requires h.Valid() && addr in Live(h.blocks, 0) && k < Live(h.blocks, 0)[addr]
    modifies h.mem
    ensures h.Valid() && addr + k < h.mem.Length && h.mem[..] == old(h.mem[..])[addr + k := w]
  {
    ghost var i := IndexOf(h.blocks, 0, addr);
    IndexOfLive(h.blocks, 0, addr);
    LiveBounds(h.blocks, 0, addr);
    StoreTiles(h.mem[..], h.blocks, i, addr + k, w);
    h.mem[addr + k] := w;
  }

  /** The payload `p` at `a` once the stores of `ops` into it have been made. */
  function Written(p: seq<Word>, a: nat, ops: seq<Op>): (r: seq<Word>)
    ensures |r| == |p|
    decreases |ops|
  {
    if ops == [] then p else Written(WrittenBy(p, a, ops[0]), a, ops[1..])
  }

  function WrittenBy(p: seq<Word>, a: nat, op: Op): seq<Word> {
    if op.Store? && op.addr == a && op.k < |p| then p[op.k := op.w] else p
  }

  /** The payload at `a` is live in both heaps, with the same size, and its words
      changed from `m` to `m'` exactly by the stores of `ops` into it. */
  ghost predicate KeptAt(m: seq<Word>, bs: seq<Block>, m': seq<Word>, bs': seq<Block>, a: nat, ops: seq<Op>) {
    && Span(bs) == |m| && Span(bs') == |m'| && a in Live(bs, 0) && a in Live(bs', 0)
    && Payload(m', bs', a) == Written(Payload(m, bs, a), a, ops)
  }

  /** What one step may do to memory: a call keeps all live payloads, a store
      changes one word. */
  ghost predicate Stepped(bs: seq<Block>, op: Op, m: seq<Word>, m': seq<Word>) {
    if op.Store? then op.addr + op.k < |m| && m' == m[op.addr + op.k := op.w] else PayloadsKept(bs, m, m')
  }

  /** Carry out one step of a run on the word array. */
  method Perform(h: Allocator, op: Op, ghost s: State, ghost total: nat)
    requires h.Valid() && Inv(s, total) && h.blocks == s.blocks && Enabled(s, op)
    modifies h.mem, h`blocks
    ensures h.Valid() && h.blocks == Step(s, op).blocks
    ensures Stepped(s.blocks, op, old(h.mem[..]), h.mem[..])
  {
    match op
    case Store(addr, k, w) =>
      StoreWord(h, addr, k, w);
    case _ =>
      var ptr := Call(h, op, s, total);
  }

  /** A store changes its own word of its own payload and no other payload. */
  lemma StoreEffect(m: seq<Word>, bs: seq<Block>, addr: nat, k: nat, w: Word, a: nat)
    requires Span(bs) == |m| && addr in Live(bs, 0) && k < Live(bs, 0)[addr] && a in Live(bs, 0)
    ensures addr + k < |m|
    ensures Payload(m[addr + k := w], bs, a) == WrittenBy(Payload(m, bs, a), a, Store(addr, k, w))
  {
    LiveBounds(bs, 0, addr);
    LiveBounds(bs, 0, a);
    if a < addr { LiveDisjoint(bs, 0, a, addr); }
    if addr < a { LiveDisjoint(bs, 0, addr, a); }
  }

  /** A step keeps the place and size of every live payload it does not free, and
      its words but for the one its owner stores. */
  lemma StepKeepsPayload(s: State, op: Op, total: nat, m: seq<Word>, m': seq<Word>, a: nat)
    requires Inv(s, total) && Enabled(s, op) && |m| == total && Stepped(s.blocks, op, m, m')
    requires a in s.ledger && op != Free(a)
    ensures Inv(Step(s, op), total) && a in Step(s, op).ledger
    ensures KeptAt(m, s.blocks, m', Step(s, op).blocks, a, [op])
  {
    StepKeepsInv(s, op, total);
    StepKeepsLive(s, op, total, a);
    if op.Store? {
      StoreEffect(m, s.blocks, op.addr, op.k, op.w, a);
    } else {
      PayloadSame(m, m', s.blocks, a);
    }
    WrittenOne(Payload(m, s.blocks, a), a, op);
  }

  lemma WrittenOne(p: seq<Word>, a: nat, op: Op)
    ensures Written(p, a, [op]) == WrittenBy(p, a, op)
  {
    assert [op][1..] == [];
  }

  lemma KeptThrough(m: seq<Word>, bs: seq<Block>, m1: seq<Word>, bs1: seq<Block>,
                    m2: seq<Word>, bs2: seq<Block>, a: nat, ops: seq<Op>)
    requires ops != [] && KeptAt(m, bs, m1, bs1, a, [ops[0]]) && KeptAt(m1, bs1, m2, bs2, a, ops[1..])
    ensures KeptAt(m, bs, m2, bs2, a, ops)
  {
    WrittenOne(Payload(m, bs, a), a, ops[0]);
  }

  /** Every run of allocations, live frees and client stores on the word array ends
      in words that decode to the block list the pure run gives. Every payload that
      the run does not free keeps its place and size, and holds what it held with
      its owner's stores made in order: nothing else writes into it. */
  method RunOps(h: Allocator, ops: seq<Op>, ghost s: State, ghost total: nat)
    requires h.Valid() && Inv(s, total) && h.blocks == s.blocks && Legal(s, ops)
    modifies h.mem, h`blocks
    ensures h.Valid() && h.blocks == Exec(s, ops).blocks
    ensures forall a :: a in s.ledger && Free(a) !in ops ==>
              KeptAt(old(h.mem[..]), s.blocks, h.mem[..], h.blocks, a, ops)
    decreases |ops|
  {
    ghost var m := h.mem[..];
    if |ops| == 0 {
      forall a | a in s.ledger
        ensures KeptAt(m, s.blocks, m, s.blocks, a, [])
      {
        assert a in Live(s.blocks, 0);
      }
      return;
    }
    Perform(h, ops[0], s, total);
    ghost var t, m1 := Step(s, ops[0]), h.mem[..];
    StepKeepsInv(s, ops[0], total);
    RunOps(h, ops[1..], t, total);
    forall a | a in s.ledger && Free(a) !in ops
      ensures KeptAt(m, s.blocks, h.mem[..], h.blocks, a, ops)
    {
      StepKeepsPayload(s, ops[0], total, m, m1, a);
      assert KeptAt(m1, t.blocks, h.mem[..], h.blocks, a, ops[1..]);
      KeptThrough(m, s.blocks, m1, t.blocks, h.mem[..], h.blocks, a, ops);
    }
  }

  /** In bytes, with the first header at address `base`: the payload of the live
      allocation at `a` lies in the region of `size` bytes, behind the first header,
      holds what was asked for when the rounding did not wrap, and meets no header
      and no other live payload. */
  ghost predicate PayloadApart(s: State, base: nat, size: nat, a: nat)
    requires a in s.ledger
  {
    var lo, hi := base + 4 * a, base + 4 * a + Roundup(s.ledger[a]);
    && base + 4 <= lo && hi <= base + size
    && (s.ledger[a] <= 0xFFFF_FFFC ==> lo + s.ledger[a] <= hi)
    && (forall j :: 0 <= j < |s.blocks| ==> AwayFrom(lo, hi, base + 4 * Off(s.blocks, j), 4))
    && (forall b :: b in s.ledger && b != a ==> AwayFrom(lo, hi, base + 4 * b, Roundup(s.ledger[b])))
  }

  /** That holds of every live allocation in every state of a run. */
  lemma BytesApart(s: State, total: nat, base: nat, a: nat)
    requires Inv(s, total) && a in s.ledger
    ensures PayloadApart(s, base, 4 * total, a)
  {
    ServesBytes(s, total, a);
    LiveBounds(s.blocks, 0, a);
    forall j | 0 <= j < |s.blocks|
      ensures AwayFrom(base + 4 * a, base + 4 * a + Roundup(s.ledger[a]), base + 4 * Off(s.blocks, j), 4)
    {
      HeaderApart(s.blocks, a, j);
    }
    forall b | b in s.ledger && b != a
      ensures AwayFrom(base + 4 * a, base + 4 * a + Roundup(s.ledger[a]), base + 4 * b, Roundup(s.ledger[b]))
    {
      ServesBytes(s, total, b);
      if a < b { LiveDisjoint(s.blocks, 0, a, b); } else { LiveDisjoint(s.blocks, 0, b, a); }
    }
  }

  /** The same after every run from `initialize_heap(sz)`, whose region has
      Roundup(sz) + 4 bytes. */
  lemma ReachableBytes(sz: Word, ops: seq<Op>, base: nat, a: nat)
    requires Legal(Initial(sz), ops) && a in Exec(Initial(sz), ops).ledger
    ensures PayloadApart(Exec(Initial(sz), ops), base, Roundup(sz) + 4, a)
  {
    ReachableInv(sz, ops);
    RoundupCovers(sz);
    BytesApart(Exec(Initial(sz), ops), Roundup(sz) / 4 + 1, base, a);
  }

  /** The bytes from `lo` to `hi` and the `n` bytes at `at` have none in common. */
  predicate AwayFrom(lo: nat, hi: nat, at: nat, n: nat) {
    hi <= at || at + n <= lo
  }

  lemma ServesBytes(s: State, total: nat, a: nat)
    requires Inv(s, total) && a in s.ledger
    ensures a in Live(s.blocks, 0) && Roundup(s.ledger[a]) <= 4 * Live(s.blocks, 0)[a]
    ensures s.ledger[a] <= 0xFFFF_FFFC ==> s.ledger[a] <= Roundup(s.ledger[a])
  {
    RoundupCovers(s.ledger[a]);
    assert Serves(Live(s.blocks, 0)[a], s.ledger[a]);
  }

  lemma HeaderApart(bs: seq<Block>, a: nat, j: nat)
    requires a in Live(bs, 0) && j < |bs|
    ensures Off(bs, j) < a || a + Live(bs, 0)[a] <= Off(bs, j)
  {
    IndexOfLive(bs, 0, a);
    var i := IndexOf(bs, 0, a);
    if i < j { OffMonotonic(bs, i, j); }
    if j < i { OffMonotonic(bs, j, i); }
  }

  /** From `initialize_heap(sz)`: any run at all; and when it has freed everything,
      in whatever order, the first word is the single header sz|FREE|END again. */
  method RunFromStart(sz: Word, base: nat, ops: seq<Op>) returns (h: Allocator)
    requires base > 0 && base + Roundup(sz) + 4 <= TWO_32 && Legal(Initial(sz), ops)
    ensures fresh(h) && h.Valid() && h.blocks == Exec(Initial(sz), ops).blocks
    ensures h.base == base && h.mem.Length == Roundup(sz) / 4 + 1
    ensures Exec(Initial(sz), ops).ledger == map[] ==>
              h.mem[0] == Roundup(sz) + 3
  {
    h := new Allocator(sz, base);
    RunOps(h, ops, Initial(sz), WordsFor(sz) + 1);
    RoundupCovers(sz);
    if Exec(Initial(sz), ops).ledger == map[] {
      AllFreedIsInitial(sz, ops);
      assert HeaderAt(h.mem[..], h.blocks, 0);
    }
  }

  ghost predicate SameHeader(m: seq<Word>, m': seq<Word>, bs: seq<Block>, i: nat)
    requires i < |bs|
  {
    Off(bs, i) < |m| && Off(bs, i) < |m'| && m'[Off(bs, i)] == m[Off(bs, i)]
  }

  /** `m` and `m'` hold the same header words for the blocks `bs`. */
  ghost predicate SameHeaders(m: seq<Word>, m': seq<Word>, bs: seq<Block>) {
    forall i :: 0 <= i < |bs| ==> SameHeader(m, m', bs, i)
  }

  lemma TilesSameHeaders(m: seq<Word>, m': seq<Word>, bs: seq<Block>)
    requires Tiles(m, bs) && Tiles(m', bs)
    ensures SameHeaders(m, m', bs)
  {
    forall i | 0 <= i < |bs|
      ensures SameHeader(m, m', bs, i)
    {
      assert HeaderAt(m, bs, i) && HeaderAt(m', bs, i);
    }
  }

  /** Freeing what was just allocated restores every header on the chain, word
      for word. */
  method AllocateThenFree(h: Allocator, request: Word) returns (ptr: nat, r: FreeOutcome)
    requires h.Valid() && FirstFit(h.blocks, WordsFor(request)) < |h.blocks|
    modifies h.mem, h`blocks
    ensures h.Valid() && ptr != 0 && r == Freed
    ensures h.blocks == old(h.blocks)
    ensures SameHeaders(old(h.mem[..]), h.mem[..], h.blocks)
  {
    ghost var bs := h.blocks;
    ghost var a := Off(bs, FirstFit(bs, WordsFor(request))) + 1;
    ReleaseUndoesAllocate(bs, WordsFor(request));
    ptr := h.AllocateMemory(request);
    ghost var cs := h.blocks;
    assert (ptr - h.base) / 4 == a && h.IsLive(cs, ptr) && ReleaseAt(cs, (ptr - h.base) / 4) == bs;
    r := h.FreeMemory(ptr);
    TilesSameHeaders(old(h.mem[..]), h.mem[..], bs);
  }
}
