/** The abstract heap: a sequence of blocks that tile the region, with first-fit
    allocation and two-sided merging as pure functions on it. */
module HeapBlocks {
  import opened Mcb

  /** Words taken by a run of blocks, headers included. */
  function Span(bs: seq<Block>): nat {
    if bs == [] then 0 else 1 + bs[0].words + Span(bs[1..])
  }

  /** Word index of the header of block `i`. */
  function Off(bs: seq<Block>, i: nat): nat
    requires i <= |bs|
  {
    if i == 0 then 0 else Off(bs, i - 1) + 1 + bs[i - 1].words
  }

  lemma {:induction false} SpanConcat(a: seq<Block>, b: seq<Block>)
    ensures Span(a + b) == Span(a) + Span(b)
  {
    if a == [] {
      assert a + b == b;
    } else {
      SpanConcat(a[1..], b);
      assert (a + b)[1..] == a[1..] + b;
    }
  }

  lemma {:induction false} OffIsSpan(bs: seq<Block>, i: nat)
    requires i <= |bs|
    ensures Off(bs, i) == Span(bs[..i])
    ensures i == |bs| ==> Off(bs, i) == Span(bs)
  {
    if i > 0 {
      OffIsSpan(bs, i - 1);
      assert bs[..i] == bs[..i - 1] + [bs[i - 1]];
      SpanConcat(bs[..i - 1], [bs[i - 1]]);
    }
    assert bs[..|bs|] == bs;
  }

  lemma {:induction false} OffMonotonic(bs: seq<Block>, i: nat, j: nat)
    requires i < j <= |bs|
    ensures Off(bs, i) + 1 + bs[i].words <= Off(bs, j) <= Span(bs)
    decreases |bs| - i
  {
    if j < |bs| {
      OffMonotonic(bs, j, |bs|);
    } else {
      OffIsSpan(bs, |bs|);
    }
    if i + 1 < j {
      OffMonotonic(bs, i + 1, j);
    }
  }

  /** The offset of a block seen from the second block on. */
  lemma {:induction false} OffTail(bs: seq<Block>, i: nat)
    requires i < |bs|
    ensures Off(bs, i + 1) == 1 + bs[0].words + Off(bs[1..], i)
  {
    if i > 0 { OffTail(bs, i - 1); }
  }

  /** No two neighbours are both free. */
  ghost predicate Coalesced(bs: seq<Block>) {
    forall i, j :: 0 <= i < j < |bs| && j == i + 1 ==> !(bs[i].free && bs[j].free)
  }

  predicate Fits(b: Block, n: nat) {
    b.free && b.words >= n
  }

  /** Index of the first free block of at least `n` words, or |bs|. */
  function FirstFit(bs: seq<Block>, n: nat): (i: nat)
    ensures i <= |bs|
    ensures i < |bs| ==> Fits(bs[i], n)
    ensures forall j :: 0 <= j < i ==> !Fits(bs[j], n)
  {
    if bs == [] || Fits(bs[0], n) then 0 else 1 + FirstFit(bs[1..], n)
  }

  /** What an allocation leaves of the chosen block. */
  function Carve(b: Block, n: nat): seq<Block>
    requires b.words >= n
  {
    if b.words > n + 1
    then [Block(n, false), Block(b.words - n - 1, true)]
    else [Block(b.words, false)]
  }

  /** The heap after block `i` serves an allocation of `n` words. */
  function CarveAt(bs: seq<Block>, i: nat, n: nat): seq<Block>
    requires i < |bs| && Fits(bs[i], n)
  {
    bs[..i] + Carve(bs[i], n) + bs[i + 1..]
  }

  /** The heap after an allocation of `n` words. */
  function Allocate(bs: seq<Block>, n: nat): seq<Block> {
    var i := FirstFit(bs, n);
    if i == |bs| then bs else CarveAt(bs, i, n)
  }

  /** First block of the run that merges when block `i` is freed. */
  function MergeLo(bs: seq<Block>, i: nat): (lo: nat)
    requires i < |bs|
    ensures lo <= i
  {
    if i > 0 && bs[i - 1].free then i - 1 else i
  }

  /** One past the last block of that run. */
  function MergeHi(bs: seq<Block>, i: nat): (hi: nat)
    requires i < |bs|
    ensures i < hi <= |bs|
  {
    if i + 1 < |bs| && bs[i + 1].free then i + 2 else i + 1
  }

  /** The heap after the run `bs[lo..hi]` becomes one free block. */
  function MergeAt(bs: seq<Block>, lo: nat, hi: nat): seq<Block>
    requires lo < hi <= |bs|
  {
    bs[..lo] + [Merged(bs[lo..hi])] + bs[hi..]
  }

  /** The heap after block `i` is freed. */
  function Release(bs: seq<Block>, i: nat): seq<Block>
    requires i < |bs|
  {
    MergeAt(bs, MergeLo(bs, i), MergeHi(bs, i))
  }

  /** One free block over the whole of a nonempty run. */
  function Merged(run: seq<Block>): Block
    requires run != []
  {
    Block(Span(run) - 1, true)
  }

  /** Payload word index -> payload words, for every live block of a run that
      starts at word `off`. */
  function Live(bs: seq<Block>, off: nat): map<nat, nat> {
    if bs == [] then map[]
    else
      var rest := Live(bs[1..], off + 1 + bs[0].words);
      if bs[0].free then rest else rest[off + 1 := bs[0].words]
  }

  // ---------------------------------------------------------------- splicing

  lemma SpanSplice(pre: seq<Block>, mid: seq<Block>, post: seq<Block>)
    ensures Span(pre + mid + post) == Span(pre) + Span(mid) + Span(post)
  {
    SpanConcat(pre + mid, post);
    SpanConcat(pre, mid);
  }

  /** Offsets depend only on the blocks before. */
  lemma OffPrefix(bs: seq<Block>, cs: seq<Block>, i: nat)
    requires i <= |bs| && i <= |cs| && bs[..i] == cs[..i]
    ensures Off(bs, i) == Off(cs, i)
  {
  }

  /** Offsets after a cut. */
  lemma OffDrop(bs: seq<Block>, hi: nat, k: nat)
    requires hi + k <= |bs|
    ensures Off(bs, hi + k) == Off(bs, hi) + Off(bs[hi..], k)
    decreases k
  {
  }

  lemma SpanFrom(bs: seq<Block>, hi: nat)
    requires hi <= |bs|
    ensures Span(bs) == Off(bs, hi) + Span(bs[hi..])
  {
    OffIsSpan(bs, hi);
    assert bs == bs[..hi] + bs[hi..];
    SpanConcat(bs[..hi], bs[hi..]);
  }

  /** The words of a run are those between the offsets of its ends. */
  lemma RunSpan(bs: seq<Block>, lo: nat, hi: nat)
    requires lo <= hi <= |bs|
    ensures Off(bs, hi) == Off(bs, lo) + Span(bs[lo..hi])
  {
    OffIsSpan(bs, lo);
    OffIsSpan(bs, hi);
    assert bs[..hi] == bs[..lo] + bs[lo..hi];
    SpanConcat(bs[..lo], bs[lo..hi]);
  }

  lemma {:induction false} LiveConcat(a: seq<Block>, b: seq<Block>, off: nat)
    ensures Live(a + b, off) == Live(b, off + Span(a)) + Live(a, off)
    decreases |a|
  {
    if a == [] {
      assert a + b == b;
    } else {
      LiveConcat(a[1..], b, off + 1 + a[0].words);
      assert (a + b)[1..] == a[1..] + b;
    }
  }

  lemma LiveSplice(pre: seq<Block>, mid: seq<Block>, post: seq<Block>, off: nat)
    ensures Live(pre + mid + post, off) ==
            Live(post, off + Span(pre) + Span(mid)) + Live(mid, off + Span(pre)) + Live(pre, off)
  {
    LiveConcat(pre + mid, post, off);
    LiveConcat(pre, mid, off);
    SpanConcat(pre, mid);
  }

  /** Live addresses of a run lie inside the run. */
  lemma {:induction false} LiveBounds(bs: seq<Block>, off: nat, a: nat)
    requires a in Live(bs, off)
    ensures off < a && a + Live(bs, off)[a] <= off + Span(bs)
    decreases |bs|
  {
    if bs[0].free || a != off + 1 {
      LiveBounds(bs[1..], off + 1 + bs[0].words, a);
    } else if a in Live(bs[1..], off + 1 + bs[0].words) {
      LiveBounds(bs[1..], off + 1 + bs[0].words, a);
    }
  }

  /** Live payloads are pairwise disjoint, with at least a header between. */
  lemma {:induction false} LiveDisjoint(bs: seq<Block>, off: nat, a: nat, b: nat)
    requires a in Live(bs, off) && b in Live(bs, off) && a < b
    ensures a + Live(bs, off)[a] < b
    decreases |bs|
  {
    var next := off + 1 + bs[0].words;
    if b in Live(bs[1..], next) { LiveBounds(bs[1..], next, b); }
    if a in Live(bs[1..], next) { LiveBounds(bs[1..], next, a); }
    if bs[0].free || a != off + 1 {
      LiveDisjoint(bs[1..], next, a, b);
    }
  }
}
