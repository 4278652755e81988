/** What one allocation and one release do to the live blocks, and the canonical
    form: a coalesced heap is determined by its live blocks alone. */
module HeapTheory {
  import opened Mcb
  import opened HeapBlocks

  /** Index of the live block whose payload is at word `a`, or |bs|. */
  function IndexOf(bs: seq<Block>, off: nat, a: nat): (i: nat)
    ensures i <= |bs|
  {
    if bs == [] || (!bs[0].free && a == off + 1) then 0
    else 1 + IndexOf(bs[1..], off + 1 + bs[0].words, a)
  }

  lemma {:induction false} IndexOfLive(bs: seq<Block>, off: nat, a: nat)
    ensures var i := IndexOf(bs, off, a);
            && (a in Live(bs, off) <==> i < |bs|)
            && (i < |bs| ==> !bs[i].free && a == off + Off(bs, i) + 1 && Live(bs, off)[a] == bs[i].words)
    decreases |bs|
  {
    if bs != [] && (bs[0].free || a != off + 1) {
      var next := off + 1 + bs[0].words;
      IndexOfLive(bs[1..], next, a);
      var k := IndexOf(bs[1..], next, a);
      if k < |bs| - 1 {
        OffTail(bs, k);
      }
    }
  }

  lemma {:induction false} LiveAt(bs: seq<Block>, off: nat, i: nat)
    requires i < |bs| && !bs[i].free
    ensures var a := off + Off(bs, i) + 1;
            a in Live(bs, off) && Live(bs, off)[a] == bs[i].words && IndexOf(bs, off, a) == i
    decreases |bs|
  {
    if i > 0 {
      var next := off + 1 + bs[0].words;
      LiveAt(bs[1..], next, i - 1);
      OffTail(bs, i - 1);
    }
  }

  // ------------------------------------------------------------- one allocation

  /** Replacing an all-free run by a run of the same length that holds one live
      payload adds that payload and nothing else. */
  lemma SpliceLive(pre: seq<Block>, mid: seq<Block>, mid': seq<Block>, post: seq<Block>, a: nat, v: nat)
    requires Span(mid) == Span(mid')
    requires Live(mid, Span(pre)) == map[] && Live(mid', Span(pre)) == map[a := v]
    ensures Span(pre + mid + post) == Span(pre + mid' + post)
    ensures a !in Live(pre + mid + post, 0)
    ensures Live(pre + mid' + post, 0) == Live(pre + mid + post, 0)[a := v]
  {
    SpanSplice(pre, mid, post);
    SpanSplice(pre, mid', post);
    var left, right := Live(pre, 0), Live(post, Span(pre) + Span(mid));
    LiveAround(pre, mid, post, map[], left, right);
    LiveAround(pre, mid', post, map[a := v], left, right);
    SpliceFresh(pre, mid', post, a);
    InsertBetween(left, right, a, v);
  }

  lemma LiveAround(pre: seq<Block>, mid: seq<Block>, post: seq<Block>,
                   m: map<nat, nat>, left: map<nat, nat>, right: map<nat, nat>)
    requires m == Live(mid, Span(pre)) && left == Live(pre, 0) && right == Live(post, Span(pre) + Span(mid))
    ensures Live(pre + mid + post, 0) == right + m + left
  {
    LiveSplice(pre, mid, post, 0);
  }

  lemma SpliceFresh(pre: seq<Block>, mid: seq<Block>, post: seq<Block>, a: nat)
    requires a in Live(mid, Span(pre))
    ensures a !in Live(pre, 0) && a !in Live(post, Span(pre) + Span(mid))
  {
    LiveBounds(mid, Span(pre), a);
    if a in Live(pre, 0) { LiveBounds(pre, 0, a); }
    if a in Live(post, Span(pre) + Span(mid)) { LiveBounds(post, Span(pre) + Span(mid), a); }
  }

  lemma InsertBetween(left: map<nat, nat>, right: map<nat, nat>, a: nat, v: nat)
    requires a !in left && a !in right
    ensures a !in right + map[] + left
    ensures right + map[a := v] + left == (right + map[] + left)[a := v]
  {
  }

  /** A successful allocation adds exactly one live payload, of `n` or `n + 1`
      words, at a fresh address, and keeps size and coalescing. */
  lemma AllocateEffect(bs: seq<Block>, n: nat)
    requires Coalesced(bs) && FirstFit(bs, n) < |bs|
    ensures var i := FirstFit(bs, n);
            var a := Off(bs, i) + 1;
            var v := if bs[i].words == n + 1 then n + 1 else n;
            && a !in Live(bs, 0)
            && Live(Allocate(bs, n), 0) == Live(bs, 0)[a := v]
            && Span(Allocate(bs, n)) == Span(bs)
            && Coalesced(Allocate(bs, n))
  {
    var i := FirstFit(bs, n);
    CarveLive(bs, i, n, Off(bs, i) + 1, if bs[i].words == n + 1 then n + 1 else n);
    CarveCoalesced(bs, i, n);
  }

  lemma CarveLive(bs: seq<Block>, i: nat, n: nat, a: nat, v: nat)
    requires i < |bs| && Fits(bs[i], n)
    requires a == Off(bs, i) + 1 && v == if bs[i].words == n + 1 then n + 1 else n
    ensures a !in Live(bs, 0)
    ensures Live(CarveAt(bs, i, n), 0) == Live(bs, 0)[a := v]
    ensures Span(CarveAt(bs, i, n)) == Span(bs)
  {
    CutAt(bs, i);
    OffIsSpan(bs, i);
    CarveBetween(bs[..i], bs[i], bs[i + 1..], n, a, v);
  }

  lemma CarveBetween(pre: seq<Block>, b: Block, post: seq<Block>, n: nat, a: nat, v: nat)
    requires Fits(b, n) && a == Span(pre) + 1 && v == if b.words == n + 1 then n + 1 else n
    ensures a !in Live(pre + [b] + post, 0)
    ensures Live(pre + Carve(b, n) + post, 0) == Live(pre + [b] + post, 0)[a := v]
    ensures Span(pre + Carve(b, n) + post) == Span(pre + [b] + post)
  {
    CarveEffect(b, n, Span(pre));
    SpliceLive(pre, [b], Carve(b, n), post, a, v);
  }

  lemma CutAt(bs: seq<Block>, i: nat)
    requires i < |bs|
    ensures bs == bs[..i] + [bs[i]] + bs[i + 1..]
  {
  }

  lemma CarveCoalesced(bs: seq<Block>, i: nat, n: nat)
    requires Coalesced(bs) && i < |bs| && Fits(bs[i], n)
    ensures Coalesced(CarveAt(bs, i, n))
  {
    var cs := CarveAt(bs, i, n);
    forall k, j | 0 <= k < j < |cs| && j == k + 1
      ensures !(cs[k].free && cs[j].free)
    {
      if j < i {
        assert cs[k] == bs[k] && cs[j] == bs[j];
      } else if j > i + 1 || (j > i && |cs| == |bs|) {
        var d := |cs| - |bs|;
        assert cs[j] == bs[j - d];
        assert k > i ==> cs[k] == bs[k - d] || k == i + d;
      }
    }
  }

  lemma CarveEffect(b: Block, n: nat, off: nat)
    requires Fits(b, n)
    ensures Span(Carve(b, n)) == Span([b])
    ensures Live([b], off) == map[]
    ensures Live(Carve(b, n), off) == map[off + 1 := if b.words == n + 1 then n + 1 else n]
  {
    if b.words > n + 1 {
      var two := Carve(b, n);
      assert two[1..] == [Block(b.words - n - 1, true)];
      assert Live(two[1..], off + 1 + n) == map[];
      assert Span(two[1..]) == b.words - n;
    }
  }

  // ---------------------------------------------------------------- one release

  /** A release removes exactly one live payload and keeps size and coalescing. */
  lemma ReleaseEffect(bs: seq<Block>, i: nat)
    requires Coalesced(bs) && i < |bs| && !bs[i].free
    ensures var a := Off(bs, i) + 1;
            && Live(Release(bs, i), 0) == Live(bs, 0) - {a}
            && Span(Release(bs, i)) == Span(bs)
            && Coalesced(Release(bs, i))
  {
    ReleaseCoalesced(bs, i);
    ReleaseLive(bs, i);
  }

  lemma ReleaseLive(bs: seq<Block>, i: nat)
    requires i < |bs| && !bs[i].free
    ensures Live(Release(bs, i), 0) == Live(bs, 0) - {Off(bs, i) + 1}
    ensures Span(Release(bs, i)) == Span(bs)
  {
    MergeAtLive(bs, MergeLo(bs, i), i, MergeHi(bs, i));
  }

  lemma MergeAtLive(bs: seq<Block>, lo: nat, i: nat, hi: nat)
    requires lo <= i < hi <= |bs| && !bs[i].free
    requires forall k :: lo <= k < hi && k != i ==> bs[k].free
    ensures Live(MergeAt(bs, lo, hi), 0) == Live(bs, 0) - {Off(bs, i) + 1}
    ensures Span(MergeAt(bs, lo, hi)) == Span(bs)
  {
    var pre, left, right, post := bs[..lo], bs[lo..i], bs[i + 1..hi], bs[hi..];
    Decompose(bs, lo, i, hi);
    OffSplit(bs, lo, i);
    MergeRun(pre, left, bs[i], right, post);
  }

  lemma Decompose(bs: seq<Block>, lo: nat, i: nat, hi: nat)
    requires lo <= i < hi <= |bs|
    ensures bs[lo..hi] == bs[lo..i] + [bs[i]] + bs[i + 1..hi]
    ensures bs == bs[..lo] + bs[lo..hi] + bs[hi..]
  {
  }

  lemma OffSplit(bs: seq<Block>, lo: nat, i: nat)
    requires lo <= i <= |bs|
    ensures Off(bs, i) == Span(bs[..lo]) + Span(bs[lo..i])
  {
    OffIsSpan(bs, lo);
    RunSpan(bs, lo, i);
  }

  /** A live block between free ones merges with them into one free block. */
  lemma MergeRun(pre: seq<Block>, left: seq<Block>, b: Block, right: seq<Block>, post: seq<Block>)
    requires !b.free && (forall f :: f in left ==> f.free) && (forall f :: f in right ==> f.free)
    ensures var run := left + [b] + right;
            && Span(pre + [Merged(run)] + post) == Span(pre + run + post)
            && Live(pre + [Merged(run)] + post, 0) == Live(pre + run + post, 0) - {Span(pre) + Span(left) + 1}
  {
    OneLive(left, b, right, Span(pre));
    MergeEffect(pre, left + [b] + right, post, Span(pre) + Span(left) + 1, b.words);
  }

  lemma MergeEffect(pre: seq<Block>, run: seq<Block>, post: seq<Block>, a: nat, v: nat)
    requires run != [] && Live(run, Span(pre)) == map[a := v]
    ensures Span(pre + [Merged(run)] + post) == Span(pre + run + post)
    ensures Live(pre + [Merged(run)] + post, 0) == Live(pre + run + post, 0) - {a}
  {
    MergedEffect(run, Span(pre));
    SpliceLive(pre, [Merged(run)], run, post, a, v);
    RemoveInserted(Live(pre + [Merged(run)] + post, 0), a, v);
  }

  lemma MergedEffect(run: seq<Block>, off: nat)
    requires run != []
    ensures Span([Merged(run)]) == Span(run)
    ensures Live([Merged(run)], off) == map[]
  {
  }

  lemma RemoveInserted(m: map<nat, nat>, a: nat, v: nat)
    requires a !in m
    ensures m[a := v] - {a} == m
  {
  }

  lemma ReleaseCoalesced(bs: seq<Block>, i: nat)
    requires Coalesced(bs) && i < |bs| && !bs[i].free
    ensures Coalesced(Release(bs, i))
  {
    var lo, hi := MergeLo(bs, i), MergeHi(bs, i);
    var cs := Release(bs, i);
    forall k, j | 0 <= k < j < |cs| && j == k + 1
      ensures !(cs[k].free && cs[j].free)
    {
      if j < lo {
        assert cs[k] == bs[k] && cs[j] == bs[j];
      } else if j == lo {
        assert cs[k] == bs[k];
        assert lo < i ==> bs[lo].free;
      } else {
        assert cs[j] == bs[j - 1 - lo + hi];
        if k == lo {
          assert hi == i + 2 ==> bs[i + 1].free;
        } else {
          assert cs[k] == bs[k - 1 - lo + hi];
        }
      }
    }
  }

  lemma OneLive(left: seq<Block>, b: Block, right: seq<Block>, off: nat)
    requires !b.free && (forall f :: f in left ==> f.free) && (forall f :: f in right ==> f.free)
    ensures Live(left + [b] + right, off) == map[off + Span(left) + 1 := b.words]
  {
    LiveSplice(left, [b], right, off);
    AllFreeNoLive(left, off);
    AllFreeNoLive(right, off + Span(left) + Span([b]));
  }

  lemma {:induction false} AllFreeNoLive(bs: seq<Block>, off: nat)
    ensures (forall b :: b in bs ==> b.free) <==> Live(bs, off) == map[]
    decreases |bs|
  {
    if bs != [] {
      AllFreeNoLive(bs[1..], off + 1 + bs[0].words);
      assert bs == [bs[0]] + bs[1..];
      if !bs[0].free { assert off + 1 in Live(bs, off); }
    }
  }

  // -------------------------------------------------------------- canonical form

  /** Two coalesced heaps of one size with the same live payloads are the same
      heap: free space carries no history. */
  lemma {:induction false} Canonical(bs: seq<Block>, cs: seq<Block>, off: nat)
    requires Coalesced(bs) && Coalesced(cs)
    requires Span(bs) == Span(cs) && Live(bs, off) == Live(cs, off)
    ensures bs == cs
    decreases |bs|
  {
    if bs != [] && cs != [] {
      HeadLive(bs, off);
      HeadLive(cs, off);
      if bs[0].free {
        FreeHeadNotLonger(bs, cs, off);
        FreeHeadNotLonger(cs, bs, off);
      }
      assert bs[0] == cs[0];
      var next := off + 1 + bs[0].words;
      if off + 1 in Live(bs[1..], next) { LiveBounds(bs[1..], next, off + 1); }
      if off + 1 in Live(cs[1..], next) { LiveBounds(cs[1..], next, off + 1); }
      assert Live(bs[1..], next) == Live(bs, off) - {off + 1};
      assert Live(cs[1..], next) == Live(cs, off) - {off + 1};
      Canonical(bs[1..], cs[1..], next);
      assert bs == [bs[0]] + bs[1..] && cs == [cs[0]] + cs[1..];
    }
  }

  lemma HeadLive(bs: seq<Block>, off: nat)
    requires bs != []
    ensures off + 1 in Live(bs, off) <==> !bs[0].free
    ensures off + 1 in Live(bs, off) ==> Live(bs, off)[off + 1] == bs[0].words
  {
    if bs[0].free && off + 1 in Live(bs, off) {
      LiveBounds(bs[1..], off + 1 + bs[0].words, off + 1);
    }
  }

  lemma FreeHeadNotLonger(bs: seq<Block>, cs: seq<Block>, off: nat)
    requires bs != [] && cs != [] && bs[0].free && cs[0].free
    requires Coalesced(bs) && Span(bs) == Span(cs) && Live(bs, off) == Live(cs, off)
    ensures cs[0].words <= bs[0].words
  {
    if cs[0].words > bs[0].words && |bs| > 1 {
      var a := off + 1 + bs[0].words + 1;
      HeadLive(bs[1..], off + 1 + bs[0].words);
      assert !bs[1].free;
      assert a in Live(bs, off);
      LiveBounds(cs[1..], off + 1 + cs[0].words, a);
    }
  }

  /** The heap after releasing the live payload at word `a`. */
  function ReleaseAt(bs: seq<Block>, a: nat): seq<Block>
    requires a in Live(bs, 0)
  {
    IndexOfLive(bs, 0, a);
    Release(bs, IndexOf(bs, 0, a))
  }

  lemma ReleaseAtEffect(bs: seq<Block>, a: nat)
    requires Coalesced(bs) && a in Live(bs, 0)
    ensures var cs := ReleaseAt(bs, a);
            Coalesced(cs) && Span(cs) == Span(bs) && Live(cs, 0) == Live(bs, 0) - {a}
  {
    IndexOfLive(bs, 0, a);
    ReleaseEffect(bs, IndexOf(bs, 0, a));
  }

  /** Releasing the payload an allocation just returned gives back the heap. */
  lemma ReleaseUndoesAllocate(bs: seq<Block>, n: nat)
    requires Coalesced(bs) && FirstFit(bs, n) < |bs|
    ensures var a := Off(bs, FirstFit(bs, n)) + 1;
            a in Live(Allocate(bs, n), 0) && ReleaseAt(Allocate(bs, n), a) == bs
  {
    var a := Off(bs, FirstFit(bs, n)) + 1;
    AllocateEffect(bs, n);
    var cs := Allocate(bs, n);
    RemoveInserted(Live(bs, 0), a, Live(cs, 0)[a]);
    ReleaseAtEffect(cs, a);
    Canonical(ReleaseAt(cs, a), bs, 0);
  }

  /** Two releases commute, whatever merges they cause. */
  lemma ReleasesCommute(bs: seq<Block>, a: nat, b: nat)
    requires Coalesced(bs) && a in Live(bs, 0) && b in Live(bs, 0) && a != b
    ensures b in Live(ReleaseAt(bs, a), 0) && a in Live(ReleaseAt(bs, b), 0)
    ensures ReleaseAt(ReleaseAt(bs, a), b) == ReleaseAt(ReleaseAt(bs, b), a)
  {
    ReleaseAtEffect(bs, a);
    ReleaseAtEffect(bs, b);
    var ca, cb := ReleaseAt(bs, a), ReleaseAt(bs, b);
    ReleaseAtEffect(ca, b);
    ReleaseAtEffect(cb, a);
    assert Live(bs, 0) - {a} - {b} == Live(bs, 0) - {b} - {a};
    Canonical(ReleaseAt(ca, b), ReleaseAt(cb, a), 0);
  }

  // --------------------------------------------------------------- fragmentation

  function FreeWords(bs: seq<Block>): nat {
    if bs == [] then 0 else (if bs[0].free then bs[0].words else 0) + FreeWords(bs[1..])
  }

  function LiveCount(bs: seq<Block>): nat {
    if bs == [] then 0 else (if bs[0].free then 0 else 1) + LiveCount(bs[1..])
  }

  lemma {:induction false} FreeWordsBound(bs: seq<Block>, n: nat)
    requires n >= 1 && Coalesced(bs)
    requires forall b :: b in bs ==> !Fits(b, n)
    ensures FreeWords(bs) <= (LiveCount(bs) + (if bs != [] && bs[0].free then 1 else 0)) * (n - 1)
  {
    if bs != [] {
      FreeWordsBound(bs[1..], n);
      assert bs[0] in bs;
      var l := LiveCount(bs[1..]);
      if bs[0].free {
        assert |bs| > 1 ==> !bs[1].free;
        assert (l + 1) * (n - 1) == l * (n - 1) + (n - 1);
      }
    }
  }

  /** An allocation fails exactly when no free block is long enough, and then at
      most L + 1 short gaps are free. */
  lemma FragmentationBound(bs: seq<Block>, n: nat)
    requires n >= 1 && Coalesced(bs)
    ensures FirstFit(bs, n) == |bs| <==> forall b :: b in bs && b.free ==> b.words <= n - 1
    ensures FirstFit(bs, n) == |bs| ==> FreeWords(bs) <= (LiveCount(bs) + 1) * (n - 1)
  {
    var i := FirstFit(bs, n);
    if i == |bs| {
      FreeWordsBound(bs, n);
      assert (LiveCount(bs) + 1) * (n - 1) == LiveCount(bs) * (n - 1) + (n - 1);
    } else {
      assert bs[i] in bs;
    }
  }
}
