/** When a word array is the header chain of a block list, and what a local
    rewrite of its headers does to that list. */
module HeapWords {
  import opened Words
  import opened Mcb
  import opened HeapBlocks

  /** Word `Off(bs, i)` of `m` is the header of block `i`. */
  ghost predicate HeaderAt(m: seq<Word>, bs: seq<Block>, i: nat)
    requires i < |bs|
  {
    Off(bs, i) < |m| && m[Off(bs, i)] == Header(bs[i], i == |bs| - 1)
  }

  /** The header chain of `m` is `bs` and tiles the region exactly; END is on the
      last header only. */
  ghost predicate Tiles(m: seq<Word>, bs: seq<Block>) {
    bs != [] && Span(bs) == |m| && forall i :: 0 <= i < |bs| ==> HeaderAt(m, bs, i)
  }

  /** The words determine the block list. */
  lemma {:induction false} DecodeUnique(m: seq<Word>, bs: seq<Block>, cs: seq<Block>, i: nat)
    requires Tiles(m, bs) && Tiles(m, cs)
    requires i < |bs| && i < |cs| && bs[..i] == cs[..i]
    ensures bs == cs
    decreases |bs| - i
  {
    OffIsSpan(bs, i);
    OffIsSpan(cs, i);
    assert HeaderAt(m, bs, i) && HeaderAt(m, cs, i);
    HeaderFields(bs[i], i == |bs| - 1);
    HeaderFields(cs[i], i == |cs| - 1);
    assert bs[i] == cs[i];
    assert bs[..i + 1] == bs[..i] + [bs[i]] && cs[..i + 1] == cs[..i] + [cs[i]];
    if i + 1 < |bs| {
      DecodeUnique(m, bs, cs, i + 1);
    } else {
      assert bs == bs[..i + 1] && cs == cs[..i + 1];
    }
  }

  /** Block lists `bs` and `cs` agree outside `bs[lo..hi]` and `cs[lo..hi']`,
      two nonempty runs over the same words. */
  ghost predicate Spliced(bs: seq<Block>, cs: seq<Block>, lo: nat, hi: nat, hi': nat) {
    && lo < hi <= |bs| && lo < hi' <= |cs|
    && bs[..lo] == cs[..lo] && bs[hi..] == cs[hi'..]
    && Off(bs, hi) == Off(cs, hi')
  }

  /** Exchanging a run of blocks for another over the same words, with the words
      outside it unchanged, gives again a tiling. */
  lemma TilesSplice(m: seq<Word>, m': seq<Word>, bs: seq<Block>, cs: seq<Block>, lo: nat, hi: nat, hi': nat)
    requires Tiles(m, bs) && Spliced(bs, cs, lo, hi, hi')
    requires SameOutside(m, m', Off(bs, lo), Off(bs, hi))
    requires forall j :: lo <= j < hi' ==> HeaderAt(m', cs, j)
    ensures Tiles(m', cs)
  {
    assert Span(cs) == Span(bs) by { SpliceSpan(bs, cs, lo, hi, hi'); }
    forall i | 0 <= i < |cs|
      ensures HeaderAt(m', cs, i)
    {
      if i < lo {
        assert HeaderAt(m, bs, i);
        SpliceBefore(m, m', bs, cs, lo, hi, hi', i);
      } else if i >= hi' {
        assert |cs| - hi' == |cs[hi'..]| == |bs[hi..]| == |bs| - hi;
        assert HeaderAt(m, bs, i - hi' + hi);
        SpliceAfter(m, m', bs, cs, lo, hi, hi', i);
      }
    }
  }

  lemma SpliceSpan(bs: seq<Block>, cs: seq<Block>, lo: nat, hi: nat, hi': nat)
    requires Spliced(bs, cs, lo, hi, hi')
    ensures Span(cs) == Span(bs)
  {
    SpanFrom(bs, hi);
    SpanFrom(cs, hi');
  }

  lemma SpliceBefore(m: seq<Word>, m': seq<Word>, bs: seq<Block>, cs: seq<Block>,
                     lo: nat, hi: nat, hi': nat, i: nat)
    requires Spliced(bs, cs, lo, hi, hi') && i < lo && HeaderAt(m, bs, i)
    requires SameOutside(m, m', Off(bs, lo), Off(bs, hi))
    ensures HeaderAt(m', cs, i)
  {
    OffMonotonic(bs, i, lo);
    assert bs[..i] == bs[..lo][..i] && cs[..i] == cs[..lo][..i];
    assert bs[..lo][i] == bs[i] && cs[..lo][i] == cs[i];
    OffPrefix(bs, cs, i);
  }

  lemma SpliceAfter(m: seq<Word>, m': seq<Word>, bs: seq<Block>, cs: seq<Block>,
                    lo: nat, hi: nat, hi': nat, i: nat)
    requires Spliced(bs, cs, lo, hi, hi') && hi' <= i < |cs| && |bs| - hi == |cs| - hi'
    requires HeaderAt(m, bs, i - hi' + hi)
    requires SameOutside(m, m', Off(bs, lo), Off(bs, hi))
    ensures HeaderAt(m', cs, i)
  {
    var k := i - hi';
    OffDrop(bs, hi, k);
    OffDrop(cs, hi', k);
    assert bs[hi..][k] == bs[hi + k] && cs[hi'..][k] == cs[i];
  }

  /** Word `k` belongs to the payload of block `i`. */
  ghost predicate InPayload(bs: seq<Block>, i: nat, k: nat)
    requires i < |bs|
  {
    Off(bs, i) < k <= Off(bs, i) + bs[i].words
  }

  /** No payload word of a live block changes between `m` and `m'`. */
  ghost predicate PayloadsKept(bs: seq<Block>, m: seq<Word>, m': seq<Word>) {
    && |m| == |m'|
    && forall i, k {:trigger InPayload(bs, i, k)} ::
         0 <= i < |bs| && 0 <= k < |m| && InPayload(bs, i, k) && !bs[i].free ==> m'[k] == m[k]
  }

  /** Writing only inside the span of a free block keeps every live payload. */
  lemma WritesInFreeBlock(bs: seq<Block>, m: seq<Word>, m': seq<Word>, i: nat)
    requires i < |bs| && bs[i].free
    requires SameOutside(m, m', Off(bs, i), Off(bs, i) + 1 + bs[i].words)
    ensures PayloadsKept(bs, m, m')
  {
    forall j, k | 0 <= j < |bs| && 0 <= k < |m| && InPayload(bs, j, k) && !bs[j].free
      ensures m'[k] == m[k]
    {
      if j < i { OffMonotonic(bs, j, i); } else { OffMonotonic(bs, i, j); }
    }
  }

  /** Rewriting two headers in place changes no payload. */
  lemma WritesInHeaders(bs: seq<Block>, m: seq<Word>, m': seq<Word>, h: nat, h': nat)
    requires |m| == |m'| && h < |bs| && h' < |bs|
    requires forall k :: 0 <= k < |m| && k != Off(bs, h) && k != Off(bs, h') ==> m'[k] == m[k]
    ensures PayloadsKept(bs, m, m')
  {
    forall j, k | 0 <= j < |bs| && 0 <= k < |m| && InPayload(bs, j, k) && !bs[j].free
      ensures m'[k] == m[k]
    {
      PayloadNotHeader(bs, j, k, h);
      PayloadNotHeader(bs, j, k, h');
    }
  }

  /** A store into a payload leaves the header chain alone. */
  lemma StoreTiles(m: seq<Word>, bs: seq<Block>, j: nat, k: nat, w: Word)
    requires Tiles(m, bs) && j < |bs| && InPayload(bs, j, k) && k < |m|
    ensures Tiles(m[k := w], bs)
  {
    var m' := m[k := w];
    forall i | 0 <= i < |bs|
      ensures HeaderAt(m', bs, i)
    {
      assert HeaderAt(m, bs, i);
      PayloadNotHeader(bs, j, k, i);
    }
  }

  lemma PayloadNotHeader(bs: seq<Block>, j: nat, k: nat, h: nat)
    requires j < |bs| && h < |bs| && InPayload(bs, j, k)
    ensures k != Off(bs, h)
  {
    if h < j { OffMonotonic(bs, h, j); }
    if j < h { OffMonotonic(bs, j, h); }
  }
}
