/** The frame bitmap of kernel/core-c.c: one bit a page frame, 32 to a word. */
module FrameBitmap {

  const FRAME_BIT: nat := 32
  const NFRAMES: nat := 0x4000
  /** What `find_free` returns when every frame is in use: (uint32_t)-1. */
  const NO_FRAME: nat := 0xFFFF_FFFF

  function Bit(j: nat): bv32
    requires j < FRAME_BIT
  {
    1 << j
  }

  /** Bit `j` of `w` is set. */
  predicate Has(w: bv32, j: nat)
    requires j < FRAME_BIT
  {
    w & Bit(j) != 0
  }

  /** Bits are counted from the least significant one. */
  lemma BitIs(j: nat)
    requires j < 32
    ensures Bit(j) == 1 << j
    ensures Bit(0) == 1 && Bit(31) == 0x8000_0000
  {
  }

  lemma BitSet(w: bv32, j: nat, k: nat)
    requires j < FRAME_BIT && k < FRAME_BIT
    ensures (w | Bit(j)) & Bit(k) != 0 <==> (j == k || w & Bit(k) != 0)
  {
  }

  lemma HasSet(w: bv32, w': bv32, j: nat, k: nat)
    requires j < FRAME_BIT && k < FRAME_BIT && w' == w | Bit(j)
    ensures Has(w', k) <==> (j == k || Has(w, k))
  {
    BitSet(w, j, k);
  }

  lemma FullWord(k: nat)
    requires k < FRAME_BIT
    ensures Has(0xFFFF_FFFF, k)
  {
  }

  /** Frame `n` is marked in the bitmap `f`. */
  predicate Used(f: seq<bv32>, n: nat)
    requires n < FRAME_BIT * |f|
  {
    Has(f[n / FRAME_BIT], n % FRAME_BIT)
  }

  /** Frame n is bit n % 32 of word n / 32. */
  lemma UsedBit(f: seq<bv32>, n: nat)
    requires n < 32 * |f|
    ensures Used(f, n) <==> Has(f[n / 32], n % 32)
  {
  }

  /** The set of frames a bitmap stands for. */
  ghost function FrameSet(f: seq<bv32>): set<nat> {
    set n | 0 <= n < FRAME_BIT * |f| && Used(f, n)
  }

  /** The set is {0, ..., p - 1}. */
  ghost predicate IsFirst(s: set<nat>, p: nat) {
    forall n: nat :: n in s <==> n < p
  }

  /** Frame `n` is free and every frame below it is used. */
  ghost predicate LeastFree(used: set<nat>, n: nat) {
    n < NFRAMES && n !in used && forall k: nat :: k < n ==> k in used
  }

  /** `find_free`: the least frame that is not in use. */
  method FindFree(frames: array<bv32>) returns (r: nat)
    requires frames.Length * FRAME_BIT == NFRAMES
    ensures r == 0xFFFF_FFFF <==> IsFirst(FrameSet(frames[..]), 0x4000)
    ensures r != 0xFFFF_FFFF ==> LeastFree(FrameSet(frames[..]), r)
  {
    ghost var f := frames[..];
    var i := 0;
    while i < NFRAMES / FRAME_BIT
      invariant 0 <= i <= frames.Length
      invariant forall n :: 0 <= n < FRAME_BIT * i ==> Used(f, n)
    {
      if frames[i] != 0xFFFF_FFFF {
        var j := 0;
        while j < FRAME_BIT
          invariant 0 <= j <= FRAME_BIT
          invariant forall n :: 0 <= n < FRAME_BIT * i + j ==> Used(f, n)
        {
          if !Has(frames[i], j) {
            r := i * FRAME_BIT + j;
            assert r / FRAME_BIT == i && r % FRAME_BIT == j && !Used(f, r) && r !in FrameSet(f);
            return;
          }
          ghost var n := FRAME_BIT * i + j;
          assert n / FRAME_BIT == i && n % FRAME_BIT == j && Used(f, n);
          j := j + 1;
        }
      } else {
        forall n | FRAME_BIT * i <= n < FRAME_BIT * (i + 1)
          ensures Used(f, n)
        {
          assert n / FRAME_BIT == i;
          FullWord(n % FRAME_BIT);
        }
      }
      i := i + 1;
    }
    return NO_FRAME;
  }

  /** `set_bit`: marks exactly the frame that holds `addr`. */
  method SetBit(frames: array<bv32>, addr: nat)
    requires frames.Length * FRAME_BIT == NFRAMES && addr / 0x1000 < NFRAMES
    modifies frames
    ensures FrameSet(frames[..]) == FrameSet(old(frames[..])) + {addr / 0x1000}
  {
    var frame := addr / 0x1000;
    var index := frame / FRAME_BIT;
    var offset := frame % FRAME_BIT;
    ghost var f := frames[..];
    frames[index] := frames[index] | Bit(offset);
    SetBitUsed(f, frames[..], frame);
  }

  lemma SetBitUsed(f: seq<bv32>, f': seq<bv32>, frame: nat)
    requires frame < FRAME_BIT * |f| && f' == f[frame / FRAME_BIT := f[frame / FRAME_BIT] | Bit(frame % FRAME_BIT)]
    ensures FrameSet(f') == FrameSet(f) + {frame}
  {
    forall n | 0 <= n < FRAME_BIT * |f|
      ensures Used(f', n) <==> (n == frame || Used(f, n))
    {
      UsedAfter(f, f', frame, n);
    }
  }

  lemma UsedAfter(f: seq<bv32>, f': seq<bv32>, frame: nat, n: nat)
    requires n < FRAME_BIT * |f| && frame < FRAME_BIT * |f|
    requires f' == f[frame / FRAME_BIT := f[frame / FRAME_BIT] | Bit(frame % FRAME_BIT)]
    ensures Used(f', n) <==> (n == frame || Used(f, n))
  {
    SameFrame(n, frame);
    SeqSet(f, frame / FRAME_BIT, frame % FRAME_BIT, n / FRAME_BIT, n % FRAME_BIT);
  }

  lemma SeqSet(f: seq<bv32>, i: nat, j: nat, i': nat, j': nat)
    requires i < |f| && i' < |f| && j < FRAME_BIT && j' < FRAME_BIT
    ensures Has(f[i := f[i] | Bit(j)][i'], j') <==> (i == i' && j == j') || Has(f[i'], j')
  {
    if i == i' {
      HasSet(f[i], f[i := f[i] | Bit(j)][i'], j, j');
    }
  }

  lemma SameFrame(n: nat, k: nat)
    ensures n == k <==> n / FRAME_BIT == k / FRAME_BIT && n % FRAME_BIT == k % FRAME_BIT
  {
  }

  /** `k` rounds of find-then-set from an empty bitmap hand out 0, 1, ..., k - 1. */
  method HandOut(frames: array<bv32>, k: nat) returns (given: seq<nat>)
    requires frames.Length * FRAME_BIT == NFRAMES && k <= NFRAMES
    requires FrameSet(frames[..]) == {}
    modifies frames
    ensures |given| == k && forall i :: 0 <= i < k ==> given[i] == i
    ensures IsFirst(FrameSet(frames[..]), k)
  {
    given := [];
    while |given| < k
      invariant |given| <= k && forall i :: 0 <= i < |given| ==> given[i] == i
      invariant IsFirst(FrameSet(frames[..]), |given|)
    {
      ghost var before := FrameSet(frames[..]);
      var frame := FindFree(frames);
      NextFrame(before, |given|, frame);
      SetBit(frames, frame * 0x1000);
      given := given + [frame];
    }
  }

  /** The least frame outside {0, ..., p - 1} is p. */
  lemma NextFrame(used: set<nat>, p: nat, n: nat)
    requires IsFirst(used, p) && p <= NFRAMES
    ensures IsFirst(used, NFRAMES) <==> p == NFRAMES
    ensures LeastFree(used, n) ==> n == p && IsFirst(used + {n}, p + 1)
  {
    if p < NFRAMES {
      assert p !in used;
    }
  }
}
