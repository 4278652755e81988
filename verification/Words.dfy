/** 32-bit words and pointers, as every part of the kernel uses them. */
module Words {

  const TWO_32: int := 0x1_0000_0000

  type Word = w: int | 0 <= w < TWO_32

  /** 32-bit addition, as `size_t` and `uint32_t` add. */
  function Add(a: Word, b: Word): Word {
    if a + b < TWO_32 then a + b else a + b - TWO_32
  }

  lemma AddWraps(a: Word, b: Word)
    ensures Add(a, b) == (a + b) % 0x1_0000_0000
  {
  }

  lemma AddSmall(a: Word, b: Word)
    requires a + b < TWO_32
    ensures Add(a, b) == a + b
  {
  }

  /** The index that stands for a null pointer. */
  const NULL: int := -1

  /** `m` and `m'` differ at most from index `lo` to `hi`. */
  ghost predicate SameOutside<T>(m: seq<T>, m': seq<T>, lo: nat, hi: nat) {
    |m'| == |m| && forall k :: 0 <= k < |m| && !(lo <= k < hi) ==> m'[k] == m[k]
  }
}
