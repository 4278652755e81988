/** The memory control block of include/memory.h: one 32-bit header word that
    holds the payload size in bytes with two tag bits below it, and the rounding
    of a request (lib/mem.c:5).

    The bit operations of the C macros are written as arithmetic on 32-bit
    unsigned values: `w & ~3` is `w - w % 4`, `w & 1` is `w % 2`, and so on. */
module Mcb {
  import opened Words

  function Size(w: Word): Word {
    w - w % 4
  }

  predicate IsFree(w: Word) {
    w % 2 == 1
  }

  predicate IsEnd(w: Word) {
    w / 2 % 2 == 1
  }

  function SetFree(w: Word): Word {
    if IsFree(w) then w else w + 1
  }

  function ClrFree(w: Word): Word {
    if IsFree(w) then w - 1 else w
  }

  /** `mcb_copyend(m, n)`: set END on `m` when it is set on `n`. */
  function CopyEnd(m: Word, n: Word): Word {
    if IsEnd(n) && !IsEnd(m) then m + 2 else m
  }

  /** The `roundup` macro, with the wrap-around of its 32-bit addition. */
  function Roundup(s: Word): Word {
    if s % 4 != 0 then Add(s - s % 4, 4) else s
  }

  /** Rounding gives room for the request exactly when the request is at most
      2^32 - 4; above that the macro wraps and every request becomes 0 bytes. */
  lemma RoundupCovers(s: Word)
    ensures Roundup(s) % 4 == 0
    ensures s <= TWO_32 - 4 <==> Roundup(s) >= s
    ensures s <= TWO_32 - 4 ==> Roundup(s) < s + 4
    ensures s > TWO_32 - 4 ==> Roundup(s) == 0
  {
  }

  /** An abstract block: `words` payload words after one header word. */
  datatype Block = Block(words: nat, free: bool)

  /** The header word of a block. */
  function Header(b: Block, end: bool): int {
    4 * b.words + (if end then 2 else 0) + (if b.free then 1 else 0)
  }

  /** The macros read back exactly what a header encodes. */
  lemma HeaderFields(b: Block, end: bool)
    requires Header(b, end) < TWO_32
    ensures Size(Header(b, end)) == 4 * b.words
    ensures IsFree(Header(b, end)) == b.free
    ensures IsEnd(Header(b, end)) == end
  {
    var h := Header(b, end);
    assert h / 4 == b.words;
    assert h / 2 == 2 * b.words + if end then 1 else 0;
  }

  /** Bit 0 is FREE, bit 1 is END, and the rest is the size. */
  lemma HeaderBits(b: Block, end: bool)
    ensures var w := Header(b, end);
            w / 4 == b.words && (w % 2 == 1 <==> b.free) && (w / 2 % 2 == 1 <==> end)
  {
    var w := Header(b, end);
    assert w / 4 == b.words;
    assert w / 2 == 2 * b.words + if end then 1 else 0;
  }

  /** Lines 45-46 and 49-50 of lib/mem.c: the header `m` grows by the block `n`
      that follows it, and takes over its END bit. */
  function Absorb(m: Word, n: Word): Word {
    CopyEnd(Add(m, Add(Size(n), 4)), n)
  }

  lemma AbsorbHeader(a: Block, b: Block, end: bool)
    requires 4 * (a.words + b.words + 1) + 3 < TWO_32
    ensures Absorb(Header(a, false), Header(b, end)) == Header(Block(a.words + 1 + b.words, a.free), end)
  {
    HeaderFields(b, end);
    var grown := Block(a.words + 1 + b.words, a.free);
    AddSmall(4 * b.words, 4);
    AddSmall(Header(a, false), 4 * b.words + 4);
    HeaderFields(grown, false);
  }

  /** Splitting: the header written for the rest of a block. */
  lemma RestHeader(words: nat, w: Word)
    requires 4 * words + 3 < TWO_32
    ensures CopyEnd(SetFree(4 * words), w) == Header(Block(words, true), IsEnd(w))
  {
  }
}
