/** Digits and their values: what `itoa` prints and `atoi` reads (lib/stdlib.c).
    C's division truncates toward zero; `int` is 32 bits wide and the model lets it
    wrap, where C leaves overflow undefined. */
module Numbers {

  const INT_MAX: int := 0x7FFF_FFFF
  const INT_MIN: int := -0x8000_0000

  predicate IsInt(n: int) {
    INT_MIN <= n <= INT_MAX
  }

  /** `n` reduced to a 32-bit two's-complement value. */
  function Wrap(n: int): (r: int)
    ensures IsInt(r) && (IsInt(n) ==> r == n)
  {
    (n - INT_MIN) % 0x1_0000_0000 + INT_MIN
  }

  /** C's `/` and `%`. */
  function Quot(n: int, base: int): int
    requires base > 0
  {
    if n >= 0 then n / base else -(-n / base)
  }

  function Rem(n: int, base: int): int
    requires base > 0
  {
    n - base * Quot(n, base)
  }

  /** The character `itoa` writes for a remainder, which may be negative. */
  function DigitChar(rem: int): char
    requires -36 < rem < 36
  {
    if rem > 9 then (rem - 10 + 'a' as int) as char else (rem + '0' as int) as char
  }

  /** Digits of `n`, least significant first, as the loop of `itoa` produces them. */
  function Little(n: int, base: int): seq<char>
    requires 2 <= base <= 36
    decreases if n < 0 then -n else n
  {
    if n == 0 then [] else QuotShrinks(n, base); [DigitChar(Rem(n, base))] + Little(Quot(n, base), base)
  }

  lemma QuotShrinks(n: int, base: int)
    requires 2 <= base <= 36
    ensures n > 0 ==> 0 <= Quot(n, base) < n && 2 * Quot(n, base) <= n && 0 <= Rem(n, base) < base
    ensures n < 0 ==> n < Quot(n, base) <= 0 && n <= 2 * Quot(n, base) && -base < Rem(n, base) <= 0
    ensures n == 0 ==> Quot(n, base) == 0 && Rem(n, base) == 0
  {
    if n > 0 {
      DivBounds(n, base);
    } else if n < 0 {
      DivBounds(-n, base);
    }
  }

  lemma DivBounds(n: nat, base: int)
    requires 2 <= base <= 36
    ensures 0 <= n / base && 2 * (n / base) <= n && 0 <= n - base * (n / base) < base
  {
  }

  function Reverse(s: seq<char>): (r: seq<char>)
    ensures |r| == |s|
  {
    seq(|s|, i requires 0 <= i < |s| => s[|s| - 1 - i])
  }

  /** The text `itoa(n, str, base)` leaves. */
  function Print(n: int, base: int): string
    requires 2 <= base <= 36
  {
    if n == 0 then "0"
    else if n < 0 && base == 10 then Reverse(Little(Wrap(-n), base) + ['-'])
    else Reverse(Little(n, base))
  }

  // ---------------------------------------------------------------- evaluation

  predicate IsDigit(c: char, base: int) {
    ('0' <= c <= '9' && c as int - '0' as int < base) || ('a' <= c <= 'z' && c as int - 'a' as int + 10 < base)
  }

  function DigitValue(c: char): int {
    if '0' <= c <= '9' then c as int - '0' as int else c as int - 'a' as int + 10
  }

  /** The number a digit string denotes, most significant digit first. */
  function Value(s: string, base: int): int {
    if s == [] then 0 else Value(s[..|s| - 1], base) * base + DigitValue(s[|s| - 1])
  }

  ghost predicate AllDigits(s: string, base: int) {
    forall i :: 0 <= i < |s| ==> IsDigit(s[i], base)
  }

  lemma ReverseCons(c: char, s: seq<char>)
    ensures Reverse([c] + s) == Reverse(s) + [c]
    ensures Reverse(s + [c]) == [c] + Reverse(s)
  {
  }

  lemma DigitCharValue(rem: int, base: int)
    requires 2 <= base <= 36 && 0 <= rem < base
    ensures IsDigit(DigitChar(rem), base) && DigitValue(DigitChar(rem)) == rem
    ensures DigitChar(rem) == '0' <==> rem == 0
  {
  }

  /** For every base and every n >= 0 the digits are digits of that base and they
      denote n; there is no leading zero. */
  lemma {:induction false} LittleValue(n: nat, base: int)
    requires 2 <= base <= 36
    ensures var s := Reverse(Little(n, base));
            && AllDigits(s, base) && Value(s, base) == n && (n > 0 ==> s != [] && s[0] != '0')
    decreases n
  {
    if n > 0 {
      var q, rem := LastDigit(n, base);
      LittleValue(q, base);
      DigitCharValue(rem, base);
      var hi := Reverse(Little(q, base));
      AppendDigit(hi, DigitChar(rem), base);
      assert q == 0 ==> hi == [] && rem != 0;
    }
  }

  /** Splitting off the last digit, without division in sight. */
  lemma LastDigit(n: nat, base: int) returns (q: nat, rem: nat)
    requires n > 0 && 2 <= base <= 36
    ensures q < n && rem < base && n == q * base + rem
    ensures Reverse(Little(n, base)) == Reverse(Little(q, base)) + [DigitChar(rem)]
    ensures q == 0 ==> Reverse(Little(q, base)) == []
  {
    QuotShrinks(n, base);
    q, rem := Quot(n, base), Rem(n, base);
    ReverseCons(DigitChar(rem), Little(q, base));
  }

  lemma AppendDigit(s: string, c: char, base: int)
    requires AllDigits(s, base) && IsDigit(c, base)
    ensures AllDigits(s + [c], base) && Value(s + [c], base) == Value(s, base) * base + DigitValue(c)
  {
  }

  lemma PrintValue(n: nat, base: int)
    requires 2 <= base <= 36
    ensures AllDigits(Print(n, base), base) && Value(Print(n, base), base) == n
    ensures n > 0 ==> Print(n, base)[0] != '0'
  {
    if n == 0 {
      assert "0"[..0] == [];
    } else {
      LittleValue(n, base);
    }
  }

  /** The digits of an `int` fit: at most as many as the bits of its magnitude. */
  lemma {:induction false} LittleLength(n: int, base: int, k: nat)
    requires 2 <= base <= 36 && -Pow2(k) < n < Pow2(k)
    ensures |Little(n, base)| <= k
    decreases k
  {
    if n != 0 {
      QuotShrinks(n, base);
      LittleLength(Quot(n, base), base, k - 1);
    }
  }

  function Pow2(k: nat): int {
    if k == 0 then 1 else 2 * Pow2(k - 1)
  }

  lemma {:induction false} Pow2Double(k: nat, j: nat)
    ensures Pow2(k + j) == Pow2(k) * Pow2(j)
  {
    if j > 0 { Pow2Double(k, j - 1); }
  }

  lemma Pow2Of32()
    ensures Pow2(32) == 0x1_0000_0000
  {
    assert Pow2(2) == 4;
    Pow2Double(2, 2);
    Pow2Double(4, 4);
    Pow2Double(8, 8);
    Pow2Double(16, 16);
  }

  // ------------------------------------------------------------------- parsing

  predicate IsSpace(c: char) {
    c == ' ' || c == '\n' || c == '\r' || c as int == 12 || c == '\t' || c as int == 11
  }

  /** Index of the first character from `i` on that is not white space. */
  function SkipSpace(s: string, i: nat): (j: nat)
    requires i <= |s|
    ensures i <= j <= |s|
    decreases |s| - i
  {
    if i < |s| && IsSpace(s[i]) then SkipSpace(s, i + 1) else i
  }

  /** Index just past the decimal digits that start at `i`. */
  function SkipDigits(s: string, i: nat): (j: nat)
    requires i <= |s|
    ensures i <= j <= |s|
    decreases |s| - i
  {
    if i < |s| && '0' <= s[i] <= '9' then SkipDigits(s, i + 1) else i
  }

  /** Index of the first digit candidate: past white space and one sign. */
  function DigitsAt(s: string): (j: nat)
    ensures j <= |s|
  {
    var i := SkipSpace(s, 0);
    if i < |s| && (s[i] == '-' || s[i] == '+') then i + 1 else i
  }

  predicate IsNegative(s: string) {
    var i := SkipSpace(s, 0);
    i < |s| && s[i] == '-'
  }

  /** The value of the decimal digits of `s` after white space and a sign. */
  function Magnitude(s: string): int {
    Value(s[DigitsAt(s)..SkipDigits(s, DigitsAt(s))], 10)
  }

  /** What `atoi` returns. */
  function Parse(s: string): int {
    Wrap(if IsNegative(s) then -Magnitude(s) else Magnitude(s))
  }

  lemma {:induction false} SkipSpaceIs(s: string, i: nat, j: nat)
    requires i <= j <= |s| && (forall k :: i <= k < j ==> 9 <= s[k] as int <= 13 || s[k] as int == 32)
    requires j < |s| ==> !(9 <= s[j] as int <= 13 || s[j] as int == 32)
    ensures SkipSpace(s, i) == j
    decreases j - i
  {
    if i < j { SkipSpaceIs(s, i + 1, j); }
  }

  lemma {:induction false} SkipDigitsIs(s: string, i: nat, j: nat)
    requires i <= j <= |s| && (forall k :: i <= k < j ==> 48 <= s[k] as int <= 57)
    requires j < |s| ==> !(48 <= s[j] as int <= 57)
    ensures SkipDigits(s, i) == j
    decreases j - i
  {
    if i < j { SkipDigitsIs(s, i + 1, j); }
  }

  /** By character code, with blanks 9 to 13 and 32, signs 43 and 45 and digits 48 to
      57: when the text starts with blanks up to `a`, has one sign up to `b` or none,
      and digits up to `c` and no further, it is read as the signed decimal number
      of these digits, reduced to 32 bits. Every text has such `a`, `b` and `c`. */
  lemma ParseText(s: string, a: nat, b: nat, c: nat)
    requires a <= b <= c <= |s| && (forall k :: 0 <= k < a ==> 9 <= s[k] as int <= 13 || s[k] as int == 32)
    requires a < |s| ==> !(9 <= s[a] as int <= 13 || s[a] as int == 32)
    requires b == if a < |s| && (s[a] as int == 43 || s[a] as int == 45) then a + 1 else a
    requires (forall k :: b <= k < c ==> 48 <= s[k] as int <= 57) && (c < |s| ==> !(48 <= s[c] as int <= 57))
    ensures Magnitude(s) == Value(s[b..c], 10)
    ensures Parse(s) == Wrap(if b > a && s[a] as int == 45 then -Value(s[b..c], 10) else Value(s[b..c], 10))
  {
    SkipSpaceIs(s, 0, a);
    SkipDigitsIs(s, b, c);
  }

  /** The value of a text digit by digit, by character code. */
  lemma ValueByCode(s: string, c: char, base: int)
    ensures Value([], base) == 0
    ensures 48 <= c as int <= 57 ==> Value(s + [c], base) == Value(s, base) * base + (c as int - 48)
    ensures 97 <= c as int <= 122 ==> Value(s + [c], base) == Value(s, base) * base + (c as int - 87)
  {
    assert (s + [c])[..|s|] == s;
  }

  /** Wrapping changes a number by a multiple of 2^32, into the range of `int`. */
  lemma WrapIs(n: int)
    ensures -0x8000_0000 <= Wrap(n) <= 0x7FFF_FFFF && (n - Wrap(n)) % 0x1_0000_0000 == 0
  {
    var k := (n + 0x8000_0000) / 0x1_0000_0000;
    assert n - Wrap(n) == 0x1_0000_0000 * k;
  }

  /** In base 10 a negative number is printed as a minus sign and its magnitude. */
  lemma PrintNegative(n: int)
    requires -0x8000_0000 < n < 0
    ensures Print(n, 10) == "-" + Print(-n, 10)
  {
    ReverseCons('-', Little(-n, 10));
  }

  lemma {:induction false} SkipAllDigits(s: string, i: nat)
    requires i <= |s| && forall k :: i <= k < |s| ==> '0' <= s[k] <= '9'
    ensures SkipDigits(s, i) == |s|
    decreases |s| - i
  {
    if i < |s| { SkipAllDigits(s, i + 1); }
  }

  /** A digit string, with or without a minus sign, parses to its value. */
  lemma ParseDigits(s: string)
    requires s != [] && AllDigits(s, 10)
    ensures Magnitude(s) == Value(s, 10) && !IsNegative(s)
    ensures Magnitude(['-'] + s) == Value(s, 10) && IsNegative(['-'] + s)
  {
    assert IsDigit(s[0], 10);
    assert SkipSpace(s, 0) == 0;
    SkipAllDigits(s, 0);
    assert s[0..|s|] == s;
    var t := ['-'] + s;
    assert SkipSpace(t, 0) == 0 && DigitsAt(t) == 1;
    forall k | 1 <= k < |t|
      ensures '0' <= t[k] <= '9'
    {
      assert IsDigit(s[k - 1], 10);
    }
    SkipAllDigits(t, 1);
    assert t[1..|t|] == s;
  }

  /** The most significant "digit" of a negative number is below '0'. */
  lemma {:induction false} NegativeTop(n: int, base: int)
    requires n < 0 && 2 <= base <= 36
    ensures var l := Little(n, base); l != [] && l[|l| - 1] < '0'
    decreases -n
  {
    QuotShrinks(n, base);
    if Quot(n, base) != 0 {
      NegativeTop(Quot(n, base), base);
    }
  }

  /** Printing an `int` in decimal and parsing it back gives the same `int` exactly
      when it is not INT_MIN, whose negation does not exist; no intermediate value
      of the parse then leaves the range of `int`. */
  lemma ParsePrint(n: int)
    requires IsInt(n)
    ensures Parse(Print(n, 10)) == n <==> n != INT_MIN
    ensures n != INT_MIN ==> Magnitude(Print(n, 10)) <= INT_MAX
  {
    if n >= 0 {
      PrintValue(n, 10);
      ParseDigits(Print(n, 10));
    } else if n != INT_MIN {
      ParsePrintNegative(n);
    } else {
      ParsePrintMin();
    }
  }

  lemma ParsePrintNegative(n: int)
    requires INT_MIN < n < 0
    ensures Parse(Print(n, 10)) == n && Magnitude(Print(n, 10)) == -n
  {
    var t := NegativeText(n);
    ParseSigned(Print(n, 10), t, -n);
  }

  lemma NegativeText(n: int) returns (t: string)
    requires INT_MIN < n < 0
    ensures t != [] && AllDigits(t, 10) && Value(t, 10) == -n && Print(n, 10) == "-" + t
  {
    t := Print(-n, 10);
    PrintNegative(n);
    PrintValue(-n, 10);
  }

  lemma ParseSigned(s: string, t: string, v: int)
    requires s == "-" + t && t != [] && AllDigits(t, 10) && Value(t, 10) == v && 0 <= v <= INT_MAX
    ensures Parse(s) == -v && Magnitude(s) == v
  {
    ParseDigits(t);
    assert ['-'] + t == s;
  }

  lemma ParsePrintMin()
    ensures Parse(Print(INT_MIN, 10)) == 0
  {
    assert Wrap(-INT_MIN) == INT_MIN;
    var l := Little(INT_MIN, 10);
    NegativeTop(INT_MIN, 10);
    ReverseCons('-', l);
    var s := Print(INT_MIN, 10);
    assert s == ['-'] + Reverse(l);
    assert SkipSpace(s, 0) == 0 && DigitsAt(s) == 1;
    assert s[1] == l[|l| - 1];
    assert s[1..SkipDigits(s, 1)] == [];
  }
}
