/** `itoa` and `atoi` of lib/stdlib.c. */
module Stdlib {
  import opened CString
  import opened Numbers

  /** Lines 50-54 of lib/stdlib.c: the digits of `num`, least significant first. */
  method PutDigits(num: int, str: array<char>, base: int) returns (i: nat)
    requires IsInt(num) && 2 <= base <= 36 && |Little(num, base)| <= str.Length
    modifies str
    ensures i == |Little(num, base)|
    ensures str[..i] == Little(num, base)
    ensures forall k :: i <= k < str.Length ==> str[k] == old(str[k])
  {
    i := 0;
    var n := num;
    while n != 0
      invariant i + |Little(n, base)| == |Little(num, base)|
      invariant Little(num, base) == str[..i] + Little(n, base)
      invariant forall k :: i <= k < str.Length ==> str[k] == old(str[k])
      decreases if n < 0 then -n else n
    {
      QuotShrinks(n, base);
      var rem := Rem(n, base);
      ghost var done, rest := str[..i], Little(Quot(n, base), base);
      str[i] := DigitChar(rem);
      assert str[..i + 1] == done + [DigitChar(rem)];
      assert done + ([DigitChar(rem)] + rest) == (done + [DigitChar(rem)]) + rest;
      i := i + 1;
      n := Quot(n, base);
    }
  }

  /** Lines 50-61: digits, sign and terminator, still in reverse. */
  method PutReversed(num: int, isNegative: bool, str: array<char>, base: int) returns (i: nat)
    requires IsInt(num) && 2 <= base <= 36
    requires |Little(num, base)| + (if isNegative then 1 else 0) < str.Length
    modifies str
    ensures i < str.Length && str[i] == NUL
    ensures str[..i] == if isNegative then Little(num, base) + ['-'] else Little(num, base)
    ensures forall k :: i < k < str.Length ==> str[k] == old(str[k])
  {
    i := PutDigits(num, str, base);
    ghost var text := str[..i];
    if isNegative {
      str[i] := '-';
      i := i + 1;
      assert str[..i] == text + ['-'];
    }
    text := str[..i];
    str[i] := NUL;
    assert str[..i] == text;
  }

  /** Lines 64-72: swap from both ends. */
  method ReverseText(str: array<char>, n: nat)
    requires n <= str.Length
    modifies str
    ensures str[..n] == Reverse(old(str[..n]))
    ensures forall k :: n <= k < str.Length ==> str[k] == old(str[k])
  {
    var start, end := 0, n - 1;
    while start < end
      invariant 0 <= start <= n && end == n - 1 - start && start <= end + 2
      invariant forall k :: 0 <= k < start ==> str[k] == old(str[n - 1 - k]) && str[n - 1 - k] == old(str[k])
      invariant forall k :: start <= k <= end ==> str[k] == old(str[k])
      invariant forall k :: n <= k < str.Length ==> str[k] == old(str[k])
    {
      var temp := str[start];
      str[start] := str[end];
      str[end] := temp;
      start := start + 1;
      end := end - 1;
    }
    forall k | 0 <= k < n
      ensures str[k] == old(str[n - 1 - k])
    {
      if k > end && k >= start { assert str[n - 1 - (n - 1 - k)] == old(str[n - 1 - k]); }
    }
  }

  /** `itoa`: the buffer holds `Print(num, base)` and its terminator, and nothing
      past the terminator has changed. */
  method Itoa(num: int, str: array<char>, base: int)
    requires IsInt(num) && 2 <= base <= 36 && |Print(num, base)| < str.Length
    modifies str
    ensures var t := Print(num, base);
            && str[..|t|] == t && str[|t|] == '\0'
            && forall k :: |t| < k < str.Length ==> str[k] == old(str[k])
  {
    if num == 0 {
      str[0] := '0';
      str[1] := NUL;
      return;
    }
    var isNegative := num < 0 && base == 10;
    var n := if isNegative then Wrap(-num) else num;
    var i := PutReversed(n, isNegative, str, base);
    ReverseText(str, i);
  }

  /** Lines 18-22: the digits from index `j` on, with the wrap of `int`. */
  method ReadDigits(s: string, j: nat) returns (res: int, overflowed: bool, ghost v: nat)
    requires NUL !in s && j <= |s|
    ensures v == Value(s[j..SkipDigits(s, j)], 10) && res == Wrap(v)
    ensures overflowed <==> v > INT_MAX
  {
    var i := j;
    res, overflowed, v := 0, false, 0;
    while '0' <= At(s, i) <= '9'
      invariant j <= i <= |s| && SkipDigits(s, i) == SkipDigits(s, j)
      invariant v == Value(s[j..i], 10) && res == Wrap(v) && (overflowed <==> v > INT_MAX)
      decreases |s| - i
    {
      var digit := At(s, i) as int - '0' as int;
      overflowed := overflowed || res * 10 + digit > INT_MAX;
      WrapStep(v, digit);
      res := Wrap(res * 10 + digit);
      assert s[j..i + 1][..i - j] == s[j..i];
      v := v * 10 + digit;
      i := i + 1;
    }
  }

  /** `atoi`. `overflowed` tells whether an intermediate value left the range of
      `int`. */
  method Atoi(s: string) returns (res: int, overflowed: bool)
    requires NUL !in s
    ensures res == Parse(s)
    ensures overflowed <==> Magnitude(s) > 2_147_483_647
  {
    var i := 0;
    while IsSpace(At(s, i))
      invariant i <= |s| && SkipSpace(s, i) == SkipSpace(s, 0)
      decreases |s| - i
    {
      i := i + 1;
    }
    var sign := ' ';
    if At(s, i) == '-' || At(s, i) == '+' {
      sign := At(s, i);
      i := i + 1;
    }
    assert i == DigitsAt(s) && (sign == '-' <==> IsNegative(s));
    ghost var v;
    res, overflowed, v := ReadDigits(s, i);
    if sign == '-' {
      WrapNegate(v);
      res := Wrap(res * -1);
    }
  }

  /** Wrapping after each digit is wrapping once. */
  lemma WrapStep(v: nat, digit: nat)
    requires digit < 10
    ensures Wrap(Wrap(v) * 10 + digit) == Wrap(v * 10 + digit)
    ensures v <= INT_MAX ==> Wrap(v) == v
    ensures v > INT_MAX ==> v * 10 + digit > INT_MAX
  {
  }

  lemma WrapNegate(v: int)
    ensures Wrap(Wrap(v) * -1) == Wrap(-v)
  {
  }

  /** How large the buffer must be: 12 cells in base 10, 34 in any base. */
  lemma TextFits(n: int, base: int)
    requires IsInt(n) && 2 <= base <= 36
    ensures |Print(n, base)| < 34
    ensures base == 10 ==> |Print(n, base)| < 12
  {
    var k := if n < 0 && base == 10 then Wrap(-n) else n;
    Pow2Of32();
    LittleLength(k, base, 32);
    if base == 10 {
      DecimalLength(k, 10, 10_000_000_000);
    }
  }

  /** A magnitude below 10^d has at most d digits. */
  lemma {:induction false} DecimalLength(n: int, d: nat, bound: int)
    requires -bound < n < bound && bound == Pow10(d)
    ensures |Little(n, 10)| <= d
    decreases d
  {
    if n != 0 {
      assert bound == 10 * Pow10(d - 1);
      DecimalLength(Quot(n, 10), d - 1, Pow10(d - 1));
    }
  }

  function Pow10(d: nat): int {
    if d == 0 then 1 else 10 * Pow10(d - 1)
  }

  /** Printing and reading back, on the buffer. */
  method RoundTrip(n: int, str: array<char>) returns (back: int, overflowed: bool)
    requires IsInt(n) && |Print(n, 10)| < str.Length
    modifies str
    ensures back == n <==> n != -2_147_483_648
    ensures n != -2_147_483_648 ==> !overflowed
  {
    Itoa(n, str, 10);
    ghost var t := Print(n, 10);
    var len := 0;
    PrintHasNoNul(n, 10);
    while str[len] != NUL
      invariant 0 <= len <= |t|
      decreases |t| - len
    {
      assert str[len] == t[len];
      len := len + 1;
    }
    assert len == |t|;
    back, overflowed := Atoi(str[..len]);
    ParsePrint(n);
  }

  lemma PrintHasNoNul(n: int, base: int)
    requires 2 <= base <= 36
    ensures NUL !in Print(n, base)
  {
    if n != 0 {
      LittleHasNoNul(n, base);
      LittleHasNoNul(Wrap(-n), base);
    }
  }

  lemma {:induction false} LittleHasNoNul(n: int, base: int)
    requires 2 <= base <= 36
    ensures NUL !in Little(n, base)
    decreases if n < 0 then -n else n
  {
    if n != 0 {
      QuotShrinks(n, base);
      LittleHasNoNul(Quot(n, base), base);
    }
  }
}
