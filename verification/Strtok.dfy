/** `strtok` of lib/string.c: a tokenizer that keeps its place in a static pointer
    and cuts the text in place (section 7.24.5.8 of ISO/IEC 9899:2018). */
module Strtok {
  import opened Words
  import opened CString

  /** From index `k` the buffer holds a string that ends at index `n`. */
  ghost predicate StringAt(m: seq<char>, k: int, n: nat) {
    0 <= k <= n < |m| && m[n] == NUL && forall i :: k <= i < n ==> m[i] != NUL
  }

  /** The delimiters a C string stands for. */
  function Chars(d: string): (r: set<char>)
    ensures forall c :: c in r <==> c in d
  {
    set c | c in d
  }

  /** First index from `k` on that holds no delimiter, or `n`. */
  function Skip(m: seq<char>, k: nat, n: nat, d: set<char>): (a: nat)
    requires k <= n < |m|
    ensures k <= a <= n
    decreases n - k
  {
    if k < n && m[k] in d then Skip(m, k + 1, n, d) else k
  }

  /** First index from `k` on that holds a delimiter, or `n`. */
  function End(m: seq<char>, k: nat, n: nat, d: set<char>): (b: nat)
    requires k <= n < |m|
    ensures k <= b <= n
    decreases n - k
  {
    if k < n && m[k] !in d then End(m, k + 1, n, d) else k
  }

  class Tokenizer {
    const buf: array<char>
    /** The static `tok_tmp`. */
    var tok: int

    /** `strtok(s1, d)`; `n` is where the text it continues ends. */
    method Strtok(s1: int, d: string, ghost n: nat) returns (r: int)
      requires NUL !in d
      requires var k := if s1 != NULL then s1 else tok; k == NULL || StringAt(buf[..], k, n)
      modifies this, buf
      ensures var k, m := if s1 != NULL then s1 else old(tok), old(buf[..]);
              if k == NULL then r == NULL && tok == NULL && buf[..] == m
              else
                var a := Skip(m, k, n, Chars(d));
                if a == n then r == NULL && tok == NULL && buf[..] == m
                else
                  var b := End(m, a, n, Chars(d));
                  && r == a
                  && (b < n ==> tok == b + 1 && buf[..] == m[b := '\0'])
                  && (b == n ==> tok == NULL && buf[..] == m)
    {
      var s := s1;
      var p := 0;
      if s != NULL {
        tok := s;
      } else {
        if tok == NULL {
          return NULL;
        }
        s := tok;
      }
      ghost var k, m := s, buf[..];

      // skip leading delimiters; p starts over after each one
      while p < |d| && buf[s] != NUL
        invariant k <= s <= n && 0 <= p <= |d| && buf[..] == m
        invariant forall i :: k <= i < s ==> m[i] in Chars(d)
        invariant buf[s] !in d[..p]
        decreases n - s, |d| - p
      {
        if buf[s] == d[p] {
          s := s + 1;
          p := 0;
          continue;
        }
        p := p + 1;
      }
      assert p == |d| ==> d[..p] == d;
      SkipIs(m, k, n, Chars(d), s);

      if buf[s] == NUL {
        tok := NULL;
        return NULL;
      }
      tok := s;
      while buf[tok] != NUL
        invariant s <= tok <= n && buf[..] == m
        invariant forall i :: s <= i < tok ==> m[i] !in Chars(d)
        decreases n - tok
      {
        p := 0;
        while p < |d|
          invariant 0 <= p <= |d| && buf[..] == m
          invariant buf[tok] !in d[..p]
        {
          p := p + 1;
          if buf[tok] == d[p - 1] {
            EndIs(m, s, n, Chars(d), tok);
            buf[tok] := NUL;
            tok := tok + 1;
            return s;
          }
        }
        assert d[..p] == d;
        tok := tok + 1;
      }
      EndIs(m, s, n, Chars(d), tok);
      tok := NULL;
      return s;
    }
  }

  lemma {:induction false} SkipSpec(m: seq<char>, k: nat, n: nat, d: set<char>)
    requires k <= n < |m|
    ensures var a := Skip(m, k, n, d);
            (forall i :: k <= i < a ==> m[i] in d) && (a < n ==> m[a] !in d)
    decreases n - k
  {
    if k < n && m[k] in d { SkipSpec(m, k + 1, n, d); }
  }

  lemma {:induction false} EndSpec(m: seq<char>, k: nat, n: nat, d: set<char>)
    requires k <= n < |m|
    ensures var b := End(m, k, n, d);
            (forall i :: k <= i < b ==> m[i] !in d) && (b < n ==> m[b] in d)
    decreases n - k
  {
    if k < n && m[k] !in d { EndSpec(m, k + 1, n, d); }
  }

  lemma {:induction false} SkipIs(m: seq<char>, k: nat, n: nat, d: set<char>, a: nat)
    requires k <= a <= n < |m| && (forall i :: k <= i < a ==> m[i] in d) && (a < n ==> m[a] !in d)
    ensures Skip(m, k, n, d) == a
    decreases a - k
  {
    if k < a { SkipIs(m, k + 1, n, d, a); }
  }

  lemma {:induction false} EndIs(m: seq<char>, k: nat, n: nat, d: set<char>, b: nat)
    requires k <= b <= n < |m| && (forall i :: k <= i < b ==> m[i] !in d) && (b < n ==> m[b] in d)
    ensures End(m, k, n, d) == b
    decreases b - k
  {
    if k < b { EndIs(m, k + 1, n, d, b); }
  }
}
