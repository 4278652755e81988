/** The whole `strtok` protocol: one call with the text, then calls with NULL until
    NULL comes back. */
module Tokens {
  import opened Words
  import opened CString
  import opened Strtok

  datatype Token = Token(start: nat, end: nat)

  /** The delimiter-free runs of the text from `k` to `n`, in order. */
  function Runs(m: seq<char>, k: nat, n: nat, d: set<char>): seq<Token>
    requires k <= n < |m|
    decreases n - k, 1
  {
    var a := Skip(m, k, n, d);
    if a == n then [] else RunsFrom(m, a, End(m, a, n, d), n, d)
  }

  /** The run from `a` to `b` and those behind it. */
  function RunsFrom(m: seq<char>, a: nat, b: nat, n: nat, d: set<char>): seq<Token>
    requires a <= b <= n < |m|
    decreases n - a, 0
  {
    [Token(a, b)] + if b < n then Runs(m, b + 1, n, d) else []
  }

  /** `t` is a maximal nonempty delimiter-free run of the text from `k` to `n`. */
  ghost predicate IsRun(m: seq<char>, k: nat, n: nat, d: set<char>, t: Token)
    requires k <= n < |m|
  {
    && k <= t.start < t.end <= n
    && (forall i :: t.start <= i < t.end ==> m[i] !in d)
    && (t.start == k || m[t.start - 1] in d)
    && (t.end == n || m[t.end] in d)
  }

  ghost predicate InOrder(ts: seq<Token>) {
    forall i, j :: 0 <= i < j < |ts| ==> ts[i].end < ts[j].start
  }

  /** The tokens `ts` are exactly the maximal runs. */
  ghost predicate Lists(m: seq<char>, k: nat, n: nat, d: set<char>, ts: seq<Token>)
    requires k <= n < |m|
  {
    forall t :: t in ts <==> IsRun(m, k, n, d, t)
  }

  /** `rest` are the runs behind the one that ends at `b`. */
  ghost predicate ListsAfter(m: seq<char>, b: nat, n: nat, d: set<char>, rest: seq<Token>)
    requires b <= n < |m|
  {
    if b < n then Lists(m, b + 1, n, d, rest) else rest == []
  }

  /** `Runs` lists exactly the maximal runs, in order. */
  lemma {:induction false} RunsAreMaximal(m: seq<char>, k: nat, n: nat, d: set<char>)
    requires k <= n < |m|
    ensures InOrder(Runs(m, k, n, d)) && Lists(m, k, n, d, Runs(m, k, n, d))
    decreases n - k
  {
    var a := Skip(m, k, n, d);
    if a < n {
      var b := End(m, a, n, d);
      assert b > a by { SkipSpec(m, k, n, d); }
      var rest := if b < n then Runs(m, b + 1, n, d) else [];
      if b < n { RunsAreMaximal(m, b + 1, n, d); }
      assert Runs(m, k, n, d) == [Token(a, b)] + rest;
      MembersOf(m, k, n, d, rest);
      OrderOf(m, b, n, d, Token(a, b), rest);
    } else {
      NoRuns(m, k, n, d);
    }
  }

  lemma NoRuns(m: seq<char>, k: nat, n: nat, d: set<char>)
    requires k <= n < |m| && Skip(m, k, n, d) == n
    ensures Lists(m, k, n, d, [])
  {
    SkipSpec(m, k, n, d);
    forall t
      ensures !IsRun(m, k, n, d, t)
    {
      assert k <= t.start < n ==> m[t.start] in d;
    }
  }

  lemma MembersOf(m: seq<char>, k: nat, n: nat, d: set<char>, rest: seq<Token>)
    requires k <= n < |m| && Skip(m, k, n, d) < n
    requires ListsAfter(m, End(m, Skip(m, k, n, d), n, d), n, d, rest)
    ensures var a := Skip(m, k, n, d);
            Lists(m, k, n, d, [Token(a, End(m, a, n, d))] + rest)
  {
    var a := Skip(m, k, n, d);
    var b := End(m, a, n, d);
    forall t
      ensures t in [Token(a, b)] + rest <==> IsRun(m, k, n, d, t)
    {
      OneMoreRun(m, k, n, d, t);
    }
  }

  lemma OrderOf(m: seq<char>, b: nat, n: nat, d: set<char>, first: Token, rest: seq<Token>)
    requires b <= n < |m| && first.end == b && InOrder(rest) && ListsAfter(m, b, n, d, rest)
    ensures InOrder([first] + rest)
  {
    forall i, j | 0 <= i < j < |rest| + 1
      ensures ([first] + rest)[i].end < ([first] + rest)[j].start
    {
      assert rest[j - 1] in rest;
    }
  }

  /** A run of the text is the first one or a run of what follows it. */
  lemma OneMoreRun(m: seq<char>, k: nat, n: nat, d: set<char>, t: Token)
    requires k <= n < |m| && Skip(m, k, n, d) < n
    ensures var a := Skip(m, k, n, d);
            var b := End(m, a, n, d);
            IsRun(m, k, n, d, t) <==> t == Token(a, b) || (b < n && IsRun(m, b + 1, n, d, t))
  {
    var a := Skip(m, k, n, d);
    var b := End(m, a, n, d);
    SkipSpec(m, k, n, d);
    EndSpec(m, a, n, d);
    if IsRun(m, k, n, d, t) {
      assert m[t.start] !in d && m[t.end - 1] !in d;
      if t.start <= b {
        assert t.start >= a;
        assert t.start == a;
        assert t.end == b;
      }
    }
  }

  /** The runs depend only on the text they are cut from. */
  lemma {:induction false} RunsAgree(m: seq<char>, m': seq<char>, k: nat, n: nat, d: set<char>)
    requires k <= n < |m| == |m'| && forall i :: k <= i < n ==> m[i] == m'[i]
    ensures Runs(m, k, n, d) == Runs(m', k, n, d)
    decreases n - k
  {
    var a := Skip(m, k, n, d);
    SkipSpec(m, k, n, d);
    SkipIs(m', k, n, d, a);
    if a < n {
      var b := End(m, a, n, d);
      EndSpec(m, a, n, d);
      EndIs(m', a, n, d, b);
      if b < n {
        RunsAgree(m, m', b + 1, n, d);
      }
    }
  }

  /** The text with the delimiter that ends each token cut to NUL. */
  function Cut(m: seq<char>, n: nat, ts: seq<Token>): (r: seq<char>)
    requires n < |m|
    ensures |r| == |m|
    decreases |ts|
  {
    if ts == [] then m
    else Cut(if ts[0].end < n then m[ts[0].end := NUL] else m, n, ts[1..])
  }

  ghost predicate EndsAt(ts: seq<Token>, i: nat) {
    exists t :: t in ts && t.end == i
  }

  /** Exactly those delimiters change. */
  lemma {:induction false} CutAt(m: seq<char>, n: nat, ts: seq<Token>, i: nat)
    requires n < |m| && i < |m|
    ensures Cut(m, n, ts)[i] == if i < n && EndsAt(ts, i) then '\0' else m[i]
    decreases |ts|
  {
    if ts != [] {
      var m1 := if ts[0].end < n then m[ts[0].end := NUL] else m;
      CutAt(m1, n, ts[1..], i);
      assert ts == [ts[0]] + ts[1..];
    }
  }

  /** The pointers to the tokens, in order. */
  function StartsOf(ts: seq<Token>): seq<int> {
    seq(|ts|, i requires 0 <= i < |ts| => ts[i].start)
  }

  /** `starts` are the starts of the runs of `m` from `k` on, and `m'` is `m` with
      them cut; no text and no runs when `k` is NULL. */
  ghost predicate Collected(m: seq<char>, k: int, n: nat, d: set<char>, starts: seq<int>, m': seq<char>) {
    if k == NULL then starts == [] && m' == m
    else
      0 <= k <= n < |m| && starts == StartsOf(Runs(m, k, n, d)) && m' == Cut(m, n, Runs(m, k, n, d))
  }

  /** Calling `strtok` with `s1` and then with NULL until it returns NULL. */
  method Collect(tk: Tokenizer, s1: int, d: string, ghost n: nat) returns (starts: seq<int>)
    requires NUL !in d
    requires var k := if s1 != NULL then s1 else tk.tok; k == NULL || StringAt(tk.buf[..], k, n)
    modifies tk, tk.buf
    ensures tk.tok == NULL
    ensures Collected(old(tk.buf[..]), if s1 != NULL then s1 else old(tk.tok), n, Chars(d), starts, tk.buf[..])
    decreases var k := if s1 != NULL then s1 else tk.tok; if k == NULL then 0 else 1 + n - k
  {
    ghost var k, m := if s1 != NULL then s1 else tk.tok, tk.buf[..];
    var r := tk.Strtok(s1, d, n);
    if r == NULL {
      return [];
    }
    ghost var m1, k1 := tk.buf[..], tk.tok;
    var rest := Collect(tk, NULL, d, n);
    CollectStep(m, k, n, Chars(d), m1, k1, rest, tk.buf[..]);
    starts := [r] + rest;
  }

  lemma StartsOfCons(t: Token, ts: seq<Token>)
    ensures StartsOf([t] + ts) == [t.start] + StartsOf(ts)
  {
  }

  lemma CollectStep(m: seq<char>, k: nat, n: nat, d: set<char>,
                    m1: seq<char>, k1: int, rest: seq<int>, m': seq<char>)
    requires k <= n < |m| && Skip(m, k, n, d) < n
    requires var b := End(m, Skip(m, k, n, d), n, d);
             if b < n then k1 == b + 1 && m1 == m[b := NUL] else k1 == NULL && m1 == m
    requires Collected(m1, k1, n, d, rest, m')
    ensures Collected(m, k, n, d, [Skip(m, k, n, d)] + rest, m')
  {
    var a := Skip(m, k, n, d);
    var b := End(m, a, n, d);
    var more := if b < n then Runs(m1, b + 1, n, d) else [];
    FirstRun(m, k, n, d);
    StartsOfCons(Token(a, b), more);
    assert rest == StartsOf(more) && m' == Cut(m1, n, more);
  }

  /** The first run, and what cutting it leaves. */
  lemma FirstRun(m: seq<char>, k: nat, n: nat, d: set<char>)
    requires k <= n < |m| && Skip(m, k, n, d) < n
    ensures var a := Skip(m, k, n, d);
            var b := End(m, a, n, d);
            var m1, ts := if b < n then m[b := NUL] else m, Runs(m, k, n, d);
            var rest := if b < n then Runs(m1, b + 1, n, d) else [];
            ts == [Token(a, b)] + rest && Cut(m, n, ts) == Cut(m1, n, rest)
  {
    var a := Skip(m, k, n, d);
    var b := End(m, a, n, d);
    if b < n {
      RunsAgree(m, m[b := NUL], b + 1, n, d);
      assert ([Token(a, b)] + Runs(m, b + 1, n, d))[1..] == Runs(m, b + 1, n, d);
    }
  }

  /** `strtok(s, d)` and then `strtok(NULL, d)` until NULL: the pointers returned
      are the starts of exactly the maximal delimiter-free runs of the text, in
      order; each then reads as that run; nothing but the delimiter after a run
      has changed; and every later call returns NULL. */
  method Tokenize(tk: Tokenizer, s: nat, d: string, ghost n: nat) returns (starts: seq<int>, after: int)
    requires NUL !in d && StringAt(tk.buf[..], s, n)
    modifies tk, tk.buf
    ensures var m, ts := old(tk.buf[..]), Runs(old(tk.buf[..]), s, n, Chars(d));
            && InOrder(ts) && Lists(m, s, n, Chars(d), ts)
            && starts == StartsOf(ts)
            && tk.buf[..] == Cut(m, n, ts)
            && (forall t :: t in ts ==> ReadsAs(m, tk.buf[..], t))
    ensures after == NULL && tk.tok == NULL
  {
    ghost var m := tk.buf[..];
    RunsAreMaximal(m, s, n, Chars(d));
    starts := Collect(tk, s, d, n);
    after := tk.Strtok(NULL, d, n);
    forall t | t in Runs(m, s, n, Chars(d))
      ensures ReadsAs(m, tk.buf[..], t)
    {
      CutReads(m, s, n, Chars(d), t);
    }
  }

  /** In `m'` the token `t` is a C string with the characters it had in `m`. */
  ghost predicate ReadsAs(m: seq<char>, m': seq<char>, t: Token) {
    |m| == |m'| && StringAt(m', t.start, t.end) && m'[t.start..t.end] == m[t.start..t.end]
  }

  lemma CutReads(m: seq<char>, k: nat, n: nat, d: set<char>, t: Token)
    requires StringAt(m, k, n) && t in Runs(m, k, n, d)
    ensures ReadsAs(m, Cut(m, n, Runs(m, k, n, d)), t)
  {
    var ts := Runs(m, k, n, d);
    assert IsRun(m, k, n, d, t) by { RunsAreMaximal(m, k, n, d); }
    CutAt(m, n, ts, t.end);
    assert t.end < n ==> EndsAt(ts, t.end);
    forall i | t.start <= i < t.end
      ensures Cut(m, n, ts)[i] == m[i]
    {
      CutAt(m, n, ts, i);
      NotAnEnd(m, k, n, d, i);
    }
  }

  lemma NotAnEnd(m: seq<char>, k: nat, n: nat, d: set<char>, i: nat)
    requires k <= i < n < |m| && m[i] !in d
    ensures !EndsAt(Runs(m, k, n, d), i)
  {
    RunsAreMaximal(m, k, n, d);
    forall u | u in Runs(m, k, n, d)
      ensures u.end != i
    {
      assert IsRun(m, k, n, d, u);
    }
  }
}
