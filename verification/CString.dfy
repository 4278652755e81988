/** lib/string.c on NUL-terminated text. A read-only C string is modelled by its
    characters before the terminator; a buffer that is written by an array. */
module CString {

  const NUL: char := '\0'

  /** Character `i` of the C string `s`, the terminator included. */
  function At(s: string, i: nat): char
    requires i <= |s|
  {
    if i < |s| then s[i] else NUL
  }

  /** `s` comes before `t` in dictionary order of character codes. */
  predicate Before(s: string, t: string) {
    t != [] && (s == [] || s[0] < t[0] || (s[0] == t[0] && Before(s[1..], t[1..])))
  }

  /** At the first difference `s` has the smaller character, or has ended. */
  lemma {:induction false} BeforeAt(s: string, t: string)
    ensures Before(s, t) <==>
            exists k :: 0 <= k <= |s| && k < |t| && s[..k] == t[..k] && (k == |s| || s[k] < t[k])
    decreases |s|
  {
    if s != [] && t != [] && s[0] == t[0] {
      BeforeAt(s[1..], t[1..]);
      if Before(s, t) {
        var u, v := s[1..], t[1..];
        var k :| 0 <= k <= |u| && k < |v| && u[..k] == v[..k] && (k == |u| || u[k] < v[k]);
        assert s[..k + 1] == [s[0]] + s[1..][..k] && t[..k + 1] == [t[0]] + t[1..][..k];
      }
      if k :| 0 <= k <= |s| && k < |t| && s[..k] == t[..k] && (k == |s| || s[k] < t[k]) {
        assert k > 0;
        assert s[1..][..k - 1] == s[..k][1..] && t[1..][..k - 1] == t[..k][1..];
      }
    } else if t != [] {
      assert s[..0] == t[..0];
      if s != [] {
        forall k | 0 < k <= |s| && k < |t|
          ensures s[..k] != t[..k]
        {
          assert s[..k][0] == s[0] && t[..k][0] == t[0];
        }
      }
    }
  }

  /** `strcmp`. */
  method Strcmp(s: string, t: string) returns (r: int)
    requires NUL !in s && NUL !in t
    ensures r == 0 <==> s == t
    ensures r < 0 <==> Before(s, t)
  {
    var i := 0;
    while At(s, i) != NUL && At(s, i) == At(t, i)
      invariant i <= |s| && i <= |t| && s[..i] == t[..i]
      invariant Before(s, t) <==> Before(s[i..], t[i..])
      decreases |s| - i
    {
      assert s[i..][1..] == s[i + 1..] && t[i..][1..] == t[i + 1..];
      assert s[i] == t[i];
      i := i + 1;
    }
    if i < |s| { assert s[i] in s; }
    if i < |t| { assert t[i] in t; }
    assert s == t ==> s[i..] == t[i..];
    assert s == s[..i] + s[i..] && t == t[..i] + t[i..];
    r := At(s, i) as int - At(t, i) as int;
  }
}
