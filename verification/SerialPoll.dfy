/** The polling line editor `serial_poll` of kernel/serial.c. */
module SerialPoll {
  import opened CString

  const BS: char := 8 as char

  predicate IsErase(c: char) {
    c as int == 8 || c as int == 127
  }

  predicate IsEnter(c: char) {
    c == '\n' || c == '\r'
  }

  /** The line after the characters `s` have been typed: erasing pops, anything
      else, the Enter key included, is pushed. */
  function Typed(s: string): string {
    if s == [] then []
    else
      var line, c := Typed(s[..|s| - 1]), s[|s| - 1];
      if !IsErase(c) then line + [c]
      else if line == [] then []
      else line[..|line| - 1]
  }

  /** No erase comes on an empty line. */
  predicate Clean(s: string) {
    s == [] || (Clean(s[..|s| - 1]) && !(IsErase(s[|s| - 1]) && Typed(s[..|s| - 1]) == []))
  }

  /** The call returns after `s`: the line is full, or Enter was the last key. */
  predicate Stops(s: string, len: nat) {
    |Typed(s)| == len || (s != [] && IsEnter(s[|s| - 1]))
  }

  /** After the first `j` keys the call has not returned. */
  predicate GoesOn(input: string, j: nat, len: nat)
    requires j <= |input|
  {
    !Stops(input[..j], len)
  }

  /** The keys make the call erase an empty line before it returns. */
  ghost predicate ErasesNothing(input: string, len: nat) {
    exists j :: 0 <= j <= |input| && !Clean(input[..j]) && forall i :: 0 <= i < j ==> GoesOn(input, i, len)
  }

  lemma CleanPrefix(s: string, j: nat)
    requires Clean(s) && j <= |s|
    ensures Clean(s[..j])
    decreases |s|
  {
    if j < |s| {
      assert s[..|s| - 1][..j] == s[..j];
      CleanPrefix(s[..|s| - 1], j);
    } else {
      assert s[..j] == s;
    }
  }

  /** A call that has used `used` keys, all but the last without returning, has
      decided whether the keys erase an empty line. */
  lemma WildDecided(input: string, used: nat, len: nat)
    requires used <= |input| && forall i :: 0 <= i < used ==> GoesOn(input, i, len)
    requires Clean(input[..used]) ==> used == |input| || Stops(input[..used], len)
    ensures ErasesNothing(input, len) <==> !Clean(input[..used])
  {
    assert used < |input| && Clean(input[..used]) ==> !GoesOn(input, used, len);
    if ErasesNothing(input, len) && Clean(input[..used]) {
      var j :| 0 <= j <= |input| && !Clean(input[..j]) && forall i :: 0 <= i < j ==> GoesOn(input, i, len);
      if j <= used {
        assert input[..used][..j] == input[..j];
        CleanPrefix(input[..used], j);
      }
    }
  }

  /** What is echoed to the terminal for `s`. */
  function Echo(s: string): string {
    if s == [] then []
    else
      Echo(s[..|s| - 1]) + EchoOf(s[|s| - 1])
  }

  /** `serial_poll` returns the number of characters, still waits for input, or has
      written through index -1 (it then returns BUFFER_OVERFLOW). */
  datatype Outcome = Count(n: nat) | Waiting(n: nat) | WildWrite

  lemma TypedSnoc(s: string, c: char)
    ensures Typed(s + [c]) == if !IsErase(c) then Typed(s) + [c]
                              else if Typed(s) == [] then []
                              else Typed(s)[..|Typed(s)| - 1]
    ensures Clean(s + [c]) <==> Clean(s) && !(IsErase(c) && Typed(s) == [])
    ensures Echo(s + [c]) == Echo(s) + EchoOf(c)
  {
  }

  /** The editor and the terminal key by key, by character code: 8 and 127 erase and
      are echoed with 8 32 8 behind them, 10 and 13 are echoed with 10 behind them. */
  lemma KeyByCode(s: string, c: char)
    ensures Typed([]) == [] && Echo([]) == [] && Clean([])
    ensures c as int != 8 && c as int != 127 ==>
              && Typed(s + [c]) == Typed(s) + [c] && (Clean(s + [c]) <==> Clean(s))
              && (c as int != 10 && c as int != 13 ==> Echo(s + [c]) == Echo(s) + [c])
    ensures c as int == 10 || c as int == 13 ==> Echo(s + [c]) == Echo(s) + [c, 10 as char]
    ensures c as int == 8 || c as int == 127 ==>
              && (Clean(s + [c]) <==> Clean(s) && Typed(s) != [])
              && (Typed(s) != [] ==> Typed(s + [c]) == Typed(s)[..|Typed(s)| - 1])
              && Echo(s + [c]) == Echo(s) + [c, 8 as char, 32 as char, 8 as char]
  {
    TypedSnoc(s, c);
  }

  /** Keys that do not erase are the line. */
  lemma {:induction false} TypedPlain(s: string)
    requires forall i :: 0 <= i < |s| ==> s[i] as int != 8 && s[i] as int != 127
    ensures Typed(s) == s && Clean(s)
  {
    if s != [] {
      TypedPlain(s[..|s| - 1]);
      assert s == s[..|s| - 1] + [s[|s| - 1]];
    }
  }

  /** The echo of one key. */
  function EchoOf(c: char): string {
    [c] + (if IsErase(c) then [BS, ' ', BS] else []) + (if IsEnter(c) then ['\n'] else [])
  }

  /** Lines 261-278 of kernel/serial.c: store the key, and on an erase step back
      over it and over the character before it. `wild` is the write through index
      -1 when there is none. */
  method StoreKey(buffer: array<char>, bytesRead: nat, c: char) returns (n: nat, wild: bool)
    requires bytesRead < buffer.Length
    modifies buffer
    ensures wild <==> (c as int == 8 || c as int == 127) && bytesRead == 0
    ensures forall k :: bytesRead < k < buffer.Length ==> buffer[k] == old(buffer[k])
    ensures !wild ==> n <= bytesRead + 1
    ensures !wild ==> buffer[..n] == if c as int == 8 || c as int == 127 then old(buffer[..bytesRead])[..bytesRead - 1]
                                     else old(buffer[..bytesRead]) + [c]
  {
    n := bytesRead;
    buffer[n] := c;
    n := n + 1;
    wild := false;
    if IsErase(c) {
      n := n - 1;
      if n == 0 {
        return n, true;
      }
      n := n - 1;
      buffer[n] := NUL;
    }
  }

  /** Lines 280-287: Enter is followed by a terminator. */
  method Terminate(buffer: array<char>, n: nat, c: char)
    requires n < buffer.Length
    modifies buffer
    ensures buffer[..n] == old(buffer[..n])
    ensures buffer[n] == if IsEnter(c) then NUL else old(buffer[n])
    ensures forall k :: n < k < buffer.Length ==> buffer[k] == old(buffer[k])
  {
    if IsEnter(c) {
      buffer[n] := NUL;
    }
  }

  /** One key, on a line that holds what `seen` typed. */
  method TakeKey(buffer: array<char>, bytesRead: nat, c: char, ghost seen: string) returns (n: nat, wild: bool)
    requires bytesRead + 1 < buffer.Length && Clean(seen) && buffer[..bytesRead] == Typed(seen)
    modifies buffer
    ensures wild <==> !Clean(seen + [c])
    ensures !wild ==> n <= bytesRead + 1 && buffer[..n] == Typed(seen + [c]) && (IsEnter(c) ==> buffer[n] == NUL)
    ensures forall k :: bytesRead + 1 < k < buffer.Length ==> buffer[k] == old(buffer[k])
    ensures wild || !IsEnter(c) ==> buffer[bytesRead + 1] == old(buffer[bytesRead + 1])
  {
    TypedSnoc(seen, c);
    n, wild := StoreKey(buffer, bytesRead, c);
    if !wild {
      Terminate(buffer, n, c);
    }
  }

  /** `serial_poll` on the keys `input`, of which `used` are read. The documented
      size of the buffer is `len`; the cell past it is written exactly when Enter
      is the key that fills the line. */
  method Poll(input: string, buffer: array<char>, len: nat) returns (r: Outcome, used: nat, echo: string)
    requires buffer.Length == len + 1
    modifies buffer
    ensures used <= |input| && forall j :: 0 <= j < used ==> GoesOn(input, j, len)
    ensures r.WildWrite? <==> ErasesNothing(input, len)
    ensures !r.WildWrite? ==> Finished(input, used, buffer[..], len, r, echo)
    ensures forall j :: 0 <= j < used - 1 ==> input[j] as int != 10 && input[j] as int != 13
    ensures var enter := used > 0 && (input[used - 1] as int == 10 || input[used - 1] as int == 13);
            && (!r.WildWrite? ==> r.n == |Typed(input[..used])| <= len && buffer[..r.n] == Typed(input[..used]))
            && (!r.WildWrite? ==> echo == Echo(input[..used]) && (r.Count? <==> r.n == len || enter))
            && (!r.WildWrite? && enter ==> buffer[r.n] as int == 0)
            && buffer[len] == if r == Count(len) && enter then 0 as char else old(buffer[len])
  {
    r, used, echo := ReadKeys(input, buffer, len);
    WildDecided(input, used, len);
    forall j | 0 <= j < used - 1
      ensures input[j] as int != 10 && input[j] as int != 13
    {
      assert GoesOn(input, j + 1, len);
    }
    assert !r.WildWrite? ==> buffer[..][..r.n] == buffer[..r.n];
  }

  /** The loop of lines 256-293. */
  method ReadKeys(input: string, buffer: array<char>, len: nat) returns (r: Outcome, used: nat, echo: string)
    requires buffer.Length == len + 1
    modifies buffer
    ensures used <= |input| && forall j :: 0 <= j < used ==> GoesOn(input, j, len)
    ensures r.WildWrite? <==> !Clean(input[..used])
    ensures !r.WildWrite? ==> Finished(input, used, buffer[..], len, r, echo)
    ensures buffer[len] == if r == Count(len) && used > 0 && IsEnter(input[used - 1]) then NUL else old(buffer[len])
  {
    var bytesRead := 0;
    used := 0;
    echo := [];
    while bytesRead < len
      invariant 0 <= bytesRead <= len && OnTheWay(input, used, buffer[..bytesRead], len, echo)
      invariant buffer[len] == old(buffer[len])
      decreases |input| - used
    {
      if used == |input| {
        return Waiting(bytesRead), used, echo;
      }
      var c, wild := input[used], false;
      bytesRead, wild, echo := ReadKey(input, used, buffer, bytesRead, len, echo);
      used := used + 1;
      if wild {
        return WildWrite, used, echo;
      }
      if IsEnter(c) {
        return Count(bytesRead), used, echo;
      }
    }
    return Count(bytesRead), used, echo;
  }

  /** Lines 258-288: key number `used`, on the way. */
  method ReadKey(input: string, used: nat, buffer: array<char>, bytesRead: nat, len: nat, echo: string)
    returns (n: nat, wild: bool, echo': string)
    requires buffer.Length == len + 1 && bytesRead < len && used < |input|
    requires OnTheWay(input, used, buffer[..bytesRead], len, echo)
    modifies buffer
    ensures GoesOn(input, used, len) && (wild <==> !Clean(input[..used + 1]))
    ensures !wild ==> n <= len && buffer[..n] == Typed(input[..used + 1]) && echo' == Echo(input[..used + 1])
    ensures !wild && IsEnter(input[used]) ==> buffer[n] == NUL
    ensures !wild && !IsEnter(input[used]) ==> OnTheWay(input, used + 1, buffer[..n], len, echo')
    ensures buffer[len] == if !wild && n == len && IsEnter(input[used]) then NUL else old(buffer[len])
  {
    var c := input[used];
    NextKey(input, used, buffer[..bytesRead], len, echo);
    n, wild := TakeKey(buffer, bytesRead, c, input[..used]);
    echo' := echo + EchoOf(c);
  }

  /** `used` keys have been read without an Enter or an erase too many. */
  ghost predicate OnTheWay(input: string, used: nat, line: string, len: nat, echo: string) {
    && used <= |input| && Clean(input[..used]) && line == Typed(input[..used]) && echo == Echo(input[..used])
    && (forall j :: 0 <= j < used ==> GoesOn(input, j, len))
    && (used > 0 ==> !IsEnter(input[used - 1]))
  }

  lemma NextKey(input: string, used: nat, line: string, len: nat, echo: string)
    requires OnTheWay(input, used, line, len, echo) && used < |input| && |line| < len
    ensures input[..used] + [input[used]] == input[..used + 1] && GoesOn(input, used, len)
    ensures Echo(input[..used + 1]) == echo + EchoOf(input[used])
  {
    assert input[..used] + [input[used]] == input[..used + 1];
    TypedSnoc(input[..used], input[used]);
  }

  /** What a call that stayed in its buffer leaves: the first cells hold the edited
      line, the terminal shows its echo, Enter is followed by a terminator, and the
      call has returned exactly when the line is full or Enter was typed. */
  ghost predicate Finished(input: string, used: nat, m: seq<char>, len: nat, r: Outcome, echo: string)
    requires used <= |input| && !r.WildWrite? && |m| == len + 1
  {
    var line := Typed(input[..used]);
    && r.n == |line| <= len && m[..r.n] == line && echo == Echo(input[..used])
    && (r.Count? <==> Stops(input[..used], len))
    && (r.Waiting? ==> used == |input|)
    && (used > 0 && IsEnter(input[used - 1]) ==> m[r.n] == NUL)
  }
}
