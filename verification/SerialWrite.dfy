/** The interrupt-driven write of kernel/serial.c: requests from `io_scheduler`
    through `serial_write` and `serial_output_interrupt`. */
module SerialWrite {

  datatype OpCode = Exit | Idle | Read | Write

  /** The caller's `char *`: NULL, or the memory that may be read there. */
  datatype Pointer = Null | To(bytes: seq<int>)

  /** An I/O control block. `buffer` is the memory at the caller's pointer. */
  datatype Iocb = Iocb(buffer: seq<int>, size: nat, op: OpCode)

  /** The byte each output interrupt sends before the next character. */
  const MARK: int := 2

  /** Every byte followed by the mark. */
  function Marked(bytes: seq<int>): (r: seq<int>)
    ensures |r| == 2 * |bytes|
  {
    if bytes == [] then [] else Marked(bytes[..|bytes| - 1]) + [bytes[|bytes| - 1], MARK]
  }

  lemma {:induction false} MarkedAt(bytes: seq<int>, i: nat)
    requires i < |bytes|
    ensures Marked(bytes)[2 * i] == bytes[i] && Marked(bytes)[2 * i + 1] == 2
  {
    if i < |bytes| - 1 {
      MarkedAt(bytes[..|bytes| - 1], i);
    }
  }

  /** What the device has sent after a write of `n` bytes from `text` and `k`
      interrupts, as long as these stay inside `text`. */
  function Sent(text: seq<int>, n: nat, k: nat): seq<int>
    requires n >= 1 && (k < |text| || n <= |text|)
  {
    if k < n then Marked(text[..k]) + [text[k]] else Marked(text[..n])
  }

  /** Each interrupt only adds to what was sent, so no prefix skips or repeats. */
  lemma SentGrows(text: seq<int>, n: nat, k: nat)
    requires n >= 1 && (k + 1 < |text| || n <= |text|)
    ensures Sent(text, n, k + 1) ==
            Sent(text, n, k) +
            (if k + 1 < n then [MARK, text[k + 1]] else if k + 1 == n then [MARK] else [])
  {
    if k < n {
      assert text[..k + 1][..k] == text[..k];
    }
  }

  /** The trace by position: byte i at 2i, a 2 behind every byte but the last one of a
      write that is still going on. */
  lemma SentAt(text: seq<int>, n: nat, k: nat, i: nat)
    requires n >= 1 && (k < |text| || n <= |text|)
    ensures |Sent(text, n, k)| == if k < n then 2 * k + 1 else 2 * n
    ensures i < n && i < k ==> Sent(text, n, k)[2 * i] == text[i] && Sent(text, n, k)[2 * i + 1] == 2
    ensures k < n ==> Sent(text, n, k)[2 * k] == text[k]
  {
    var m := if k < n then k else n;
    if i < m {
      MarkedAt(text[..m], i);
    }
  }

  /** The same inside a longer trace. */
  lemma TraceBytes(text: seq<int>, n: nat, k: nat, past: bool, before: seq<int>, sent: seq<int>)
    requires n >= 1 && |text| >= 1 && (past <==> |text| < n && |text| <= k)
    requires sent == before + if past then Marked(text) else Sent(text, n, k)
    ensures var z := |before|;
            && z < |sent| && sent[..z] == before && sent[z] == text[0]
            && (!past ==> |sent| == z + (if k < n then 2 * k + 1 else 2 * n))
            && (!past ==> forall i :: 0 <= i < n && i < k ==>
                  i < |text| && sent[z + 2 * i] == text[i] && sent[z + 2 * i + 1] == 2)
  {
    if past {
      MarkedAt(text, 0);
    } else {
      forall i | 0 <= i
        ensures i < n && i < k ==>
                  i < |text| && sent[|before| + 2 * i] == text[i] && sent[|before| + 2 * i + 1] == 2
      {
        SentAt(text, n, k, i);
      }
      SentAt(text, n, k, 0);
    }
  }

  lemma SentAll(text: seq<int>, n: nat, k: nat)
    requires k + 1 == |text| < n
    ensures Sent(text, n, k) + [MARK] == Marked(text)
  {
  }

  /** The bytes a write of length `len` sends. */
  function Length(len: nat): nat {
    if len == 0 then 1 else len
  }

  /** The request at the head of the queue once the new one is behind it. */
  function Head(queue: seq<Iocb>, request: Iocb): Iocb {
    if queue == [] then request else queue[0]
  }

  /** What can be sent: `serial_write` sends its own first byte, and the interrupts
      read on in the head's buffer. */
  function Text(first: int, head: Iocb): (r: seq<int>)
    ensures |r| >= 1
  {
    [first] + if head.buffer == [] then [] else head.buffer[1..]
  }

  /** The device control block `serial_port`, opened on COM1. */
  class Dcb {
    var operation: OpCode
    var inUse: bool
    var eventFlag: int
    var counter: int
    var count: int
    /** The list at `io_head`. */
    var queue: seq<Iocb>
    /** `initialized[0]`. */
    var initialized: bool
    /** The output-interrupt bit of the interrupt enable register. */
    var txEnabled: bool
    /** Everything written to the data port. */
    var sent: seq<int>
    /** The requests given to `unblock_pcb` and then freed, in order. */
    var completed: seq<Iocb>

    /** Open, idle, with no request waiting. */
    predicate Quiet()
      reads this
    {
      operation == Idle && !inUse && initialized && queue == []
    }

    /** Open and idle, though requests may be waiting. */
    predicate Startable()
      reads this
    {
      operation == Idle && !inUse && initialized
    }

    /** A write of `n` bytes after `k` output interrupts, with `first` as its first
        byte and `head` at the front of the queue; `before` was sent and `finished`
        was completed earlier. */
    ghost predicate Writing(first: int, head: Iocb, rest: seq<Iocb>, n: nat, k: nat,
                            before: seq<int>, finished: seq<Iocb>)
      requires 1 <= n && (k < |Text(first, head)| || n <= |Text(first, head)|)
      reads this
    {
      && sent == before + Sent(Text(first, head), n, k) && !inUse && initialized
      && if k < n then
           && operation == Write && eventFlag == 1 && counter == k + 1 && queue == [head] + rest && txEnabled
           && (count == n || (n == 1 && count == 0)) && completed == finished
         else
           operation == Idle && eventFlag == 0 && queue == rest && !txEnabled && completed == finished + [head]
    }

    /** `serial_write`, for COM1. */
    method StartWrite(buf: Pointer, len: nat) returns (code: int)
      requires buf.To? ==> |buf.bytes| >= 1
      modifies this
      ensures queue == old(queue) && initialized == old(initialized) && inUse == old(inUse)
      ensures completed == old(completed)
      ensures code == if old(inUse) then -404 else if buf.Null? then -402 else if !old(initialized) then -401
                      else if old(operation) != Idle then -404 else 0
      ensures code != 0 ==> sent == old(sent) && operation == old(operation) && eventFlag == old(eventFlag)
                            && counter == old(counter) && count == old(count) && txEnabled == old(txEnabled)
      ensures code == 0 ==> sent == old(sent) + [buf.bytes[0]] && operation == Write && eventFlag == 1
                            && counter == 1 && count == len && txEnabled
    {
      if inUse {
        return -404;
      }
      if buf.Null? {
        return -402;
      }
      if !initialized {
        return -401;
      }
      if operation == Idle {
        operation := Write;
        eventFlag := 1;
        counter := 0;
        count := len;
        txEnabled := true;
        sent := sent + [buf.bytes[0]];
        counter := counter + 1;
        return 0;
      }
      return -404;
    }

    /** `io_scheduler(dev, buf, len, WRITE)`: on COM1 and with a buffer, queue the
        request, and start it when the device is idle. */
    method ScheduleWrite(com1: bool, buf: Pointer, len: nat)
      requires buf.To? ==> |buf.bytes| >= 1
      modifies this
      ensures queue == if com1 && buf.To? then old(queue) + [Iocb(buf.bytes, len, Write)] else old(queue)
      ensures initialized == old(initialized) && inUse == old(inUse) && completed == old(completed)
      ensures com1 && buf.To? && old(Startable()) ==>
                && sent == old(sent) + [buf.bytes[0]] && operation == Write && eventFlag == 1
                && counter == 1 && count == len && txEnabled
      ensures !(com1 && buf.To? && old(Startable())) ==>
                && sent == old(sent) && operation == old(operation) && eventFlag == old(eventFlag)
                && counter == old(counter) && count == old(count) && txEnabled == old(txEnabled)
    {
      if !com1 || buf.Null? {
        return;
      }
      var request := Iocb(buf.bytes, len, Write);
      queue := queue + [request];
      if operation == Idle {
        var code := StartWrite(buf, len);
      }
    }

    /** `serial_output_interrupt` on a device that is writing or has just finished.
        `past` says that it reads behind the end of the head's buffer, which happens
        exactly when the write is longer than that and has come to its end. */
    method OutputInterrupt(ghost first: int, ghost head: Iocb, ghost rest: seq<Iocb>,
                           ghost n: nat, ghost k: nat, ghost before: seq<int>, ghost finished: seq<Iocb>)
      returns (past: bool)
      requires 1 <= n && (k < |Text(first, head)| || n <= |Text(first, head)|)
      requires Writing(first, head, rest, n, k, before, finished)
      modifies this
      ensures past <==> k + 1 == |Text(first, head)| < n
      ensures !past ==> Writing(first, head, rest, n, k + 1, before, finished)
      ensures past ==> sent == before + Marked(Text(first, head))
    {
      if operation != Write {
        return false;
      }
      sent := sent + [MARK];
      if eventFlag == 1 && counter < count {
        if counter >= |queue[0].buffer| {
          SentAll(Text(first, head), n, k);
          return true;
        }
        SentGrows(Text(first, head), n, k);
        sent := sent + [queue[0].buffer[counter]];
        counter := counter + 1;
      } else {
        SentGrows(Text(first, head), n, k);
        inUse := false;
        eventFlag := 0;
        completed := completed + [queue[0]];
        queue := queue[1..];
        operation := Idle;
        txEnabled := false;
      }
      return false;
    }

    /** Up to `times` output interrupts in turn, ending with one that reads past. */
    method Interrupts(times: nat, ghost first: int, ghost head: Iocb, ghost rest: seq<Iocb>,
                      ghost n: nat, ghost k: nat, ghost before: seq<int>, ghost finished: seq<Iocb>)
      returns (past: bool)
      requires 1 <= n && (k < |Text(first, head)| || n <= |Text(first, head)|)
      requires Writing(first, head, rest, n, k, before, finished)
      modifies this
      ensures past <==> |Text(first, head)| < n && |Text(first, head)| <= k + times
      ensures !past ==> Writing(first, head, rest, n, k + times, before, finished)
      ensures past ==> sent == before + Marked(Text(first, head))
    {
      ghost var text := Text(first, head);
      var i := 0;
      past := false;
      while i < times
        invariant 0 <= i <= times && (k + i < |text| || n <= |text|)
        invariant Writing(first, head, rest, n, k + i, before, finished)
      {
        past := OutputInterrupt(first, head, rest, n, k + i, before, finished);
        if past {
          return;
        }
        i := i + 1;
      }
    }

    /** A write scheduled on an idle device, and then any number of interrupts. What
        goes out is the first byte of the new request and then the bytes of the
        request at the head of the queue, which is the new one exactly when none
        was waiting. A length of 0 still sends one byte; a length beyond the head's
        buffer ends in a read `past` it. */
    method WriteAndInterrupt(buffer: seq<int>, len: nat, interrupts: nat) returns (past: bool)
      requires Startable() && 1 <= |buffer|
      modifies this
      ensures var n, request := Length(len), Iocb(buffer, len, Write);
              var head := Head(old(queue), request);
              var text := Text(buffer[0], head);
              && (past <==> |text| < n && |text| <= interrupts)
              && (past ==> sent == old(sent) + Marked(text))
              && (!past ==> sent == old(sent) + Sent(text, n, interrupts))
              && (!past && interrupts < n ==> operation == Write && completed == old(completed))
              && (interrupts >= n && !past ==>
                    && Startable() && queue == (old(queue) + [request])[1..]
                    && completed == old(completed) + [head] && sent == old(sent) + Marked(text[..n]))
    {
      ghost var request := Iocb(buffer, len, Write);
      ghost var head, before, finished := Head(queue, request), sent, completed;
      ghost var rest := (queue + [request])[1..];
      ScheduleWrite(true, To(buffer), len);
      assert queue == [head] + rest;
      past := Interrupts(interrupts, buffer[0], head, rest, Length(len), 0, before, finished);
    }

    /** The same byte by byte: the mark is 2, the first byte is that of the new request,
        and the others come from the buffer of the request that waits longest. */
    method WriteBytes(buffer: seq<int>, len: nat, interrupts: nat) returns (past: bool)
      requires Startable() && 1 <= |buffer|
      modifies this
      ensures var n, z, b := if len == 0 then 1 else len, |old(sent)|,
                             if old(queue) == [] then buffer else old(queue)[0].buffer;
              && (past <==> |b| < n && 1 < n && |b| <= interrupts && 1 <= interrupts)
              && (!past ==> |sent| == z + (if interrupts < n then 2 * interrupts + 1 else 2 * n))
              && z < |sent| && sent[..z] == old(sent) && sent[z] == buffer[0]
              && (!past ==> forall i :: 1 <= i < n && i < interrupts ==> i < |b| && sent[z + 2 * i] == b[i])
              && (!past ==> forall i :: 0 <= i < n && i < interrupts ==> sent[z + 2 * i + 1] == 2)
    {
      ghost var head, before := Head(queue, Iocb(buffer, len, Write)), sent;
      past := WriteAndInterrupt(buffer, len, interrupts);
      TraceBytes(Text(buffer[0], head), Length(len), interrupts, past, before, sent);
    }

    /** From a quiet device the trace is the caller's bytes, and the device is quiet
        again from the last interrupt on. */
    method QuietWrite(buffer: seq<int>, len: nat, interrupts: nat)
      requires Quiet() && 1 <= |buffer| && len <= |buffer|
      modifies this
      ensures sent == old(sent) + Sent(buffer, Length(len), interrupts)
      ensures interrupts >= Length(len) ==> Quiet() && sent == old(sent) + Marked(buffer[..Length(len)])
      ensures interrupts >= Length(len) ==> completed == old(completed) + [Iocb(buffer, len, Write)]
      ensures var n, z := if len == 0 then 1 else len, |old(sent)|;
              && |sent| == z + (if interrupts < n then 2 * interrupts + 1 else 2 * n)
              && (forall i :: 0 <= i < n && i < interrupts ==> sent[z + 2 * i] == buffer[i] && sent[z + 2 * i + 1] == 2)
              && (interrupts < n ==> sent[z + 2 * interrupts] == buffer[interrupts])
    {
      assert Text(buffer[0], Iocb(buffer, len, Write)) == buffer;
      var past := WriteAndInterrupt(buffer, len, interrupts);
      forall i | 0 <= i
        ensures i < Length(len) && i < interrupts ==>
                  sent[|old(sent)| + 2 * i] == buffer[i] && sent[|old(sent)| + 2 * i + 1] == 2
      {
        SentAt(buffer, Length(len), interrupts, i);
      }
      SentAt(buffer, Length(len), interrupts, 0);
    }

    /** A request that comes while the device is busy waits for ever: the interrupts
        finish the first write, and no number of them starts the second. */
    method WriteWhileBusy(first: seq<int>, len: nat, second: seq<int>, len2: nat, early: nat, late: nat)
      requires Quiet() && 1 <= |first| && len <= |first| && 1 <= |second|
      requires early < Length(len) <= early + late
      modifies this
      ensures sent == old(sent) + Marked(first[..Length(len)])
      ensures operation == Idle && queue == [Iocb(second, len2, Write)] && !txEnabled
    {
      ghost var head, n, before, finished := Iocb(first, len, Write), Length(len), sent, completed;
      assert Text(first[0], head) == first;
      ScheduleWrite(true, To(first), len);
      var past := Interrupts(early, first[0], head, [], n, 0, before, finished);
      ScheduleWrite(true, To(second), len2);
      past := Interrupts(late, first[0], head, [Iocb(second, len2, Write)], n, early, before, finished);
    }
  }
}
