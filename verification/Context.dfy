/** kernel/sys_call_isr.s: saving the interrupted process on its own stack and
    resuming from the context that `sys_call` returns. Addresses and stack
    positions are counted in 32-bit words. */
module Context {

  /** The registers a process sees (include/sys_call.h:8-29). */
  datatype Regs = Regs(ds: int, es: int, fs: int, gs: int, ss: int,
                       eax: int, ebx: int, ecx: int, edx: int, esp: nat,
                       ebp: int, esi: int, edi: int, eip: int, cs: int, eflags: int)

  /** Words of a `struct context`. */
  const FRAME: nat := 16

  /** The code selector under which handlers run (kernel/core-c.c:184). */
  const KERNEL_CS: int := 0x08

  function ClearBit(flags: int, bit: nat): int
    requires bit > 0
  {
    if flags / bit % 2 == 1 then flags - bit else flags
  }

  /** The flags an interrupt gate (type 0x8e, kernel/core-c.c:185) leaves: VM, RF,
      NT, TF and IF are cleared (section 6.12.1 of the Intel SDM volume 3A). */
  function Masked(flags: int): int {
    ClearBit(ClearBit(ClearBit(ClearBit(ClearBit(flags, 0x2_0000), 0x1_0000), 0x4000), 0x100), 0x200)
  }

  /** The registers in the handler at `isr`, with `esp` at the given position. */
  function InHandler(r: Regs, isr: int, esp: nat): Regs {
    r.(esp := esp, eip := isr, cs := KERNEL_CS, eflags := Masked(r.eflags))
  }

  /** The frame the interrupt and the pushes build for `r`, lowest word first. The
      esp slot holds the stack position at the time of `push esp`. */
  function FrameOf(r: Regs): seq<int> {
    [r.ds, r.es, r.fs, r.gs, r.ss, r.eax, r.ebx, r.ecx, r.edx, r.esp - 6, r.ebp, r.esi, r.edi, r.eip, r.cs, r.eflags]
  }

  /** `m` with the words `ws` written just below position `base`. */
  function Under(m: seq<int>, base: nat, ws: seq<int>): seq<int>
    requires |ws| <= base <= |m|
  {
    m[..base - |ws|] + ws + m[base..]
  }

  lemma PushUnder(m: seq<int>, base: nat, ws: seq<int>, v: int)
    requires |ws| < base <= |m|
    ensures Under(m, base, ws)[base - |ws| - 1 := v] == Under(m, base, [v] + ws)
  {
  }

  /** Memory after the frame of `r` is pushed at `r.esp`. */
  function Saved(m: seq<int>, r: Regs): seq<int>
    requires FRAME <= r.esp <= |m|
  {
    Under(m, r.esp, FrameOf(r))
  }

  /** The registers that the pops and `iret` load from the frame at `top`; the esp
      slot is skipped and esp ends just above the frame. */
  function Loaded(m: seq<int>, top: nat): Regs
    requires top + FRAME <= |m|
  {
    Regs(m[top], m[top + 1], m[top + 2], m[top + 3], m[top + 4],
         m[top + 5], m[top + 6], m[top + 7], m[top + 8], top + FRAME,
         m[top + 10], m[top + 11], m[top + 12], m[top + 13], m[top + 14], m[top + 15])
  }

  /** The frame word by word, in the order of `struct context` (include/sys_call.h:8-29);
      all else stays. */
  lemma SavedWords(m: seq<int>, s: Regs, m': seq<int>)
    requires 16 <= s.esp <= |m| && m' == Saved(m, s)
    ensures |m'| == |m|
    ensures var t := s.esp - 16;
            && m'[t] == s.ds && m'[t + 1] == s.es && m'[t + 2] == s.fs && m'[t + 3] == s.gs && m'[t + 4] == s.ss
            && m'[t + 5] == s.eax && m'[t + 6] == s.ebx && m'[t + 7] == s.ecx && m'[t + 8] == s.edx
            && m'[t + 9] == s.esp - 6 && m'[t + 10] == s.ebp && m'[t + 11] == s.esi && m'[t + 12] == s.edi
            && m'[t + 13] == s.eip && m'[t + 14] == s.cs && m'[t + 15] == s.eflags
    ensures forall k :: 0 <= k < |m| && !(s.esp - 16 <= k < s.esp) ==> m'[k] == m[k]
  {
  }

  /** In the handler interrupts are off; of all twenty low flags, bits 8, 9, 14, 16
      and 17 go and the others stay. */
  lemma MaskedFlags(flags: int)
    ensures Masked(flags) / 0x200 % 2 == 0
    ensures Masked(0xF_FFFF) == 0xC_BCFF && Masked(0xC_BCFF) == 0xC_BCFF && Masked(0x0202) == 0x0002
  {
    var f := ClearBit(ClearBit(ClearBit(ClearBit(flags, 0x2_0000), 0x1_0000), 0x4000), 0x100);
    assert (f - 0x200) / 0x200 == f / 0x200 - 1;
  }

  /** What was pushed is what is popped. */
  lemma LoadSaved(m: seq<int>, r: Regs)
    requires FRAME <= r.esp <= |m|
    ensures |Saved(m, r)| == |m| && Loaded(Saved(m, r), r.esp - FRAME) == r
  {
  }

  class Cpu {
    var r: Regs
    const mem: array<int>
    /** Where gate 0x60 leads. */
    const isr: int

    /** `push`, when the words `ws` have been pushed on the stack of `m` so far. */
    method Push(v: int, ghost m: seq<int>, ghost base: nat, ghost ws: seq<int>)
      requires |ws| < base <= |m| == mem.Length && r.esp == base - |ws| && mem[..] == Under(m, base, ws)
      modifies `r, mem
      ensures r == old(r).(esp := old(r).esp - 1)
      ensures mem[..] == Under(m, base, [v] + ws)
    {
      r := r.(esp := r.esp - 1);
      mem[r.esp] := v;
      PushUnder(m, base, ws, v);
    }

    method Pop() returns (v: int)
      requires r.esp < mem.Length
      modifies `r
      ensures r == old(r).(esp := old(r).esp + 1) && v == mem[old(r).esp]
    {
      v := mem[r.esp];
      r := r.(esp := r.esp + 1);
    }

    /** The interrupt itself, then `push edi` to `push esp`. */
    method EnterAndPushIndex(ghost m: seq<int>, ghost base: nat)
      requires FRAME <= base == r.esp <= |m| == mem.Length && mem[..] == Under(m, base, [])
      modifies `r, mem
      ensures r == InHandler(old(r), isr, base - 7)
      ensures mem[..] == Under(m, base, FrameOf(old(r))[9..])
    {
      ghost var s := r;
      PushReturn(m, base);
      ghost var ws := [s.eip, s.cs, s.eflags];
      Push(r.edi, m, base, ws);
      Push(r.esi, m, base, [s.edi] + ws);
      Push(r.ebp, m, base, [s.esi] + ([s.edi] + ws));
      Push(r.esp, m, base, [s.ebp] + ([s.esi] + ([s.edi] + ws)));
      assert FrameOf(s)[9..] == [s.esp - 6] + ([s.ebp] + ([s.esi] + ([s.edi] + ws)));
    }

    /** What the processor itself does on an interrupt: three pushes and the jump. */
    method PushReturn(ghost m: seq<int>, ghost base: nat)
      requires 3 <= base == r.esp <= |m| == mem.Length && mem[..] == Under(m, base, [])
      modifies `r, mem
      ensures r == InHandler(old(r), isr, base - 3)
      ensures mem[..] == Under(m, base, [old(r).eip, old(r).cs, old(r).eflags])
    {
      Push(r.eflags, m, base, []);
      Push(r.cs, m, base, [r.eflags] + []);
      Push(r.eip, m, base, [r.cs] + ([r.eflags] + []));
      assert [r.eip] + ([r.cs] + ([r.eflags] + [])) == [r.eip, r.cs, r.eflags];
      r := r.(eip := isr, cs := KERNEL_CS, eflags := Masked(r.eflags));
    }

    /** `push edx` to `push eax`, on top of the words `ws`. */
    method PushData(ghost m: seq<int>, ghost base: nat, ghost ws: seq<int>)
      requires |ws| + 4 <= base <= |m| == mem.Length && r.esp == base - |ws| && mem[..] == Under(m, base, ws)
      modifies `r, mem
      ensures r == old(r).(esp := old(r).esp - 4)
      ensures mem[..] == Under(m, base, [r.eax, r.ebx, r.ecx, r.edx] + ws)
    {
      Push(r.edx, m, base, ws);
      Push(r.ecx, m, base, [r.edx] + ws);
      Push(r.ebx, m, base, [r.ecx] + ([r.edx] + ws));
      Push(r.eax, m, base, [r.ebx] + ([r.ecx] + ([r.edx] + ws)));
      assert [r.eax] + ([r.ebx] + ([r.ecx] + ([r.edx] + ws))) == [r.eax, r.ebx, r.ecx, r.edx] + ws;
    }

    /** `push ss` to `push ds`, on top of the words `ws`. */
    method PushSegments(ghost m: seq<int>, ghost base: nat, ghost ws: seq<int>)
      requires |ws| + 5 <= base <= |m| == mem.Length && r.esp == base - |ws| && mem[..] == Under(m, base, ws)
      modifies `r, mem
      ensures r == old(r).(esp := old(r).esp - 5)
      ensures mem[..] == Under(m, base, [r.ds, r.es, r.fs, r.gs, r.ss] + ws)
    {
      Push(r.ss, m, base, ws);
      Push(r.gs, m, base, [r.ss] + ws);
      Push(r.fs, m, base, [r.gs] + ([r.ss] + ws));
      Push(r.es, m, base, [r.fs] + ([r.gs] + ([r.ss] + ws)));
      Push(r.ds, m, base, [r.es] + ([r.fs] + ([r.gs] + ([r.ss] + ws))));
      assert [r.ds] + ([r.es] + ([r.fs] + ([r.gs] + ([r.ss] + ws)))) == [r.ds, r.es, r.fs, r.gs, r.ss] + ws;
    }

    /** The interrupt and lines 10-23: the whole frame. */
    method Enter()
      requires FRAME <= r.esp <= mem.Length
      modifies `r, mem
      ensures r == InHandler(old(r), isr, old(r).esp - FRAME)
      ensures mem[..] == Saved(old(mem[..]), old(r))
      ensures var t, s := r.esp, old(r);
              && t == s.esp - 16
              && mem[t] == s.ds && mem[t + 1] == s.es && mem[t + 2] == s.fs && mem[t + 3] == s.gs && mem[t + 4] == s.ss
              && mem[t + 5] == s.eax && mem[t + 6] == s.ebx && mem[t + 7] == s.ecx && mem[t + 8] == s.edx
              && mem[t + 9] == s.esp - 6 && mem[t + 10] == s.ebp && mem[t + 11] == s.esi && mem[t + 12] == s.edi
              && mem[t + 13] == s.eip && mem[t + 14] == s.cs && mem[t + 15] == s.eflags
      ensures r.cs == 0x08 && r.eip == isr && r.eflags / 0x200 % 2 == 0
      ensures forall k :: 0 <= k < mem.Length && !(r.esp <= k < r.esp + 16) ==> mem[k] == old(mem[k])
    {
      ghost var m, s := mem[..], r;
      PushAll();
      SavedWords(m, s, mem[..]);
      MaskedFlags(s.eflags);
    }

    /** The interrupt and the thirteen pushes. */
    method PushAll()
      requires FRAME <= r.esp <= mem.Length
      modifies `r, mem
      ensures r == InHandler(old(r), isr, old(r).esp - FRAME)
      ensures mem[..] == Saved(old(mem[..]), old(r))
    {
      ghost var m, s := mem[..], r;
      assert Under(m, r.esp, []) == m;
      EnterAndPushIndex(m, s.esp);
      ghost var low := FrameOf(s)[9..];
      PushData(m, s.esp, low);
      PushSegments(m, s.esp, [s.eax, s.ebx, s.ecx, s.edx] + low);
      assert [s.ds, s.es, s.fs, s.gs, s.ss] + ([s.eax, s.ebx, s.ecx, s.edx] + low) == FrameOf(s);
    }

    method PopSegments()
      requires r.esp + 5 <= mem.Length
      modifies `r
      ensures var t := old(r).esp;
              r == old(r).(esp := t + 5, ds := mem[t], es := mem[t + 1], fs := mem[t + 2], gs := mem[t + 3],
                           ss := mem[t + 4])
    {
      var ds := Pop();
      var es := Pop();
      var fs := Pop();
      var gs := Pop();
      var ss := Pop();
      r := r.(ds := ds, es := es, fs := fs, gs := gs, ss := ss);
    }

    method PopGeneral()
      requires r.esp + 8 <= mem.Length
      modifies `r
      ensures var t := old(r).esp;
              r == old(r).(esp := t + 8, eax := mem[t], ebx := mem[t + 1], ecx := mem[t + 2], edx := mem[t + 3],
                           ebp := mem[t + 5], esi := mem[t + 6], edi := mem[t + 7])
    {
      var eax := Pop();
      var ebx := Pop();
      var ecx := Pop();
      var edx := Pop();
      r := r.(esp := r.esp + 1);
      var ebp := Pop();
      var esi := Pop();
      var edi := Pop();
      r := r.(eax := eax, ebx := ebx, ecx := ecx, edx := edx, ebp := ebp, esi := esi, edi := edi);
    }

    method Iret()
      requires r.esp + 3 <= mem.Length
      modifies `r
      ensures var t := old(r).esp;
              r == old(r).(esp := t + 3, eip := mem[t], cs := mem[t + 1], eflags := mem[t + 2])
    {
      var eip := Pop();
      var cs := Pop();
      var eflags := Pop();
      r := r.(eip := eip, cs := cs, eflags := eflags);
    }

    /** Lines 31-51: switch to the stack that `sys_call` returned, pop, `iret`. */
    method Leave(top: nat)
      requires top + FRAME <= mem.Length
      modifies `r
      ensures r == Loaded(mem[..], top)
      ensures r.esp == top + 16
      ensures r.ds == mem[top] && r.es == mem[top + 1] && r.fs == mem[top + 2] && r.gs == mem[top + 3]
      ensures r.ss == mem[top + 4] && r.eax == mem[top + 5] && r.ebx == mem[top + 6] && r.ecx == mem[top + 7]
      ensures r.edx == mem[top + 8] && r.ebp == mem[top + 10] && r.esi == mem[top + 11] && r.edi == mem[top + 12]
      ensures r.eip == mem[top + 13] && r.cs == mem[top + 14] && r.eflags == mem[top + 15]
    {
      r := r.(esp := top);
      PopSegments();
      PopGeneral();
      Iret();
    }
  
    /** `memset(context, 0, sizeof(struct context))`. */
    method ZeroFrame(top: nat)
      requires top + FRAME <= mem.Length
      modifies mem
      ensures forall k :: 0 <= k < mem.Length ==> mem[k] == if top <= k < top + FRAME then 0 else old(mem[k])
    {
      var i := 0;
      while i < FRAME
        invariant 0 <= i <= FRAME
        invariant forall k :: 0 <= k < mem.Length ==> mem[k] == if top <= k < top + i then 0 else old(mem[k])
      {
        mem[top + i] := 0;
        i := i + 1;
      }
    }

    /** kernel/kmain.c:89-100: the first context of a process whose stack is at
        `stack` and whose code is at `entry`. */
    method Prepare(top: nat, stack: int, entry: int)
      requires top + FRAME <= mem.Length
      modifies mem
      ensures Loaded(mem[..], top) == FirstRegs(top, stack, entry)
      ensures mem[top + 13] == entry && mem[top + 10] == stack && mem[top + 14] == 0x08 && mem[top + 15] == 0x0202
      ensures forall k :: top <= k < top + 5 ==> mem[k] == 0x10
      ensures forall k :: top + 5 <= k < top + 13 && k != top + 9 && k != top + 10 ==> mem[k] == 0
      ensures forall k :: 0 <= k < mem.Length && !(top <= k < top + FRAME) ==> mem[k] == old(mem[k])
    {
      ZeroFrame(top);
      PutSelectors(top);
      PutPointers(top, stack, entry);
    }

    method PutSelectors(top: nat)
      requires top + FRAME <= mem.Length
      modifies mem
      ensures forall k :: 0 <= k < mem.Length ==>
                mem[k] == if k == top + 14 then 0x08 else if top <= k < top + 5 then 0x10 else old(mem[k])
    {
      mem[top + 14] := 0x08;
      mem[top], mem[top + 1], mem[top + 2], mem[top + 3], mem[top + 4] := 0x10, 0x10, 0x10, 0x10, 0x10;
    }

    method PutPointers(top: nat, stack: int, entry: int)
      requires top + FRAME <= mem.Length
      modifies mem
      ensures mem[top + 10] == stack && mem[top + 9] == top && mem[top + 13] == entry && mem[top + 15] == 0x0202
      ensures forall k :: 0 <= k < mem.Length && k !in {top + 9, top + 10, top + 13, top + 15} ==> mem[k] == old(mem[k])
    {
      mem[top + 10] := stack;
      mem[top + 9] := top;
      mem[top + 13] := entry;
      mem[top + 15] := 0x0202;
    }
  }

  /** The registers with which a new process starts. */
  function FirstRegs(top: nat, stack: int, entry: int): Regs {
    Regs(0x10, 0x10, 0x10, 0x10, 0x10, 0, 0, 0, 0, top + FRAME, stack, 0, 0, entry, 0x08, 0x0202)
  }
}
