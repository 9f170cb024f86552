/** The part of classic BPF (the Linux socket-filter machine) that the
    installed filter uses: 32-bit absolute loads, including the ancillary
    loads at SKF_AD_OFF, conditional jumps against a constant, and returns
    of a constant. */
module Bpf {
  import opened Options
  import opened Bytes
  import opened Frames

  /** `struct sock_filter`. */
  datatype Insn = Insn(code: u16, jt: byte, jf: byte, k: u32)

  /** Instruction classes: the low three bits of the opcode. */
  const BPF_LD: u16 := 0x00
  const BPF_JMP: u16 := 0x05
  const BPF_RET: u16 := 0x06

  /** The opcodes used: BPF_LD|BPF_W|BPF_ABS, BPF_JMP|{BPF_JEQ,BPF_JGT,BPF_JGE}|BPF_K
      and BPF_RET|BPF_K. */
  const LD_W_ABS: u16 := 0x20
  const JEQ_K: u16 := 0x15
  const JGT_K: u16 := 0x25
  const JGE_K: u16 := 0x35
  const RET_K: u16 := 0x06

  /** `BPF_CLASS(code)` */
  function Class(code: u16): u16
  {
    code % 8
  }

  /** SKF_AD_OFF (-0x1000) as the unsigned `k` of a load, and the ancillary
      fields relative to it. */
  const SKF_AD_OFF: u32 := 0xFFFF_F000
  const SKF_AD_PROTOCOL: u32 := 0
  const SKF_AD_PKTTYPE: u32 := 4
  const SKF_AD_IFINDEX: u32 := 8

  /** Offsets of the address fields in `struct iphdr`. */
  const IP_SADDR: u32 := 12
  const IP_DADDR: u32 := 16

  /** The word a 32-bit absolute load with constant `k` reads: an ancillary
      field, or four bytes of the frame in network order; None when the
      bytes lie outside the frame. */
  function Load(fr: Frame, k: u32): (r: Option<u32>)
    ensures k + 4 <= |fr.data| && k < SKF_AD_OFF ==> r == Some(ReadBE32(fr.data, k))
    ensures k < SKF_AD_OFF && |fr.data| < k + 4 ==> r.None?
  {
    if k == SKF_AD_OFF + SKF_AD_PROTOCOL then Some(fr.protocol)
    else if k == SKF_AD_OFF + SKF_AD_PKTTYPE then Some(fr.pkttype)
    else if k == SKF_AD_OFF + SKF_AD_IFINDEX then Some(fr.ifindex)
    else if k < SKF_AD_OFF && k + 4 <= |fr.data| then Some(ReadBE32(fr.data, k))
    else None
  }

  /** The outcome of running a filter: the number of bytes to keep
      (0 drops the frame), or a program the kernel would not accept. */
  datatype Verdict = Returned(n: u32) | Invalid

  /** Whether the jump `insn` is taken with accumulator `a`. */
  predicate Taken(insn: Insn, a: u32)
    requires insn.code == JEQ_K || insn.code == JGT_K || insn.code == JGE_K
  {
    if insn.code == JEQ_K then a == insn.k
    else if insn.code == JGT_K then a > insn.k
    else a >= insn.k
  }

  /** Run `prog` from instruction `pc` with accumulator `acc`. A load
      outside the frame ends the run with 0, as the kernel does; jumps only
      go forward, so the run ends. A non-zero verdict is always the constant
      of some return instruction at or after `pc`. */
  function Exec(prog: seq<Insn>, pc: nat, acc: u32, fr: Frame): (r: Verdict)
    ensures r.Returned? && r.n != 0 ==>
      exists i :: pc <= i < |prog| && prog[i].code == RET_K && prog[i].k == r.n
    decreases |prog| - pc
  {
    if pc >= |prog| then Invalid
    else
      var insn := prog[pc];
      if insn.code == LD_W_ABS then
        match Load(fr, insn.k)
        case None => Returned(0)
        case Some(v) => Exec(prog, pc + 1, v, fr)
      else if insn.code == JEQ_K || insn.code == JGT_K || insn.code == JGE_K then
        Exec(prog, pc + 1 + (if Taken(insn, acc) then insn.jt else insn.jf), acc, fr)
      else if insn.code == RET_K then Returned(insn.k)
      else Invalid
  }

  predicate IsJump(code: u16)
  {
    code == JEQ_K || code == JGT_K || code == JGE_K
  }

  /** A program the kernel's filter checker accepts, as far as the used
      opcodes go: only known instructions, every jump lands inside the
      program, and the last instruction returns. */
  predicate WellFormed(prog: seq<Insn>)
  {
    |prog| > 0 && prog[|prog| - 1].code == RET_K
    && forall i :: 0 <= i < |prog| ==>
      prog[i].code == LD_W_ABS || prog[i].code == RET_K
      || (IsJump(prog[i].code) && i + 1 + prog[i].jt < |prog| && i + 1 + prog[i].jf < |prog|)
  }

  /** A well-formed program always returns a verdict. */
  lemma {:induction false} WellFormedReturns(prog: seq<Insn>, pc: nat, acc: u32, fr: Frame)
    requires WellFormed(prog) && pc < |prog|
    ensures Exec(prog, pc, acc, fr).Returned?
    decreases |prog| - pc
  {
    var insn := prog[pc];
    if insn.code == LD_W_ABS {
      if Load(fr, insn.k).Some? {
        WellFormedReturns(prog, pc + 1, Load(fr, insn.k).value, fr);
      }
    } else if IsJump(insn.code) {
      WellFormedReturns(prog, pc + 1 + (if Taken(insn, acc) then insn.jt else insn.jf), acc, fr);
    }
  }
}
