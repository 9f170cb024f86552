/** The label assembler that produces the socket filter
    (nhrp/sysdep_pfpacket.c:32-90, 175-183).

    Instructions are appended to a buffer of MAX_OPCODES slots; an append
    past the last slot writes nothing but is still counted, so the builder
    can detect the overflow afterwards. Jump targets are labels until the
    fixup pass. The three smallest labels are literal offsets (fall through,
    skip one, skip two) and are never resolved; the others are resolved to
    the offset of the position a `mark` recorded for them. */
module FilterAssembler {
  import opened Options
  import opened Bytes
  import opened Bpf

  const MAX_OPCODES: nat := 100

  const LABEL_NEXT: byte := 0
  const LABEL_SKIP1: byte := 1
  const LABEL_SKIPN: byte := 2
  const LABEL_DROP: byte := 3
  const LABEL_ACCEPT: byte := 4
  const LABEL_IF_OK: byte := 5
  const LABEL_NOT_IPV4: byte := 6
  const NUM_LABELS: nat := 7

  type Label = l: byte | l < NUM_LABELS

  /** `struct filter`: the marked label positions, the number of
      instructions emitted and the slots actually written. */
  datatype Filter = Filter(pos: seq<nat>, numops: nat, code: seq<Insn>)

  function Min(a: nat, b: nat): nat
  {
    if a < b then a else b
  }

  /** Every jump names a label in both of its targets. */
  predicate Labelled(code: seq<Insn>)
  {
    forall i :: 0 <= i < |code| && Class(code[i].code) == BPF_JMP ==>
      code[i].jt < NUM_LABELS && code[i].jf < NUM_LABELS
  }

  /** The shape every filter state keeps: one position per label, and
      exactly the first MAX_OPCODES emitted instructions written. */
  predicate Valid(f: Filter)
  {
    |f.pos| == NUM_LABELS && |f.code| == Min(f.numops, MAX_OPCODES) && Labelled(f.code)
  }

  /** The zeroed filter the builder starts from. */
  function Empty(): (r: Filter)
    ensures Valid(r) && r.numops == 0 && r.code == []
    ensures forall l :: 0 <= l < NUM_LABELS ==> r.pos[l] == 0
  {
    Filter(seq(NUM_LABELS, _ => 0), 0, [])
  }

  /** Count one more instruction, storing it only if a slot is left. */
  function Emit(f: Filter, insn: Insn): (r: Filter)
    requires Valid(f)
    requires Class(insn.code) == BPF_JMP ==> insn.jt < NUM_LABELS && insn.jf < NUM_LABELS
    ensures Valid(r)
    ensures r.numops == f.numops + 1 && r.pos == f.pos
    ensures r.code[..|f.code|] == f.code
    ensures f.numops < MAX_OPCODES <==> |r.code| == |f.code| + 1
    ensures f.numops < MAX_OPCODES ==> r.code[f.numops] == insn
  {
    Filter(f.pos, f.numops + 1, if f.numops < MAX_OPCODES then f.code + [insn] else f.code)
  }

  /** `emit_stmt`: a non-jump instruction, with both targets 0. */
  function EmitStmt(f: Filter, code: u16, k: u32): (r: Filter)
    requires Valid(f) && Class(code) != BPF_JMP
    ensures Valid(r)
    ensures r.numops == f.numops + 1 && r.pos == f.pos
    ensures r.code[..|f.code|] == f.code
    ensures f.numops < MAX_OPCODES <==> |r.code| == |f.code| + 1
    ensures f.numops < MAX_OPCODES ==> r.code[f.numops] == Insn(code, 0, 0, k)
  {
    Emit(f, Insn(code, 0, 0, k))
  }

  /** `emit_jump`: a jump whose targets are labels. */
  function EmitJump(f: Filter, code: u16, k: u32, jt: Label, jf: Label): (r: Filter)
    requires Valid(f)
    ensures Valid(r)
    ensures r.numops == f.numops + 1 && r.pos == f.pos
    ensures r.code[..|f.code|] == f.code
    ensures f.numops < MAX_OPCODES <==> |r.code| == |f.code| + 1
    ensures f.numops < MAX_OPCODES ==> r.code[f.numops] == Insn(code, jt, jf, k)
  {
    Emit(f, Insn(code, jt, jf, k))
  }

  /** `patch_jump`: send the fall-through targets of the last instruction
      to `target`. Refused, with nothing changed, when that instruction is
      not a jump. The source reads `code[numops - 1]` unguarded; the
      precondition states when that slot exists. */
  function PatchJump(f: Filter, target: Label): (r: Option<Filter>)
    requires Valid(f) && 0 < f.numops <= MAX_OPCODES
    ensures r.Some? <==> Class(f.code[f.numops - 1].code) == BPF_JMP
    ensures r.Some? ==> Valid(r.value)
    ensures r.Some? ==> r.value.pos == f.pos && r.value.numops == f.numops
    ensures r.Some? ==> |r.value.code| == |f.code| && r.value.code[..f.numops - 1] == f.code[..f.numops - 1]
    ensures r.Some? ==>
      var before := f.code[f.numops - 1];
      var after := r.value.code[f.numops - 1];
      after.code == before.code && after.k == before.k
      && after.jt == (if before.jt == LABEL_NEXT then target else before.jt)
      && after.jf == (if before.jf == LABEL_NEXT then target else before.jf)
  {
    var last := f.code[f.numops - 1];
    if Class(last.code) != BPF_JMP then None
    else
      var jf := if last.jf == LABEL_NEXT then target else last.jf;
      var jt := if last.jt == LABEL_NEXT then target else last.jt;
      Some(f.(code := f.code[f.numops - 1 := last.(jt := jt, jf := jf)]))
  }

  /** `mark`: the label now stands for the next instruction to be emitted. */
  function Mark(f: Filter, target: Label): (r: Filter)
    requires Valid(f)
    ensures Valid(r)
    ensures r.pos[target] == f.numops
    ensures forall l :: 0 <= l < NUM_LABELS && l != target as int ==> r.pos[l] == f.pos[l]
    ensures r.numops == f.numops && r.code == f.code
  {
    f.(pos := f.pos[target := f.numops])
  }

  /** The target byte of instruction `i` after fixup: a literal offset is
      kept, a label becomes the distance to its position, stored into an
      8-bit field. */
  function Retarget(l: byte, pos: seq<nat>, i: nat): (r: byte)
    requires |pos| == NUM_LABELS && l < NUM_LABELS
    ensures l <= LABEL_SKIPN ==> r == l
    ensures l > LABEL_SKIPN && i < pos[l] <= i + 0x100 ==> i + 1 + r == pos[l]
  {
    if l > LABEL_SKIPN then (pos[l] - i - 1) % 0x100 else l
  }

  /** Instruction `i` after fixup. */
  function ResolveInsn(insn: Insn, pos: seq<nat>, i: nat): (r: Insn)
    requires |pos| == NUM_LABELS
    requires Class(insn.code) == BPF_JMP ==> insn.jt < NUM_LABELS && insn.jf < NUM_LABELS
    ensures r.code == insn.code && r.k == insn.k
    ensures Class(insn.code) != BPF_JMP ==> r == insn
    ensures Class(insn.code) == BPF_JMP && insn.jt > LABEL_SKIPN && i < pos[insn.jt] <= i + 0x100
      ==> i + 1 + r.jt == pos[insn.jt]
    ensures Class(insn.code) == BPF_JMP && insn.jf > LABEL_SKIPN && i < pos[insn.jf] <= i + 0x100
      ==> i + 1 + r.jf == pos[insn.jf]
  {
    if Class(insn.code) == BPF_JMP then
      insn.(jt := Retarget(insn.jt, pos, i), jf := Retarget(insn.jf, pos, i))
    else insn
  }

  /** The program the fixup loop leaves in the buffer: same instructions,
      with every label target turned into a relative offset. */
  function Resolved(f: Filter): (r: seq<Insn>)
    requires Valid(f) && f.numops < MAX_OPCODES
    ensures |r| == f.numops
    ensures forall i :: 0 <= i < |r| ==> r[i].code == f.code[i].code && r[i].k == f.code[i].k
    ensures forall i :: 0 <= i < |r| && Class(f.code[i].code) != BPF_JMP ==> r[i] == f.code[i]
  {
    seq(|f.code|, i requires 0 <= i < |f.code| => ResolveInsn(f.code[i], f.pos, i))
  }

  /** The fixup loop (nhrp/sysdep_pfpacket.c:176-183), rewriting the buffer
      in place, one instruction per iteration. */
  method FixupJumps(f: Filter) returns (prog: seq<Insn>)
    requires Valid(f) && f.numops < MAX_OPCODES
    ensures prog == Resolved(f)
  {
    ghost var want := Resolved(f);
    prog := f.code;
    var i := 0;
    while i < f.numops
      invariant 0 <= i <= f.numops == |prog|
      invariant forall j :: 0 <= j < i ==> prog[j] == want[j]
      invariant forall j :: i <= j < |prog| ==> prog[j] == f.code[j]
    {
      var insn := prog[i];
      if Class(insn.code) == BPF_JMP {
        var jt, jf := insn.jt, insn.jf;
        if jt > LABEL_SKIPN {
          jt := (f.pos[jt] - i - 1) % 0x100;
        }
        if jf > LABEL_SKIPN {
          jf := (f.pos[jf] - i - 1) % 0x100;
        }
        prog := prog[i := insn.(jt := jt, jf := jf)];
      }
      i := i + 1;
    }
  }
}
