/** What assembled code does when the CPU runs it: Li and La load their value, branches and
    jumps reach their labels (src/assembler.rs, src/cpu/mod.rs). */
module PseudoInstructions {
  import opened Arithmetic
  import opened Memory
  import opened LoadStore
  import opened MachineCode
  import opened Assembler
  import opened CodeGeneration
  import opened MachineImage

  // ---- Bitwise or ----

  function BitOr(a: nat, b: nat): nat
    decreases a + b
  {
    if a == 0 && b == 0 then 0 else BitOr(a / 2, b / 2) * 2 + (if a % 2 == 1 || b % 2 == 1 then 1 else 0)
  }

  lemma {:induction false} OrZero(a: nat)
    ensures BitOr(a, 0) == a
  {
    if a > 0 {
      OrZero(a / 2);
    }
  }

  lemma {:induction false} OrZeroLeft(a: nat)
    ensures BitOr(0, a) == a
  {
    if a > 0 {
      OrZeroLeft(a / 2);
    }
  }

  function ShiftLeft(h: nat, k: nat): nat {
    if k == 0 then h else 2 * ShiftLeft(h, k - 1)
  }

  lemma OrOfEven(x: nat, l: nat)
    ensures BitOr(2 * x, l) == 2 * BitOr(x, l / 2) + l % 2
  {
    DivModUnique(2 * x, 2, x, 0);
  }

  /** Without bits in common, or is addition. */
  lemma {:induction false} OrIsSum(h: nat, l: nat, k: nat)
    requires l < Pow2(k)
    ensures BitOr(ShiftLeft(h, k), l) == ShiftLeft(h, k) + l
  {
    if k == 0 {
      OrZero(h);
    } else {
      OrIsSum(h, l / 2, k - 1);
      OrOfEven(ShiftLeft(h, k - 1), l);
    }
  }

  lemma {:induction false} ShiftLeftProduct(h: nat, k: nat)
    ensures ShiftLeft(h, k) == h * Pow2(k)
  {
    if k > 0 {
      ShiftLeftProduct(h, k - 1);
      Doubled(h, Pow2(k - 1));
    }
  }

  lemma Doubled(h: nat, p: nat)
    ensures 2 * (h * p) == h * (2 * p)
  {
  }

  lemma OrHalves(h: nat, l: nat)
    requires l < 0x1_0000
    ensures BitOr(0x1_0000 * h, l) == 0x1_0000 * h + l
  {
    Pow2Of16();
    ShiftLeftProduct(h, 16);
    OrIsSum(h, l, 16);
  }

  lemma Pow2Of16()
    ensures Pow2(16) == 0x1_0000
  {
    assert Pow2(8) == 0x100;
  }

  // ---- Execution ----

  /** The instructions that Li, La, Move and Nop expand to. They read their operands before the
      pending load is done and write their result after it. */
  predicate CanRun(c: Code) {
    || c.Lui?
    || (c.Immediate? && c.immediateOp.Ori?)
    || (c.Alu? && c.aluOp.Addu?)
    || (c.Shift? && c.shiftOp.Sll?)
  }

  /** The 32 bit sum of two values. */
  function Sum32(x: nat, y: nat): nat {
    if x + y < 0x1_0000_0000 then x + y else x + y - 0x1_0000_0000
  }

  function ShiftLeft32(x: nat, k: nat): nat {
    if k == 0 then x else Sum32(ShiftLeft32(x, k - 1), ShiftLeft32(x, k - 1))
  }

  /** A result is written after the pending load. */
  function Write(cpu: Cpu, r: Reg, w: Word): (after: Cpu)
    requires cpu.Valid()
    ensures after.Valid()
  {
    cpu.DelayedLoad().SetReg(r, w)
  }

  function RunCode(cpu: Cpu, c: Code): (r: Cpu)
    requires cpu.Valid() && CanRun(c)
    ensures r.Valid()
  {
    match c
    case Lui(t, imm) => Write(cpu, t, ToWord(0x1_0000 * imm))
    case Immediate(_, t, s, imm) => Write(cpu, t, ToWord(BitOr(cpu.regs[s].Value(), imm)))
    case Alu(_, d, s, t) => Write(cpu, d, ToWord(Sum32(cpu.regs[s].Value(), cpu.regs[t].Value())))
    case Shift(_, d, t, shift) => Write(cpu, d, ToWord(ShiftLeft32(cpu.regs[t].Value(), shift)))
  }

  function RunAll(cpu: Cpu, codes: seq<Code>): (r: Cpu)
    requires cpu.Valid() && forall c :: c in codes ==> CanRun(c)
    ensures r.Valid()
    decreases |codes|
  {
    if codes == [] then cpu else RunAll(RunCode(cpu, codes[0]), codes[1..])
  }

  lemma ValueOfToWord(v: nat)
    requires v < 0x1_0000_0000
    ensures ToWord(v).Value() == v
  {
    var q1, q2, q3 := v / 0x100, v / 0x1_0000, v / 0x100_0000;
    DivDiv(v, 0x100, 0x100);
    DivDiv(v, 0x1_0000, 0x100);
    assert v == 0x100 * q1 + v % 0x100;
    assert q1 == 0x100 * q2 + q1 % 0x100;
    assert q2 == 0x100 * q3 + q2 % 0x100;
    DivModUnique(q3, 0x100, 0, q3);
  }

  /** `v` is in the register, and everything else is as if only the pending load had been
      done. */
  ghost predicate Loaded(before: Cpu, after: Cpu, r: Reg, v: nat)
    requires before.Valid() && after.Valid()
  {
    && after.regs[r].Value() == v && after.loadReg == 0 && after.mem == before.mem
    && forall x :: 0 <= x < 32 && x != r ==> after.regs[x] == before.Settled(x)
  }

  lemma WriteLoads(cpu: Cpu, r: Reg, w: Word)
    requires cpu.Valid() && r != 0
    ensures Loaded(cpu, Write(cpu, r, w), r, w.Value())
  {
  }

  lemma RunLui(cpu: Cpu, r: Reg, imm: Bits16)
    requires cpu.Valid() && r != 0
    ensures Loaded(cpu, RunCode(cpu, Lui(r, imm)), r, 0x1_0000 * imm)
  {
    ValueOfToWord(0x1_0000 * imm);
    WriteLoads(cpu, r, ToWord(0x1_0000 * imm));
  }

  /** A second write to the same register replaces the first. */
  lemma WriteAgain(before: Cpu, cpu: Cpu, r: Reg, v: nat, w: Word)
    requires before.Valid() && cpu.Valid() && r != 0 && Loaded(before, cpu, r, v)
    ensures Loaded(before, Write(cpu, r, w), r, w.Value())
  {
  }

  /** Or into a register that was just loaded does not see the load pending before. */
  lemma RunOri(before: Cpu, cpu: Cpu, r: Reg, h: Bits16, l: Bits16)
    requires before.Valid() && cpu.Valid() && r != 0 && Loaded(before, cpu, r, 0x1_0000 * h)
    ensures Loaded(before, RunCode(cpu, Immediate(Ori, r, r, l)), r, 0x1_0000 * h + l)
  {
    OrHalves(h, l);
    ValueOfToWord(0x1_0000 * h + l);
    WriteAgain(before, cpu, r, 0x1_0000 * h, ToWord(0x1_0000 * h + l));
  }

  lemma RunOriValue(cpu: Cpu, r: Reg, s: Reg, l: Bits16, v: nat)
    requires cpu.Valid() && r != 0 && BitOr(cpu.regs[s].Value(), l) == v < 0x1_0000_0000
    ensures Loaded(cpu, RunCode(cpu, Immediate(Ori, r, s, l)), r, v)
  {
    ValueOfToWord(v);
    WriteLoads(cpu, r, ToWord(v));
  }

  lemma OrOfZero(w: Word, l: nat)
    requires w == ZERO
    ensures BitOr(w.Value(), l) == l
  {
    OrZeroLeft(l);
  }

  /** Running the instructions loads `v`, whatever load is pending. */
  ghost predicate Loads(cpu: Cpu, codes: seq<Code>, r: Reg, v: nat)
    requires cpu.Valid()
  {
    (forall c :: c in codes ==> CanRun(c)) && Loaded(cpu, RunAll(cpu, codes), r, v)
  }

  lemma OneLoads(cpu: Cpu, a: Code, r: Reg, v: nat)
    requires cpu.Valid() && CanRun(a) && Loaded(cpu, RunCode(cpu, a), r, v)
    ensures Loads(cpu, [a], r, v)
  {
    assert [a][1..] == [];
  }

  lemma TwoLoad(cpu: Cpu, a: Code, b: Code, r: Reg, v: nat)
    requires cpu.Valid() && CanRun(a) && CanRun(b) && Loaded(cpu, RunCode(RunCode(cpu, a), b), r, v)
    ensures Loads(cpu, [a, b], r, v)
  {
    assert [a, b][1..] == [b] && [b][1..] == [];
    assert RunAll(RunCode(cpu, a), [b]) == RunAll(RunCode(RunCode(cpu, a), b), []);
  }

  lemma RunPair(cpu: Cpu, r: Reg, v: Address)
    requires cpu.Valid() && r != 0
    ensures Loads(cpu, [LoadHigh(r, v), OrLow(r, r, v)], r, v)
  {
    var a, b := LoadHigh(r, v), OrLow(r, r, v);
    RunLui(cpu, r, v / 0x1_0000);
    RunOri(cpu, RunCode(cpu, a), r, v / 0x1_0000, v % 0x1_0000);
    TwoLoad(cpu, a, b, r, v);
  }

  lemma RunLow(cpu: Cpu, r: Reg, s: Reg, v: Address, l: Bits16)
    requires cpu.Valid() && r != 0 && BitOr(cpu.regs[s].Value(), l) == v
    ensures Loads(cpu, [Immediate(Ori, r, s, l)], r, v)
  {
    RunOriValue(cpu, r, s, l, v);
    OneLoads(cpu, Immediate(Ori, r, s, l), r, v);
  }

  lemma OrOfR0(cpu: Cpu, l: nat)
    requires cpu.Valid()
    ensures BitOr(cpu.regs[0].Value(), l) == l
  {
    OrOfZero(cpu.regs[0], l);
  }

  lemma RunOriR0(cpu: Cpu, r: Reg, v: Address, c: Code, l: Bits16)
    requires cpu.Valid() && r != 0 && v == l && c == Immediate(Ori, r, 0, l)
    ensures Loads(cpu, [c], r, v)
  {
    OrOfR0(cpu, l);
    RunLow(cpu, r, 0, v, l);
  }

  lemma RunSmall(cpu: Cpu, r: Reg, v: Address)
    requires cpu.Valid() && r != 0 && v / 0x1_0000 == 0
    ensures Loads(cpu, [OrLow(r, 0, v)], r, v)
  {
    RunOriR0(cpu, r, v, OrLow(r, 0, v), v % 0x1_0000);
  }

  lemma RunHigh(cpu: Cpu, r: Reg, v: Address)
    requires cpu.Valid() && r != 0 && v % 0x1_0000 == 0
    ensures Loads(cpu, [LoadHigh(r, v)], r, v)
  {
    RunLui(cpu, r, v / 0x1_0000);
    OneLoads(cpu, LoadHigh(r, v), r, v);
  }

  lemma LiCodesLoad(cpu: Cpu, r: Reg, v: Address)
    requires cpu.Valid() && r != 0
    ensures Loads(cpu, LiCodes(r, v), r, v)
  {
    if v / 0x1_0000 == 0 {
      RunSmall(cpu, r, v);
    } else if v % 0x1_0000 == 0 {
      RunHigh(cpu, r, v);
    } else {
      RunPair(cpu, r, v);
    }
  }

  lemma ExpandLi(r: Reg, v: Address, here: nat, there: nat)
    ensures Expand(Li(r, v), here, there) == LiCodes(r, v)
  {
  }

  /** Running what Li expands to, in one or two instructions, leaves the value in the register
      whatever load is pending, one to the same register included. */
  lemma LiLoads(cpu: Cpu, r: Reg, v: Address, here: nat, there: nat, codes: seq<Code>)
    requires cpu.Valid() && r != 0 && codes == Expand(Li(r, v), here, there)
    ensures Loads(cpu, codes, r, v)
  {
    ExpandLi(r, v, here, there);
    LiCodesLoad(cpu, r, v);
  }

  /** Running what La expands to leaves the address of the label. */
  lemma LaLoads(cpu: Cpu, r: Reg, target: Label, here: nat, there: nat)
    requires cpu.Valid() && r != 0 && there < ADDRESSES
    ensures Loads(cpu, Expand(La(r, target), here, there), r, there)
  {
    DivModUnique(there, ADDRESSES, 0, there);
    RunPair(cpu, r, there);
  }

  lemma PlusZero(x: nat, y: nat)
    requires y == 0 && x < 0x1_0000_0000
    ensures Sum32(x, y) == x
  {
  }

  lemma ValueFits(w: Word)
    ensures w.Value() < 0x1_0000_0000
  {
  }

  lemma ZeroValue(z: Word)
    requires z == ZERO
    ensures z.Value() == 0
  {
  }

  lemma SumWithZero(w: Word, z: Word)
    requires z.Value() == 0
    ensures Sum32(w.Value(), z.Value()) == w.Value() < 0x1_0000_0000
  {
    ValueFits(w);
    PlusZero(w.Value(), z.Value());
  }

  lemma AddR0(cpu: Cpu, s: Reg)
    requires cpu.Valid()
    ensures Sum32(cpu.regs[s].Value(), cpu.regs[0].Value()) == cpu.regs[s].Value() < 0x1_0000_0000
  {
    ZeroValue(cpu.regs[0]);
    SumWithZero(cpu.regs[s], cpu.regs[0]);
  }

  lemma RunAddValue(cpu: Cpu, d: Reg, s: Reg, z: Reg, v: nat)
    requires cpu.Valid() && d != 0 && Sum32(cpu.regs[s].Value(), cpu.regs[z].Value()) == v < 0x1_0000_0000
    ensures Loaded(cpu, RunCode(cpu, Alu(Addu, d, s, z)), d, v)
  {
    ValueOfToWord(v);
    WriteLoads(cpu, d, ToWord(v));
  }

  lemma RunMove(cpu: Cpu, d: Reg, s: Reg, c: Code, v: nat)
    requires cpu.Valid() && d != 0 && c == Alu(Addu, d, s, 0) && v == cpu.regs[s].Value()
    ensures Loads(cpu, [c], d, v)
  {
    AddR0(cpu, s);
    RunAddValue(cpu, d, s, 0, v);
    OneLoads(cpu, c, d, v);
  }

  lemma ExpandSimple(d: Reg, s: Reg, here: nat, there: nat)
    ensures Expand(Move(d, s), here, there) == [Alu(Addu, d, s, 0)]
    ensures Expand(Instruction.Nop, here, there) == [Shift(Sll, 0, 0, 0)]
  {
  }

  /** Move copies the register as it was before the pending load. */
  lemma MoveCopies(cpu: Cpu, d: Reg, s: Reg, here: nat, there: nat, codes: seq<Code>)
    requires cpu.Valid() && d != 0 && codes == Expand(Move(d, s), here, there)
    ensures Loads(cpu, codes, d, cpu.regs[s].Value())
  {
    ExpandSimple(d, s, here, there);
    RunMove(cpu, d, s, codes[0], cpu.regs[s].Value());
  }

  lemma RunToR0(cpu: Cpu, c: Code, t: Reg, shift: Bits5)
    requires cpu.Valid() && c == Shift(Sll, 0, t, shift)
    ensures RunCode(cpu, c) == cpu.DelayedLoad()
  {
    R0StaysZero(cpu.DelayedLoad(), ToWord(ShiftLeft32(cpu.regs[t].Value(), shift)));
  }

  /** The one instruction does nothing but the pending load. */
  ghost predicate Waits(cpu: Cpu, codes: seq<Code>)
    requires cpu.Valid()
  {
    |codes| == 1 && CanRun(codes[0]) && RunCode(cpu, codes[0]) == cpu.DelayedLoad()
  }

  lemma OneWaits(cpu: Cpu, c: Code, t: Reg, shift: Bits5)
    requires cpu.Valid() && c == Shift(Sll, 0, t, shift)
    ensures Waits(cpu, [c])
  {
    RunToR0(cpu, c, t, shift);
  }

  /** Nop does nothing but the pending load. */
  lemma NopWaits(cpu: Cpu, here: nat, there: nat, codes: seq<Code>)
    requires cpu.Valid() && codes == Expand(Instruction.Nop, here, there)
    ensures Waits(cpu, codes)
  {
    ExpandSimple(0, 0, here, there);
    OneWaits(cpu, Shift(Sll, 0, 0, 0), 0, 0);
  }

  lemma R0StaysZero(cpu: Cpu, w: Word)
    requires cpu.Valid()
    ensures cpu.SetReg(0, w) == cpu
  {
    assert cpu.regs[0 := w][0 := ZERO] == cpu.regs;
  }

  /** Whether the CPU takes a branch that compares two registers. */
  predicate Taken(cpu: Cpu, op: BranchOp)
    requires cpu.Valid() && (op.Beq? || op.Bne?)
  {
    (cpu.regs[op.s] == cpu.regs[op.t]) == op.Beq?
  }

  /** B is always taken, Beqz on zero and Bnez on anything else. */
  lemma BranchPseudos(cpu: Cpu, r: Reg, target: Label, here: nat, there: nat)
    requires cpu.Valid()
    ensures Expand(B(target), here, there) == [BranchCode(Beq(0, 0), here, there)] && Taken(cpu, Beq(0, 0))
    ensures Expand(Beqz(r, target), here, there) == [BranchCode(Beq(r, 0), here, there)]
    ensures Expand(Bnez(r, target), here, there) == [BranchCode(Bne(r, 0), here, there)]
    ensures Taken(cpu, Beq(r, 0)) <==> cpu.regs[r].Value() == 0
    ensures Taken(cpu, Bne(r, 0)) <==> cpu.regs[r].Value() != 0
  {
  }

  // ---- Branches and jumps of a program ----

  /** The image holds a branch at `here` that, taken, goes to `there` if and only if that is
      in range of the delay slot. */
  ghost predicate BranchesTo(image: seq<Byte>, start: nat, here: nat, there: Address, op: BranchOp) {
    var pc := ToAddress(here + 4);
    var imm := BranchImm(pc, there);
    && DecodesAt(image, start, here, Branch(op, imm))
    && (BranchTo(pc, imm) == there <==> InBranchRange(Distance(pc, there)))
  }

  lemma BranchFound(image: seq<Byte>, start: nat, here: nat, there: nat, op: BranchOp)
    requires ReadsAs(image, start, here, [BranchCode(op, here, there)])
    ensures BranchesTo(image, start, here, ToAddress(there), op)
  {
    var a, pc := ToAddress(there), ToAddress(here + 4);
    FirstOf(image, start, here, [BranchCode(op, here, there)], Branch(op, BranchImm(pc, a)));
    BranchArrives(pc, a);
  }

  /** The branch that an instruction stands for. */
  function BranchOf(i: Instruction): BranchOp
    requires i.BranchIf? || i.B? || i.Beqz? || i.Bnez?
  {
    match i
    case BranchIf(op, _) => op
    case B(_) => Beq(0, 0)
    case Beqz(r, _) => Beq(r, 0)
    case Bnez(r, _) => Bne(r, 0)
  }

  /** In an assembled program a branch, taken, goes to the address of its label, if and only if
      that is in range of the delay slot. */
  lemma BranchReachesLabel(start: Address, prog: Program, globals: map<string, nat>, image: seq<Byte>, i: nat)
    requires i < |prog| && Assemble(Emit, start, prog, globals) == Ok(image)
    requires prog[i].BranchIf? || prog[i].B? || prog[i].Beqz? || prog[i].Bnez?
    ensures TargetOf(start, prog, globals, i).Ok?
    ensures BranchesTo(image, start, Loc(start, prog, i), ToAddress(TargetOf(start, prog, globals, i).value),
                       BranchOf(prog[i]))
  {
    ProgramReadsBack(start, prog, globals, image, i);
    BranchReads(image, start, prog[i], Loc(start, prog, i), TargetOf(start, prog, globals, i).value);
  }

  lemma ExpandBranch(i: Instruction, here: nat, there: nat)
    requires i.BranchIf? || i.B? || i.Beqz? || i.Bnez?
    ensures Expand(i, here, there) == [BranchCode(BranchOf(i), here, there)]
  {
  }

  lemma BranchReads(image: seq<Byte>, start: nat, i: Instruction, here: nat, there: nat)
    requires i.BranchIf? || i.B? || i.Beqz? || i.Bnez?
    requires ReadsAs(image, start, here, Expand(i, here, there))
    ensures BranchesTo(image, start, here, ToAddress(there), BranchOf(i))
  {
    ExpandBranch(i, here, there);
    BranchFound(image, start, here, there, BranchOf(i));
  }

  /** The image holds a jump at `here` that goes to `there` if and only if that is a word
      address in the 256 MB of the delay slot. */
  ghost predicate JumpsTo(image: seq<Byte>, start: nat, here: nat, there: Address, link: bool) {
    var pc := ToAddress(here + 4);
    && DecodesAt(image, start, here, Jump(link, JumpImm(there)))
    && (MachineCode.JumpTo(pc, JumpImm(there)) == there <==>
          there % 4 == 0 && there / 0x1000_0000 == pc / 0x1000_0000)
  }

  lemma JumpFound(image: seq<Byte>, start: nat, here: nat, there: nat, link: bool)
    requires ReadsAs(image, start, here, [Jump(link, JumpImm(ToAddress(there)))])
    ensures JumpsTo(image, start, here, ToAddress(there), link)
  {
    var c := Jump(link, JumpImm(ToAddress(there)));
    FirstOf(image, start, here, [c], c);
    JumpArrives(ToAddress(here + 4), ToAddress(there));
  }

  /** Labels lead to addresses of the program, or where they were given. */
  lemma TargetFits(start: Address, prog: Program, globals: map<string, nat>, i: nat)
    requires i < |prog| && Scan(start, prog, globals, |prog|).Ok? && TargetOf(start, prog, globals, i).Ok?
    requires forall n :: n in globals ==> globals[n] < ADDRESSES
    ensures TargetOf(start, prog, globals, i).value < ADDRESSES
  {
    forall j | 0 <= j <= |prog| ensures Loc(start, prog, j) < ADDRESSES {
      LocIsMonotone(start, prog, j, |prog|);
    }
  }

  /** In an assembled program the CPU finds at a La instructions that load the address of its
      label, whatever load is pending. */
  lemma LaLoadsLabel(cpu: Cpu, start: Address, prog: Program, globals: map<string, nat>, image: seq<Byte>, i: nat)
    requires cpu.Valid() && i < |prog| && prog[i].La? && prog[i].r != 0
    requires Assemble(Emit, start, prog, globals) == Ok(image)
    requires forall n :: n in globals ==> globals[n] < ADDRESSES
    ensures TargetOf(start, prog, globals, i).Ok?
    ensures LoadsFrom(cpu, image, start, Loc(start, prog, i), prog[i].r, TargetOf(start, prog, globals, i).value)
  {
    ProgramReadsBack(start, prog, globals, image, i);
    TargetFits(start, prog, globals, i);
    LaReads(cpu, image, start, prog[i], Loc(start, prog, i), TargetOf(start, prog, globals, i).value);
  }

  /** The instructions the CPU reads at `here` load `v`. */
  ghost predicate LoadsFrom(cpu: Cpu, image: seq<Byte>, start: nat, here: nat, r: Reg, v: nat)
    requires cpu.Valid()
  {
    exists codes: seq<Code> :: ReadsAs(image, start, here, codes) && |codes| == 2 && Loads(cpu, codes, r, v)
  }

  lemma LaReads(cpu: Cpu, image: seq<Byte>, start: nat, i: Instruction, here: nat, there: nat)
    requires cpu.Valid() && i.La? && i.r != 0 && there < ADDRESSES
    requires ReadsAs(image, start, here, Expand(i, here, there))
    ensures LoadsFrom(cpu, image, start, here, i.r, there)
  {
    LaLoads(cpu, i.r, i.target, here, there);
    LaLength(i, here, there);
    LoadsFromCodes(cpu, image, start, here, i.r, there, Expand(i, here, there));
  }

  lemma LaLength(i: Instruction, here: nat, there: nat)
    requires i.La?
    ensures |Expand(i, here, there)| == 2 && i == La(i.r, i.target)
  {
  }

  lemma LoadsFromCodes(cpu: Cpu, image: seq<Byte>, start: nat, here: nat, r: Reg, v: nat, codes: seq<Code>)
    requires cpu.Valid() && ReadsAs(image, start, here, codes) && |codes| == 2 && Loads(cpu, codes, r, v)
    ensures LoadsFrom(cpu, image, start, here, r, v)
  {
  }

  /** The same for jumps. */
  lemma JumpReachesLabel(start: Address, prog: Program, globals: map<string, nat>, image: seq<Byte>, i: nat)
    requires i < |prog| && prog[i].JumpTo? && Assemble(Emit, start, prog, globals) == Ok(image)
    ensures TargetOf(start, prog, globals, i).Ok?
    ensures JumpsTo(image, start, Loc(start, prog, i), ToAddress(TargetOf(start, prog, globals, i).value), prog[i].link)
  {
    ProgramReadsBack(start, prog, globals, image, i);
    JumpReads(image, start, prog[i], Loc(start, prog, i), TargetOf(start, prog, globals, i).value);
  }

  lemma JumpReads(image: seq<Byte>, start: nat, i: Instruction, here: nat, there: nat)
    requires i.JumpTo? && ReadsAs(image, start, here, Expand(i, here, there))
    ensures JumpsTo(image, start, here, ToAddress(there), i.link)
  {
    JumpFound(image, start, here, there, i.link);
  }
}
