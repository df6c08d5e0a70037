/** Machine code: how the assembler builds instruction words (src/assembler.rs) and how the
    CPU takes them apart (src/cpu/mod.rs). */
module MachineCode {
  import opened Options
  import opened Arithmetic

  type Bits5 = x: nat | x < 0x20
  type Bits6 = x: nat | x < 0x40
  type Bits16 = x: nat | x < 0x1_0000
  type Bits20 = x: nat | x < 0x10_0000
  type Bits26 = x: nat | x < 0x400_0000

  type Reg = Bits5

  // ---- Instructions ----

  datatype ShiftOp = Sll | Srl | Sra

  datatype ProductOp = Mult | Multu | Div | Divu

  datatype AluOp = Add | Addu | Sub | Subu | And | Or | Xor | Nor | Slt | Sltu

  datatype ImmediateOp = Addi | Addiu | Slti | Sltiu | Andi | Ori | Xori

  datatype MemoryOp = Lb | Lh | Lwl | Lw | Lbu | Lhu | Lwr | Sb | Sh | Swl | Sw | Swr

  /** Branches on one register are Bgez, Bltz and their linking forms. */
  datatype BranchOp = Beq(s: Reg, t: Reg) | Bne(s: Reg, t: Reg) | Blez(s: Reg) | Bgtz(s: Reg) | Bxx(s: Reg, bgez: bool, link: bool)

  datatype Code =
    | Shift(shiftOp: ShiftOp, d: Reg, t: Reg, shift: Bits5)
    | ShiftBy(shiftOp: ShiftOp, d: Reg, t: Reg, s: Reg)
    | Jr(s: Reg)
    | Jalr(d: Reg, s: Reg)
    | Syscall(code: Bits20)
    | Break(code: Bits20)
    | Mfhi(d: Reg)
    | Mthi(s: Reg)
    | Mflo(d: Reg)
    | Mtlo(s: Reg)
    | Product(productOp: ProductOp, s: Reg, t: Reg)
    | Alu(aluOp: AluOp, d: Reg, s: Reg, t: Reg)
    | Immediate(immediateOp: ImmediateOp, t: Reg, s: Reg, imm: Bits16)
    | Lui(t: Reg, imm: Bits16)
    | Memory(memoryOp: MemoryOp, t: Reg, s: Reg, imm: Bits16)
    | Mfc0(t: Reg, copReg: Bits5)
    | Mtc0(t: Reg, copReg: Bits5)
    | Branch(branchOp: BranchOp, imm: Bits16)
    | Jump(jumpLink: bool, target: Bits26)

  // ---- Building words ----

  function ShiftCode(op: ShiftOp): Bits6 {
    match op case Sll => 0x00 case Srl => 0x02 case Sra => 0x03
  }

  function ShiftByCode(op: ShiftOp): Bits6 {
    match op case Sll => 0x04 case Srl => 0x06 case Sra => 0x07
  }

  function ProductCode(op: ProductOp): Bits6 {
    match op case Mult => 0x18 case Multu => 0x19 case Div => 0x1a case Divu => 0x1b
  }

  function AluCode(op: AluOp): Bits6 {
    match op
    case Add => 0x20
    case Addu => 0x21
    case Sub => 0x22
    case Subu => 0x23
    case And => 0x24
    case Or => 0x25
    case Xor => 0x26
    case Nor => 0x27
    case Slt => 0x2a
    case Sltu => 0x2b
  }

  function ImmediateCode(op: ImmediateOp): Bits6 {
    match op
    case Addi => 0x08
    case Addiu => 0x09
    case Slti => 0x0a
    case Sltiu => 0x0b
    case Andi => 0x0c
    case Ori => 0x0d
    case Xori => 0x0e
  }

  function MemoryCode(op: MemoryOp): Bits6 {
    match op
    case Lb => 0x20
    case Lh => 0x21
    case Lwl => 0x22
    case Lw => 0x23
    case Lbu => 0x24
    case Lhu => 0x25
    case Lwr => 0x26
    case Sb => 0x28
    case Sh => 0x29
    case Swl => 0x2a
    case Sw => 0x2b
    case Swr => 0x2e
  }

  function EncodeSub(sub: Bits6, s: Bits5, t: Bits5, d: Bits5, shift: Bits5): nat {
    sub + 0x40 * shift + 0x800 * d + 0x1_0000 * t + 0x20_0000 * s
  }

  function EncodeImm(op: Bits6, s: Bits5, t: Bits5, imm: Bits16): nat {
    imm + 0x1_0000 * t + 0x20_0000 * s + 0x400_0000 * op
  }

  function Encode(c: Code): nat {
    match c
    case Shift(op, d, t, shift) => EncodeSub(ShiftCode(op), 0, t, d, shift)
    case ShiftBy(op, d, t, s) => EncodeSub(ShiftByCode(op), s, t, d, 0)
    case Jr(s) => EncodeSub(0x08, s, 0, 0, 0)
    case Jalr(d, s) => EncodeSub(0x09, s, 0, d, 0)
    case Syscall(code) => 0x0c + 0x40 * code
    case Break(code) => 0x0d + 0x40 * code
    case Mfhi(d) => EncodeSub(0x10, 0, 0, d, 0)
    case Mthi(s) => EncodeSub(0x11, s, 0, 0, 0)
    case Mflo(d) => EncodeSub(0x12, 0, 0, d, 0)
    case Mtlo(s) => EncodeSub(0x13, s, 0, 0, 0)
    case Product(op, s, t) => EncodeSub(ProductCode(op), s, t, 0, 0)
    case Alu(op, d, s, t) => EncodeSub(AluCode(op), s, t, d, 0)
    case Immediate(op, t, s, imm) => EncodeImm(ImmediateCode(op), s, t, imm)
    case Lui(t, imm) => EncodeImm(0x0f, 0, t, imm)
    case Memory(op, t, s, imm) => EncodeImm(MemoryCode(op), s, t, imm)
    case Mfc0(t, r) => EncodeImm(0x10, 0x00, t, 0x800 * r)
    case Mtc0(t, r) => EncodeImm(0x10, 0x04, t, 0x800 * r)
    case Branch(op, imm) => EncodeBranch(op, imm)
    case Jump(link, target) => target + 0x400_0000 * (if link then 0x03 else 0x02)
  }

  function EncodeBranch(op: BranchOp, imm: Bits16): nat {
    match op
    case Beq(s, t) => EncodeImm(0x04, s, t, imm)
    case Bne(s, t) => EncodeImm(0x05, s, t, imm)
    case Blez(s) => EncodeImm(0x06, s, 0, imm)
    case Bgtz(s) => EncodeImm(0x07, s, 0, imm)
    case Bxx(s, bgez, link) =>
      EncodeImm(0x01, s, (if link then 0x10 else 0) + (if bgez then 0x01 else 0), imm)
  }

  // ---- Taking words apart ----

  function Function(w: nat): nat {
    w / 0x400_0000
  }

  function Subfunction(w: nat): Bits6 {
    w % 0x40
  }

  function S(w: nat): Bits5 {
    w / 0x20_0000 % 0x20
  }

  function T(w: nat): Bits5 {
    w / 0x1_0000 % 0x20
  }

  function D(w: nat): Bits5 {
    w / 0x800 % 0x20
  }

  function ShiftAmount(w: nat): Bits5 {
    w / 0x40 % 0x20
  }

  function Imm(w: nat): Bits16 {
    w % 0x1_0000
  }

  function CodeOf(w: nat): Bits20 {
    w / 0x40 % 0x10_0000
  }

  function JumpTarget(w: nat): Bits26 {
    w % 0x400_0000
  }

  /** The operations with function 0. */
  function DecodeSub(f: nat, s: Bits5, t: Bits5, d: Bits5, shift: Bits5, code: Bits20): Option<Code> {
    if f == 0x08 then Some(Jr(s))
    else if f == 0x09 then Some(Jalr(d, s))
    else if f == 0x0c then Some(Syscall(code))
    else if f == 0x0d then Some(Break(code))
    else if f == 0x10 then Some(Mfhi(d))
    else if f == 0x11 then Some(Mthi(s))
    else if f == 0x12 then Some(Mflo(d))
    else if f == 0x13 then Some(Mtlo(s))
    else
      var shiftOp, shiftBy, product, alu := DecodeShift(f), DecodeShiftBy(f), DecodeProduct(f), DecodeAlu(f);
      if shiftOp.Some? then Some(Shift(shiftOp.value, d, t, shift))
      else if shiftBy.Some? then Some(ShiftBy(shiftBy.value, d, t, s))
      else if product.Some? then Some(Product(product.value, s, t))
      else if alu.Some? then Some(Alu(alu.value, d, s, t))
      else None
  }

  function DecodeShift(f: nat): Option<ShiftOp> {
    if f == 0x00 then Some(Sll) else if f == 0x02 then Some(Srl) else if f == 0x03 then Some(Sra) else None
  }

  function DecodeShiftBy(f: nat): Option<ShiftOp> {
    if f == 0x04 then Some(Sll) else if f == 0x06 then Some(Srl) else if f == 0x07 then Some(Sra) else None
  }

  function DecodeProduct(f: nat): Option<ProductOp> {
    if f == 0x18 then Some(Mult)
    else if f == 0x19 then Some(Multu)
    else if f == 0x1a then Some(Div)
    else if f == 0x1b then Some(Divu)
    else None
  }

  function DecodeAlu(f: nat): Option<AluOp> {
    if f == 0x20 then Some(Add)
    else if f == 0x21 then Some(Addu)
    else if f == 0x22 then Some(Sub)
    else if f == 0x23 then Some(Subu)
    else if f == 0x24 then Some(And)
    else if f == 0x25 then Some(Or)
    else if f == 0x26 then Some(Xor)
    else if f == 0x27 then Some(Nor)
    else if f == 0x2a then Some(Slt)
    else if f == 0x2b then Some(Sltu)
    else None
  }

  function DecodeImmediate(f: nat): Option<ImmediateOp> {
    if f == 0x08 then Some(Addi)
    else if f == 0x09 then Some(Addiu)
    else if f == 0x0a then Some(Slti)
    else if f == 0x0b then Some(Sltiu)
    else if f == 0x0c then Some(Andi)
    else if f == 0x0d then Some(Ori)
    else if f == 0x0e then Some(Xori)
    else None
  }

  function DecodeMemory(f: nat): Option<MemoryOp> {
    if f == 0x20 then Some(Lb)
    else if f == 0x21 then Some(Lh)
    else if f == 0x22 then Some(Lwl)
    else if f == 0x23 then Some(Lw)
    else if f == 0x24 then Some(Lbu)
    else if f == 0x25 then Some(Lhu)
    else if f == 0x26 then Some(Lwr)
    else if f == 0x28 then Some(Sb)
    else if f == 0x29 then Some(Sh)
    else if f == 0x2a then Some(Swl)
    else if f == 0x2b then Some(Sw)
    else if f == 0x2e then Some(Swr)
    else None
  }

  /** The operations with an immediate. */
  function DecodeImm(f: nat, s: Bits5, t: Bits5, imm: Bits16): Option<Code> {
    if f == 0x04 then Some(Branch(Beq(s, t), imm))
    else if f == 0x05 then Some(Branch(Bne(s, t), imm))
    else if f == 0x06 then Some(Branch(Blez(s), imm))
    else if f == 0x07 then Some(Branch(Bgtz(s), imm))
    else if f == 0x0f then Some(Lui(t, imm))
    else if DecodeImmediate(f).Some? then Some(Immediate(DecodeImmediate(f).value, t, s, imm))
    else if DecodeMemory(f).Some? then Some(Memory(DecodeMemory(f).value, t, s, imm))
    else None
  }

  /** The operation the CPU dispatches an instruction word to, with the operands it reads.
      Operations the assembler has no syntax for are left out. */
  function Decode(w: nat): Option<Code> {
    var f := Function(w);
    if f == 0x00 then DecodeSub(Subfunction(w), S(w), T(w), D(w), ShiftAmount(w), CodeOf(w))
    else if f == 0x01 then Some(Branch(Bxx(S(w), IsBgez(w), IsLink(w)), Imm(w)))
    else if f == 0x02 then Some(Jump(false, JumpTarget(w)))
    else if f == 0x03 then Some(Jump(true, JumpTarget(w)))
    else if f == 0x10 then
      if S(w) == 0 then Some(Mfc0(T(w), D(w)))
      else if S(w) == 4 then Some(Mtc0(T(w), D(w)))
      else None
    else DecodeImm(f, S(w), T(w), Imm(w))
  }

  predicate IsBgez(w: nat) {
    w / 0x1_0000 % 2 == 1
  }

  /** Bit 20 alone does not make a branch link: bits 17 to 19 must be clear. */
  predicate IsLink(w: nat) {
    w / 0x2_0000 % 0x10 == 0x8
  }

  // ---- The CPU reads what the assembler wrote ----

  lemma SubFields(sub: Bits6, s: Bits5, t: Bits5, d: Bits5, shift: Bits5)
    ensures var w := EncodeSub(sub, s, t, d, shift);
      Function(w) == 0 && Subfunction(w) == sub && S(w) == s && T(w) == t && D(w) == d && ShiftAmount(w) == shift
  {
    var w := EncodeSub(sub, s, t, d, shift);
    var w1, w2, w3 := shift + 0x20 * d + 0x400 * t + 0x8000 * s, d + 0x20 * t + 0x400 * s, t + 0x20 * s;
    DivModUnique(w, 0x400_0000, 0, w);
    DivModUnique(w, 0x40, w1, sub);
    DivModUnique(w1, 0x20, w2, shift);
    DivModUnique(w, 0x800, w2, sub + 0x40 * shift);
    DivModUnique(w2, 0x20, w3, d);
    DivModUnique(w, 0x1_0000, w3, sub + 0x40 * shift + 0x800 * d);
    DivModUnique(w3, 0x20, s, t);
    DivModUnique(w, 0x20_0000, s, sub + 0x40 * shift + 0x800 * d + 0x1_0000 * t);
    DivModUnique(s, 0x20, 0, s);
  }

  lemma ImmFields(op: Bits6, s: Bits5, t: Bits5, imm: Bits16)
    ensures var w := EncodeImm(op, s, t, imm);
      && Function(w) == op && S(w) == s && T(w) == t && Imm(w) == imm
      && w / 0x1_0000 == t + 0x20 * s + 0x400 * op
  {
    var w := EncodeImm(op, s, t, imm);
    DivModUnique(w, 0x1_0000, t + 0x20 * s + 0x400 * op, imm);
    DivModUnique(t + 0x20 * s + 0x400 * op, 0x20, s + 0x20 * op, t);
    DivModUnique(w, 0x20_0000, s + 0x20 * op, imm + 0x1_0000 * t);
    DivModUnique(s + 0x20 * op, 0x20, op, s);
    DivModUnique(w, 0x400_0000, op, imm + 0x1_0000 * t + 0x20_0000 * s);
  }

  lemma CodeFields(sub: Bits6, code: Bits20)
    ensures var w := sub + 0x40 * code;
      Function(w) == 0 && Subfunction(w) == sub && CodeOf(w) == code
  {
    var w := sub + 0x40 * code;
    DivModUnique(w, 0x400_0000, 0, w);
    DivModUnique(w, 0x40, code, sub);
    DivModUnique(code, 0x10_0000, 0, code);
  }

  lemma BxxFields(s: Bits5, bgez: bool, link: bool, imm: Bits16)
    ensures var w := EncodeBranch(Bxx(s, bgez, link), imm);
      && Function(w) == 1 && S(w) == s && Imm(w) == imm
      && IsBgez(w) == bgez && IsLink(w) == link
  {
    var t := (if link then 0x10 else 0) + (if bgez then 0x01 else 0);
    ImmFields(1, s, t, imm);
    var w := EncodeImm(1, s, t, imm);
    var high, l, b := t + 0x20 * s + 0x400, if link then 8 else 0, if bgez then 1 else 0;
    DivModUnique(high, 2, l + 0x10 * s + 0x200, b);
    DivModUnique(w, 0x2_0000, l + 0x10 * s + 0x200, imm + 0x1_0000 * b);
    DivModUnique(l + 0x10 * s + 0x200, 0x10, s + 0x20, l);
  }

  lemma CopFields(op: Bits5, t: Bits5, r: Bits5)
    ensures var w := EncodeImm(0x10, op, t, 0x800 * r);
      Function(w) == 0x10 && S(w) == op && T(w) == t && D(w) == r
  {
    ImmFields(0x10, op, t, 0x800 * r);
    var w := EncodeImm(0x10, op, t, 0x800 * r);
    var high := t + 0x20 * op + 0x4000;
    DivModUnique(w, 0x800, r + 0x20 * high, 0);
    DivModUnique(r + 0x20 * high, 0x20, high, r);
  }

  lemma JumpFields(op: Bits6, target: Bits26)
    ensures var w := target + 0x400_0000 * op;
      Function(w) == op && JumpTarget(w) == target
  {
    DivModUnique(target + 0x400_0000 * op, 0x400_0000, op, target);
  }

  lemma OpsRoundTrip(shift: ShiftOp, product: ProductOp, alu: AluOp)
    ensures DecodeShift(ShiftCode(shift)) == Some(shift)
    ensures DecodeShiftBy(ShiftByCode(shift)) == Some(shift) && DecodeShift(ShiftByCode(shift)).None?
    ensures DecodeProduct(ProductCode(product)) == Some(product)
    ensures DecodeShift(ProductCode(product)).None? && DecodeShiftBy(ProductCode(product)).None?
    ensures DecodeAlu(AluCode(alu)) == Some(alu) && DecodeProduct(AluCode(alu)).None?
    ensures DecodeShift(AluCode(alu)).None? && DecodeShiftBy(AluCode(alu)).None?
  {
  }

  lemma ImmediateRoundTrip(op: ImmediateOp, s: Bits5, t: Bits5, imm: Bits16)
    ensures DecodeImm(ImmediateCode(op), s, t, imm) == Some(Immediate(op, t, s, imm))
  {
  }

  lemma MemoryRoundTrip(op: MemoryOp, s: Bits5, t: Bits5, imm: Bits16)
    ensures DecodeImm(MemoryCode(op), s, t, imm) == Some(Memory(op, t, s, imm))
  {
  }

  lemma SubDecodes(f: Bits6, s: Bits5, t: Bits5, d: Bits5, shift: Bits5, c: Code)
    requires forall code :: DecodeSub(f, s, t, d, shift, code) == Some(c)
    ensures Decode(EncodeSub(f, s, t, d, shift)) == Some(c)
  {
    SubFields(f, s, t, d, shift);
  }

  lemma ImmDecodes(f: Bits6, s: Bits5, t: Bits5, imm: Bits16, c: Code)
    requires f > 3 && f != 0x10 && DecodeImm(f, s, t, imm) == Some(c)
    ensures Decode(EncodeImm(f, s, t, imm)) == Some(c)
  {
    ImmFields(f, s, t, imm);
  }

  /** The predicate that has to hold of every instruction. */
  predicate RoundTrips(c: Code) {
    Decode(Encode(c)) == Some(c)
  }

  lemma ShiftDecodes(op: ShiftOp, d: Reg, t: Reg, x: Bits5)
    ensures RoundTrips(Shift(op, d, t, x)) && RoundTrips(ShiftBy(op, d, t, x))
  {
    OpsRoundTrip(op, Mult, Add);
    SubDecodes(ShiftCode(op), 0, t, d, x, Shift(op, d, t, x));
    SubDecodes(ShiftByCode(op), x, t, d, 0, ShiftBy(op, d, t, x));
  }

  lemma ProductDecodes(op: ProductOp, s: Reg, t: Reg)
    ensures RoundTrips(Product(op, s, t))
  {
    OpsRoundTrip(Sll, op, Add);
    SubDecodes(ProductCode(op), s, t, 0, 0, Product(op, s, t));
  }

  lemma AluDecodes(op: AluOp, d: Reg, s: Reg, t: Reg)
    ensures RoundTrips(Alu(op, d, s, t))
  {
    OpsRoundTrip(Sll, Mult, op);
    SubDecodes(AluCode(op), s, t, d, 0, Alu(op, d, s, t));
  }

  lemma JumpRegisterDecodes(d: Reg, s: Reg)
    ensures RoundTrips(Jr(s)) && RoundTrips(Jalr(d, s))
  {
    SubDecodes(0x08, s, 0, 0, 0, Jr(s));
    SubDecodes(0x09, s, 0, d, 0, Jalr(d, s));
  }

  lemma MoveFromDecodes(d: Reg)
    ensures RoundTrips(Mfhi(d)) && RoundTrips(Mflo(d))
  {
    SubDecodes(0x10, 0, 0, d, 0, Mfhi(d));
    SubDecodes(0x12, 0, 0, d, 0, Mflo(d));
  }

  lemma MoveToDecodes(s: Reg)
    ensures RoundTrips(Mthi(s)) && RoundTrips(Mtlo(s))
  {
    SubDecodes(0x11, s, 0, 0, 0, Mthi(s));
    SubDecodes(0x13, s, 0, 0, 0, Mtlo(s));
  }

  lemma ImmediateDecodes(op: ImmediateOp, s: Reg, t: Reg, imm: Bits16)
    ensures RoundTrips(Immediate(op, t, s, imm))
  {
    ImmediateRoundTrip(op, s, t, imm);
    ImmDecodes(ImmediateCode(op), s, t, imm, Immediate(op, t, s, imm));
  }

  lemma MemoryDecodes(op: MemoryOp, s: Reg, t: Reg, imm: Bits16)
    ensures RoundTrips(Memory(op, t, s, imm))
  {
    MemoryRoundTrip(op, s, t, imm);
    ImmDecodes(MemoryCode(op), s, t, imm, Memory(op, t, s, imm));
  }

  lemma BranchDecodes(op: BranchOp, imm: Bits16)
    ensures RoundTrips(Branch(op, imm))
  {
    match op
    case Beq(s, t) => ImmDecodes(0x04, s, t, imm, Branch(op, imm));
    case Bne(s, t) => ImmDecodes(0x05, s, t, imm, Branch(op, imm));
    case Blez(s) => ImmDecodes(0x06, s, 0, imm, Branch(op, imm));
    case Bgtz(s) => ImmDecodes(0x07, s, 0, imm, Branch(op, imm));
    case Bxx(s, bgez, link) => BxxFields(s, bgez, link, imm);
  }

  /** Decoding is the inverse of encoding, for every instruction and all its operands. */
  lemma DecodeEncode(c: Code)
    ensures RoundTrips(c)
  {
    match c
    case Shift(op, d, t, shift) => ShiftDecodes(op, d, t, shift);
    case ShiftBy(op, d, t, s) => ShiftDecodes(op, d, t, s);
    case Jr(s) => JumpRegisterDecodes(0, s);
    case Jalr(d, s) => JumpRegisterDecodes(d, s);
    case Syscall(code) => CodeFields(0x0c, code);
    case Break(code) => CodeFields(0x0d, code);
    case Mfhi(d) => MoveFromDecodes(d);
    case Mthi(s) => MoveToDecodes(s);
    case Mflo(d) => MoveFromDecodes(d);
    case Mtlo(s) => MoveToDecodes(s);
    case Product(op, s, t) => ProductDecodes(op, s, t);
    case Alu(op, d, s, t) => AluDecodes(op, d, s, t);
    case Immediate(op, t, s, imm) => ImmediateDecodes(op, s, t, imm);
    case Lui(t, imm) => ImmDecodes(0x0f, 0, t, imm, c);
    case Memory(op, t, s, imm) => MemoryDecodes(op, s, t, imm);
    case Mfc0(t, r) => CopFields(0, t, r);
    case Mtc0(t, r) => CopFields(4, t, r);
    case Branch(op, imm) => BranchDecodes(op, imm);
    case Jump(link, target) => JumpFields(if link then 3 else 2, target);
  }

  // ---- The instruction set ----

  /** The numbers of the MIPS manual, and the place of every operand. */
  lemma ShiftWords(d: Reg, s: Reg, t: Reg, shift: Bits5)
    ensures var x := 0x800 * d + 0x1_0000 * t;
      && Encode(Shift(Sll, d, t, shift)) == 0x00 + x + 0x40 * shift
      && Encode(Shift(Srl, d, t, shift)) == 0x02 + x + 0x40 * shift
      && Encode(Shift(Sra, d, t, shift)) == 0x03 + x + 0x40 * shift
      && Encode(ShiftBy(Sll, d, t, s)) == 0x04 + x + 0x20_0000 * s
      && Encode(ShiftBy(Srl, d, t, s)) == 0x06 + x + 0x20_0000 * s
      && Encode(ShiftBy(Sra, d, t, s)) == 0x07 + x + 0x20_0000 * s
  {
  }

  lemma RegisterWords(d: Reg, s: Reg, t: Reg, code: Bits20)
    ensures var x, y := 0x800 * d, 0x20_0000 * s;
      && Encode(Jr(s)) == 0x08 + y
      && Encode(Jalr(d, s)) == 0x09 + x + y
      && Encode(Mfhi(d)) == 0x10 + x
      && Encode(Mthi(s)) == 0x11 + y
      && Encode(Mflo(d)) == 0x12 + x
      && Encode(Mtlo(s)) == 0x13 + y
      && Encode(Syscall(code)) == 0x0c + 0x40 * code
      && Encode(Break(code)) == 0x0d + 0x40 * code
      && Encode(Mfc0(t, d)) == 0x4000_0000 + x + 0x1_0000 * t
      && Encode(Mtc0(t, d)) == 0x4080_0000 + x + 0x1_0000 * t
  {
  }

  lemma ArithmeticWords(d: Reg, s: Reg, t: Reg)
    ensures var x := 0x1_0000 * t + 0x20_0000 * s;
      && Encode(Product(Mult, s, t)) == 0x18 + x
      && Encode(Product(Multu, s, t)) == 0x19 + x
      && Encode(Product(Div, s, t)) == 0x1a + x
      && Encode(Product(Divu, s, t)) == 0x1b + x
      && Encode(Alu(Add, d, s, t)) == 0x20 + x + 0x800 * d
      && Encode(Alu(Addu, d, s, t)) == 0x21 + x + 0x800 * d
      && Encode(Alu(Sub, d, s, t)) == 0x22 + x + 0x800 * d
      && Encode(Alu(Subu, d, s, t)) == 0x23 + x + 0x800 * d
      && Encode(Alu(And, d, s, t)) == 0x24 + x + 0x800 * d
      && Encode(Alu(Or, d, s, t)) == 0x25 + x + 0x800 * d
      && Encode(Alu(Xor, d, s, t)) == 0x26 + x + 0x800 * d
      && Encode(Alu(Nor, d, s, t)) == 0x27 + x + 0x800 * d
      && Encode(Alu(Slt, d, s, t)) == 0x2a + x + 0x800 * d
      && Encode(Alu(Sltu, d, s, t)) == 0x2b + x + 0x800 * d
  {
  }

  lemma ImmediateWords(s: Reg, t: Reg, imm: Bits16)
    ensures var x := imm + 0x1_0000 * t + 0x20_0000 * s;
      && Encode(Immediate(Addi, t, s, imm)) == 0x2000_0000 + x
      && Encode(Immediate(Addiu, t, s, imm)) == 0x2400_0000 + x
      && Encode(Immediate(Slti, t, s, imm)) == 0x2800_0000 + x
      && Encode(Immediate(Sltiu, t, s, imm)) == 0x2c00_0000 + x
      && Encode(Immediate(Andi, t, s, imm)) == 0x3000_0000 + x
      && Encode(Immediate(Ori, t, s, imm)) == 0x3400_0000 + x
      && Encode(Immediate(Xori, t, s, imm)) == 0x3800_0000 + x
    ensures Encode(Lui(t, imm)) == 0x3c00_0000 + imm + 0x1_0000 * t
  {
  }

  lemma MemoryWords(s: Reg, t: Reg, imm: Bits16)
    ensures var x := imm + 0x1_0000 * t + 0x20_0000 * s;
      && Encode(Memory(Lb, t, s, imm)) == 0x8000_0000 + x
      && Encode(Memory(Lh, t, s, imm)) == 0x8400_0000 + x
      && Encode(Memory(Lwl, t, s, imm)) == 0x8800_0000 + x
      && Encode(Memory(Lw, t, s, imm)) == 0x8c00_0000 + x
      && Encode(Memory(Lbu, t, s, imm)) == 0x9000_0000 + x
      && Encode(Memory(Lhu, t, s, imm)) == 0x9400_0000 + x
      && Encode(Memory(Lwr, t, s, imm)) == 0x9800_0000 + x
      && Encode(Memory(Sb, t, s, imm)) == 0xa000_0000 + x
      && Encode(Memory(Sh, t, s, imm)) == 0xa400_0000 + x
      && Encode(Memory(Swl, t, s, imm)) == 0xa800_0000 + x
      && Encode(Memory(Sw, t, s, imm)) == 0xac00_0000 + x
      && Encode(Memory(Swr, t, s, imm)) == 0xb800_0000 + x
  {
  }

  lemma BranchWords(s: Reg, t: Reg, imm: Bits16, target: Bits26)
    ensures var x, y := imm + 0x20_0000 * s, 0x1_0000 * t;
      && Encode(Branch(Beq(s, t), imm)) == 0x1000_0000 + x + y
      && Encode(Branch(Bne(s, t), imm)) == 0x1400_0000 + x + y
      && Encode(Branch(Blez(s), imm)) == 0x1800_0000 + x
      && Encode(Branch(Bgtz(s), imm)) == 0x1c00_0000 + x
      && Encode(Branch(Bxx(s, false, false), imm)) == 0x0400_0000 + x
      && Encode(Branch(Bxx(s, true, false), imm)) == 0x0401_0000 + x
      && Encode(Branch(Bxx(s, false, true), imm)) == 0x0410_0000 + x
      && Encode(Branch(Bxx(s, true, true), imm)) == 0x0411_0000 + x
    ensures Encode(Jump(false, target)) == 0x0800_0000 + target
    ensures Encode(Jump(true, target)) == 0x0c00_0000 + target
  {
  }

  // ---- Branches and jumps ----

  const ADDRESSES: int := 0x1_0000_0000

  type Address = a: nat | a < 0x1_0000_0000

  /** A 16 bit value read with its sign. */
  function Signed16(v: Bits16): int {
    if v < 0x8000 then v else v - 0x1_0000
  }

  /** The immediate for a branch whose delay slot is at `pc`: the byte distance cut to 16
      bits, then shifted right by two with its sign. */
  function BranchImm(pc: Address, there: Address): Bits16 {
    Signed16((there - pc) % 0x1_0000) / 4 % 0x1_0000
  }

  /** Where the CPU goes on a taken branch. */
  function BranchTo(pc: Address, imm: Bits16): Address {
    (pc + 4 * Signed16(imm)) % ADDRESSES
  }

  /** The way from one address to another, the shorter way around. */
  function Distance(pc: Address, there: Address): int {
    var d := there - pc;
    if d >= 0x8000_0000 then d - ADDRESSES else if d < -0x8000_0000 then d + ADDRESSES else d
  }

  /** A whole number of words that fits in 16 signed bits. */
  predicate InBranchRange(distance: int) {
    distance % 4 == 0 && -0x8000 <= distance < 0x8000
  }

  /** The sign survives the cut exactly for distances that fit. */
  lemma CutDistance(x: int, d: int)
    requires d == x || d == x - ADDRESSES || d == x + ADDRESSES
    ensures Signed16(x % 0x1_0000) == d <==> -0x8000 <= d < 0x8000
  {
    if -0x8000 <= d < 0x8000 {
      var k := if d == x then 0 else if d == x - ADDRESSES then 1 else -1;
      assert x == (0x1_0000 * k) * 0x1_0000 + d;
      if d >= 0 {
        DivModUnique(x, 0x1_0000, 0x1_0000 * k, d);
      } else {
        DivModUnique(x, 0x1_0000, 0x1_0000 * k - 1, d + 0x1_0000);
      }
    }
  }

  lemma ImmKeepsSign(v: int)
    requires -0x8000 <= v < 0x8000
    ensures Signed16(v / 4 % 0x1_0000) == v / 4 && 4 * (v / 4) == v - v % 4
  {
    if v < 0 {
      DivModUnique(v / 4, 0x1_0000, -1, v / 4 + 0x1_0000);
    } else {
      DivModUnique(v / 4, 0x1_0000, 0, v / 4);
    }
  }

  /** Going `off` bytes from `pc` arrives at `there` exactly when `off` is the distance. */
  lemma ArrivesAt(pc: Address, there: Address, off: int)
    requires -0x8000 <= off < 0x8000
    ensures (pc + off) % ADDRESSES == there <==> off == Distance(pc, there)
  {
    var q := if pc + off < 0 then -1 else if pc + off >= ADDRESSES then 1 else 0;
    DivModUnique(pc + off, ADDRESSES, q, pc + off - q * ADDRESSES);
  }

  /** A taken branch arrives at its label exactly when the label is a whole number of words
      away and the distance in bytes fits in 16 bits: the assembler checks neither. */
  lemma BranchArrives(pc: Address, there: Address)
    ensures BranchTo(pc, BranchImm(pc, there)) == there <==> InBranchRange(Distance(pc, there))
  {
    var v := Signed16((there - pc) % 0x1_0000);
    ImmKeepsSign(v);
    ArrivesAt(pc, there, v - v % 4);
    CutDistance(there - pc, Distance(pc, there));
  }

  function JumpImm(there: Address): Bits26 {
    there / 4 % 0x400_0000
  }

  /** Where the CPU goes on a jump whose delay slot is at `pc`. */
  function JumpTo(pc: Address, target: Bits26): Address {
    pc / 0x1000_0000 * 0x1000_0000 + 4 * target
  }

  /** A jump arrives exactly when its label is word aligned and in the same 256 MB as the
      delay slot. */
  lemma JumpArrives(pc: Address, there: Address)
    ensures JumpTo(pc, JumpImm(there)) == there <==> there % 4 == 0 && there / 0x1000_0000 == pc / 0x1000_0000
  {
    var q := there / 4;
    var h, l := q / 0x400_0000, q % 0x400_0000;
    assert there == 0x1000_0000 * h + 4 * l + there % 4;
    DivModUnique(there, 0x1000_0000, h, 4 * l + there % 4);
  }
}
