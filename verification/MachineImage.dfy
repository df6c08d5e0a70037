/** Instructions into machine code, pseudo instructions included (src/assembler.rs), and the
    image of a program as the CPU reads it. */
module MachineImage {
  import opened Options
  import opened Arithmetic
  import opened Memory
  import opened MachineCode
  import opened Assembler
  import opened CodeGeneration

  function ToAddress(a: int): Address {
    a % ADDRESSES
  }

  function BranchCode(op: BranchOp, here: nat, there: nat): Code {
    Branch(op, BranchImm(ToAddress(here + 4), ToAddress(there)))
  }

  function LoadHigh(r: Reg, v: Address): Code {
    Lui(r, v / 0x1_0000)
  }

  function OrLow(r: Reg, s: Reg, v: Address): Code {
    Immediate(Ori, r, s, v % 0x1_0000)
  }

  /** Li needs two instructions only if both halves of its value are non zero. */
  function LiCodes(r: Reg, v: Address): seq<Code> {
    if v / 0x1_0000 == 0 then [OrLow(r, 0, v)]
    else if v % 0x1_0000 == 0 then [LoadHigh(r, v)]
    else [LoadHigh(r, v), OrLow(r, r, v)]
  }

  /** The machine instructions for an instruction at `here` whose label, if it has one, leads
      to `there`. */
  function Expand(i: Instruction, here: nat, there: nat): seq<Code> {
    match i
    case Plain(c) => [c]
    case BranchIf(op, _) => [BranchCode(op, here, there)]
    case JumpTo(link, _) => [Jump(link, JumpImm(ToAddress(there)))]
    case Global(_) => []
    case Local(_) => []
    case Align(_) => []
    case Nop => [Shift(Sll, 0, 0, 0)]
    case Move(d, s) => [Alu(Addu, d, s, 0)]
    case Li(r, v) => LiCodes(r, v)
    case La(r, _) => [LoadHigh(r, ToAddress(there)), OrLow(r, r, ToAddress(there))]
    case B(_) => [BranchCode(Beq(0, 0), here, there)]
    case Beqz(r, _) => [BranchCode(Beq(r, 0), here, there)]
    case Bnez(r, _) => [BranchCode(Bne(r, 0), here, there)]
  }

  lemma ExpandedLength(i: Instruction, here: nat, there: nat)
    requires !i.Align?
    ensures 4 * |Expand(i, here, there)| == Bytes(i, here)
  {
  }

  function CodeBytes(codes: seq<Code>): (b: seq<Byte>)
    ensures |b| == 4 * |codes|
  {
    if codes == [] then [] else ToBytes(Encode(codes[0]), 4) + CodeBytes(codes[1..])
  }

  function Emit(i: Instruction, here: nat, there: nat): seq<Byte> {
    if i.Align? then seq(PadToOrder(here, i.order), _ => 0) else CodeBytes(Expand(i, here, there))
  }

  lemma EmitIsSized()
    ensures Sized(Emit)
  {
    forall i: Instruction, here: nat, there: nat ensures |Emit(i, here, there)| == Bytes(i, here) {
      if !i.Align? {
        ExpandedLength(i, here, there);
      }
    }
  }

  // ---- The CPU reads the image back ----

  lemma EncodeFits(c: Code)
    ensures Encode(c) < 0x1_0000_0000
  {
  }

  /** The CPU takes these bytes for instruction `c`. */
  ghost predicate Reads(word: seq<Byte>, c: Code) {
    |word| == 4 && Decode(FromBytes(word)) == Some(c)
  }

  lemma WordReadsBack(c: Code)
    ensures Reads(ToBytes(Encode(c), 4), c)
  {
    EncodeFits(c);
    WordFits();
    BytesRoundTrip(Encode(c), 4);
    DecodeEncode(c);
  }

  /** Word `j` of some machine code is instruction `j`. */
  lemma {:induction false} CodeAt(codes: seq<Code>, j: nat)
    requires j < |codes|
    ensures CodeBytes(codes)[4 * j..4 * j + 4] == ToBytes(Encode(codes[j]), 4)
  {
    var first, rest := ToBytes(Encode(codes[0]), 4), CodeBytes(codes[1..]);
    if j == 0 {
      assert (first + rest)[..4] == first;
    } else {
      CodeAt(codes[1..], j - 1);
      assert (first + rest)[4 * j..4 * j + 4] == rest[4 * (j - 1)..4 * (j - 1) + 4];
    }
  }

  /** The CPU decodes instruction `c` at address `a` of an image loaded at `start`. */
  ghost predicate DecodesAt(image: seq<Byte>, start: nat, a: nat, c: Code) {
    start <= a && a - start + 4 <= |image| && Reads(image[a - start..a - start + 4], c)
  }

  lemma FoundAt(image: seq<Byte>, start: nat, a: nat, word: seq<Byte>, c: Code)
    requires LiesAt(image, start, a, word) && Reads(word, c)
    ensures DecodesAt(image, start, a, c)
  {
  }

  lemma SliceDecodesAt(image: seq<Byte>, start: nat, here: nat, bytes: seq<Byte>, x: nat, c: Code)
    requires LiesAt(image, start, here, bytes) && x + 4 <= |bytes| && Reads(bytes[x..x + 4], c)
    ensures DecodesAt(image, start, here + x, c)
  {
    LiesWithin(image, start, here, bytes, x, 4);
    FoundAt(image, start, here + x, bytes[x..x + 4], c);
  }

  lemma CodeReadsBack(codes: seq<Code>, j: nat)
    requires j < |codes|
    ensures Reads(CodeBytes(codes)[4 * j..4 * j + 4], codes[j])
  {
    CodeAt(codes, j);
    WordReadsBack(codes[j]);
  }

  /** The bytes are those of the instructions. */
  ghost predicate Matches(bytes: seq<Byte>, codes: seq<Code>) {
    |bytes| == 4 * |codes| && forall j :: 0 <= j < |codes| ==> Reads(bytes[4 * j..4 * j + 4], codes[j])
  }

  lemma CodeMatches(codes: seq<Code>)
    ensures Matches(CodeBytes(codes), codes)
  {
    forall j | 0 <= j < |codes| ensures Reads(CodeBytes(codes)[4 * j..4 * j + 4], codes[j]) {
      CodeReadsBack(codes, j);
    }
  }

  /** The CPU decodes these instructions from address `here` on. */
  ghost predicate ReadsAs(image: seq<Byte>, start: nat, here: nat, codes: seq<Code>) {
    forall j :: 0 <= j < |codes| ==> DecodesAt(image, start, here + 4 * j, codes[j])
  }

  lemma MatchesAt(image: seq<Byte>, start: nat, here: nat, bytes: seq<Byte>, codes: seq<Code>)
    requires LiesAt(image, start, here, bytes) && Matches(bytes, codes)
    ensures ReadsAs(image, start, here, codes)
  {
    forall j | 0 <= j < |codes| ensures DecodesAt(image, start, here + 4 * j, codes[j]) {
      SliceDecodesAt(image, start, here, bytes, 4 * j, codes[j]);
    }
  }

  /** Assembling preserves meaning. Wherever an instruction of an assembled program ends up,
      the CPU decodes there exactly the machine instructions it stands for, with labels as in
      the text. */
  lemma ProgramReadsBack(start: Address, prog: Program, globals: map<string, nat>, image: seq<Byte>, i: nat)
    requires i < |prog| && Assemble(Emit, start, prog, globals) == Ok(image)
    ensures TargetOf(start, prog, globals, i).Ok?
    ensures var here, there := Loc(start, prog, i), TargetOf(start, prog, globals, i).value;
      ReadsAs(image, start, here, Expand(prog[i], here, there))
  {
    EmitIsSized();
    AssembledLayout(Emit, start, prog, globals, image, i);
    PieceReadsBack(image, start, prog[i], Loc(start, prog, i), TargetOf(start, prog, globals, i).value);
  }

  lemma PieceReadsBack(image: seq<Byte>, start: nat, i: Instruction, here: nat, there: nat)
    requires LiesAt(image, start, here, Emit(i, here, there))
    ensures ReadsAs(image, start, here, Expand(i, here, there))
  {
    var codes := Expand(i, here, there);
    if codes != [] {
      CodeMatches(codes);
      MatchesAt(image, start, here, Emit(i, here, there), codes);
    }
  }

  /** A real instruction is assembled to itself. */
  lemma PlainReadsBack(start: Address, prog: Program, globals: map<string, nat>, image: seq<Byte>, i: nat)
    requires i < |prog| && prog[i].Plain? && Assemble(Emit, start, prog, globals) == Ok(image)
    ensures DecodesAt(image, start, Loc(start, prog, i), prog[i].code)
  {
    ProgramReadsBack(start, prog, globals, image, i);
    var here, there := Loc(start, prog, i), TargetOf(start, prog, globals, i).value;
    PlainExpands(prog[i], here, there);
    FirstOf(image, start, here, Expand(prog[i], here, there), prog[i].code);
  }

  lemma PlainExpands(i: Instruction, here: nat, there: nat)
    requires i.Plain?
    ensures Expand(i, here, there) == [i.code]
  {
  }

  lemma FirstOf(image: seq<Byte>, start: nat, here: nat, codes: seq<Code>, c: Code)
    requires ReadsAs(image, start, here, codes) && codes == [c]
    ensures DecodesAt(image, start, here, c)
  {
    assert DecodesAt(image, start, here + 4 * 0, codes[0]);
  }

  /** An alignment is zeros up to an address that is aligned. */
  lemma AlignmentIsZeros(start: Address, prog: Program, globals: map<string, nat>, image: seq<Byte>, i: nat, a: nat)
    requires i < |prog| && prog[i].Align? && Assemble(Emit, start, prog, globals) == Ok(image)
    requires Loc(start, prog, i) <= a < Loc(start, prog, i + 1)
    ensures start <= a < start + |image| && image[a - start] == 0
    ensures Loc(start, prog, i + 1) % Pow2(prog[i].order) == 0
  {
    EmitIsSized();
    AssembledLayout(Emit, start, prog, globals, image, i);
    PaddingIsLeast(Loc(start, prog, i), prog[i].order, 0);
    var here := Loc(start, prog, i);
    var zeros := Emit(prog[i], here, TargetOf(start, prog, globals, i).value);
    assert image[a - start] == zeros[a - here];
  }

  // ---- The order of the bytes ----

  lemma LittleEndian(a: Byte, b: Byte, c: Byte, d: Byte, n: nat)
    requires n == 4
    ensures ToBytes(a + 0x100 * b + 0x1_0000 * c + 0x100_0000 * d, n) == [a, b, c, d]
  {
    var w3, w2 := c + 0x100 * d, b + 0x100 * c + 0x1_0000 * d;
    var w := a + 0x100 * w2;
    DivModUnique(w, 256, w2, a);
    DivModUnique(w2, 256, w3, b);
    DivModUnique(w3, 256, d, c);
    assert ToBytes(w, n) == [a] + ToBytes(w2, n - 1);
    assert ToBytes(w2, n - 1) == [b] + ToBytes(w3, n - 2);
    assert ToBytes(w3, n - 2) == [c] + ToBytes(d, n - 3);
    assert ToBytes(d, n - 3) == [d] + ToBytes(d / 256, n - 4);
  }

  /** A real instruction is four bytes, the lowest one first. */
  lemma PlainBytes(i: Instruction, here: nat, there: nat, a: Byte, b: Byte, c: Byte, d: Byte)
    requires i.Plain? && Encode(i.code) == a + 0x100 * b + 0x1_0000 * c + 0x100_0000 * d
    ensures Emit(i, here, there) == [a, b, c, d]
  {
    var codes := [i.code];
    LittleEndian(a, b, c, d, 4);
    assert codes[1..] == [] && CodeBytes(codes[1..]) == [];
  }
}
