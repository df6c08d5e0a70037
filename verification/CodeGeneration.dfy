/** The second pass of the assembler (src/assembler.rs), a reference that assembles from the
    text of the program alone, and the proof that they produce the same bytes. What the bytes
    of an instruction are does not matter here, only how many there are: `emit` gives them for
    an instruction, its address and the address its label leads to. */
module CodeGeneration {
  import opened Memory
  import opened MachineCode
  import opened Assembler

  type Emitter = (Instruction, nat, nat) -> seq<Byte>

  /** The second pass emits as many bytes as the first one counts. */
  ghost predicate Sized(emit: Emitter) {
    forall i: Instruction, here: nat, there: nat :: |emit(i, here, there)| == Bytes(i, here)
  }

  // ---- The second pass ----

  /** The code for the first `k` instructions, with labels looked up by address. */
  ghost function Generate(emit: Emitter, start: Address, prog: Program, labels: Labels, k: nat): Result<seq<Byte>>
    requires k <= |prog|
  {
    if k == 0 then Ok([])
    else
      match Generate(emit, start, prog, labels, k - 1)
      case Err(e) => Err(e)
      case Ok(code) => Append(code, GenerateOne(emit, labels, prog[k - 1], start + |code|))
  }

  ghost function GenerateOne(emit: Emitter, labels: Labels, i: Instruction, here: nat): Result<seq<Byte>> {
    if i.HasLabel() then EmitFor(emit, i, here, LabelAddress(labels, here, i.target)) else Ok(emit(i, here, 0))
  }

  ghost function EmitFor(emit: Emitter, i: Instruction, here: nat, there: Result<nat>): Result<seq<Byte>> {
    match there case Err(e) => Err(e) case Ok(a) => Ok(emit(i, here, a))
  }

  ghost function Append(code: seq<Byte>, more: Result<seq<Byte>>): Result<seq<Byte>> {
    match more case Err(e) => Err(e) case Ok(bytes) => Ok(code + bytes)
  }

  /** Both passes. */
  ghost function Assemble(emit: Emitter, start: Address, prog: Program, globals: map<string, nat>): Result<seq<Byte>> {
    match Scan(start, prog, globals, |prog|)
    case Err(e) => Err(e)
    case Ok(labels) => Generate(emit, start, prog, labels, |prog|)
  }

  lemma SizeOfOne(emit: Emitter, labels: Labels, i: Instruction, here: nat)
    requires Sized(emit) && GenerateOne(emit, labels, i, here).Ok?
    ensures |GenerateOne(emit, labels, i, here).value| == Bytes(i, here)
  {
  }

  /** When the second pass reaches an instruction, it is where the first pass said it would be;
      so each label has the address of the code that follows it, and the size returned is the
      number of bytes emitted. */
  lemma {:induction false} PassesAgree(emit: Emitter, start: Address, prog: Program, labels: Labels, k: nat)
    requires Sized(emit) && k <= |prog| && Generate(emit, start, prog, labels, k).Ok?
    ensures start + |Generate(emit, start, prog, labels, k).value| == Loc(start, prog, k)
  {
    if k > 0 {
      PassesAgree(emit, start, prog, labels, k - 1);
      SizeOfOne(emit, labels, prog[k - 1], Loc(start, prog, k - 1));
    }
  }

  // ---- The reference ----

  /** Where the label of instruction `i` leads, by the text, if it has one. */
  ghost function TargetOf(start: Address, prog: Program, globals: map<string, nat>, i: nat): Result<nat>
    requires i < |prog|
  {
    if prog[i].HasLabel() then TextAddress(start, prog, globals, i, prog[i].target) else Ok(0)
  }

  /** The bytes of instruction `i`, from the text of the program alone. */
  ghost function Meaning(emit: Emitter, start: Address, prog: Program, globals: map<string, nat>, i: nat): Result<seq<Byte>>
    requires i < |prog|
  {
    EmitFor(emit, prog[i], Loc(start, prog, i), TargetOf(start, prog, globals, i))
  }

  /** The bytes of the first `k` instructions, one after the other. */
  ghost function Reference(emit: Emitter, start: Address, prog: Program, globals: map<string, nat>, k: nat): Result<seq<Byte>>
    requires k <= |prog|
  {
    if k == 0 then Ok([])
    else
      match Reference(emit, start, prog, globals, k - 1)
      case Err(e) => Err(e)
      case Ok(code) => Append(code, Meaning(emit, start, prog, globals, k - 1))
  }

  lemma LabelsNeedBytes(i: Instruction, here: nat)
    requires i.HasLabel()
    ensures Bytes(i, here) > 0
  {
  }

  lemma OneIsMeaning(emit: Emitter, start: Address, prog: Program, globals: map<string, nat>, labels: Labels, i: nat)
    requires i < |prog| && Scan(start, prog, globals, |prog|) == Ok(labels)
    ensures GenerateOne(emit, labels, prog[i], Loc(start, prog, i)) == Meaning(emit, start, prog, globals, i)
  {
    if prog[i].HasLabel() {
      LabelsNeedBytes(prog[i], Loc(start, prog, i));
      SearchesAgree(start, prog, globals, i, prog[i].target);
    }
  }

  /** Both ways to assemble, one instruction further. */
  lemma OneFurther(emit: Emitter, start: Address, prog: Program, globals: map<string, nat>, labels: Labels, k: nat)
    requires Sized(emit) && k < |prog|
    requires Generate(emit, start, prog, labels, k) == Reference(emit, start, prog, globals, k)
    requires GenerateOne(emit, labels, prog[k], Loc(start, prog, k)) == Meaning(emit, start, prog, globals, k)
    ensures Generate(emit, start, prog, labels, k + 1) == Reference(emit, start, prog, globals, k + 1)
  {
    if Generate(emit, start, prog, labels, k).Ok? {
      PassesAgree(emit, start, prog, labels, k);
    }
  }

  lemma {:induction false} GenerateIsReference(
      emit: Emitter, start: Address, prog: Program, globals: map<string, nat>, labels: Labels, k: nat)
    requires Sized(emit) && k <= |prog| && Scan(start, prog, globals, |prog|) == Ok(labels)
    ensures Generate(emit, start, prog, labels, k) == Reference(emit, start, prog, globals, k)
  {
    if k > 0 {
      var n := k - 1;
      GenerateIsReference(emit, start, prog, globals, labels, n);
      OneIsMeaning(emit, start, prog, globals, labels, n);
      OneFurther(emit, start, prog, globals, labels, n);
    }
  }

  /** Assembling a program gives what its text means, or fails as its text does, as soon as
      the labels are unique and all addresses fit. */
  lemma AssembleIsReference(emit: Emitter, start: Address, prog: Program, globals: map<string, nat>)
    requires Sized(emit)
    ensures Assemble(emit, start, prog, globals) ==
            match Scan(start, prog, globals, |prog|)
            case Err(e) => Err(e)
            case Ok(_) => Reference(emit, start, prog, globals, |prog|)
  {
    if Scan(start, prog, globals, |prog|).Ok? {
      GenerateIsReference(emit, start, prog, globals, Scan(start, prog, globals, |prog|).value, |prog|);
    }
  }

  lemma {:induction false} ReferenceSucceeds(
      emit: Emitter, start: Address, prog: Program, globals: map<string, nat>, k: nat)
    requires k <= |prog|
    ensures Reference(emit, start, prog, globals, k).Ok?
      <==> forall i :: 0 <= i < k ==> TargetOf(start, prog, globals, i).Ok?
  {
    if k > 0 {
      ReferenceSucceeds(emit, start, prog, globals, k - 1);
    }
  }

  /** A program assembles if and only if its globals are unique, its alignments and addresses
      fit and each of its labels is defined where the text looks for it. */
  lemma AssembleSucceeds(emit: Emitter, start: Address, prog: Program, globals: map<string, nat>)
    requires Sized(emit)
    ensures Assemble(emit, start, prog, globals).Ok?
      <==> (&& Scannable(start, prog, globals, |prog|)
            && forall i :: 0 <= i < |prog| ==> TargetOf(start, prog, globals, i).Ok?)
  {
    ScanSucceeds(start, prog, globals, |prog|);
    AssembleIsReference(emit, start, prog, globals);
    ReferenceSucceeds(emit, start, prog, globals, |prog|);
  }

  // ---- Where the code lies ----

  /** `piece` is found in `code` from address `a` on. */
  ghost predicate LiesAt(code: seq<Byte>, start: nat, a: nat, piece: seq<Byte>) {
    start <= a && a - start + |piece| <= |code| && code[a - start..a - start + |piece|] == piece
  }

  lemma LiesAtEnd(before: seq<Byte>, bytes: seq<Byte>, start: nat)
    ensures LiesAt(before + bytes, start, start + |before|, bytes)
  {
    assert (before + bytes)[|before|..|before| + |bytes|] == bytes;
  }

  lemma LiesInPrefix(before: seq<Byte>, bytes: seq<Byte>, start: nat, a: nat, piece: seq<Byte>)
    requires LiesAt(before, start, a, piece)
    ensures LiesAt(before + bytes, start, a, piece)
  {
    var x, y := a - start, a - start + |piece|;
    assert (before + bytes)[x..y] == before[x..y];
  }

  lemma SliceOfSlice(code: seq<Byte>, a: nat, m: nat, x: nat, n: nat)
    requires a + m <= |code| && x + n <= m
    ensures code[a..a + m][x..x + n] == code[a + x..a + x + n]
  {
    var whole, part := code[a..a + m], code[a + x..a + x + n];
    forall k | 0 <= k < n ensures whole[x..x + n][k] == part[k] {
      assert whole[x + k] == code[a + (x + k)];
    }
  }

  lemma LiesWithin(code: seq<Byte>, start: nat, a: nat, piece: seq<Byte>, x: nat, n: nat)
    requires LiesAt(code, start, a, piece) && x + n <= |piece|
    ensures LiesAt(code, start, a + x, piece[x..x + n])
  {
    SliceOfSlice(code, a - start, |piece|, x, n);
  }

  lemma {:induction false} SizeOfReference(emit: Emitter, start: Address, prog: Program, globals: map<string, nat>, k: nat)
    requires Sized(emit) && k <= |prog| && Reference(emit, start, prog, globals, k).Ok?
    ensures start + |Reference(emit, start, prog, globals, k).value| == Loc(start, prog, k)
  {
    if k > 0 {
      SizeOfReference(emit, start, prog, globals, k - 1);
    }
  }

  /** The last instruction and those before it. */
  lemma LastPiece(emit: Emitter, start: Address, prog: Program, globals: map<string, nat>, k: nat)
    returns (before: seq<Byte>, bytes: seq<Byte>)
    requires Sized(emit) && 0 < k <= |prog| && Reference(emit, start, prog, globals, k).Ok?
    ensures Reference(emit, start, prog, globals, k - 1) == Ok(before)
    ensures Meaning(emit, start, prog, globals, k - 1) == Ok(bytes)
    ensures Reference(emit, start, prog, globals, k) == Ok(before + bytes)
    ensures start + |before| == Loc(start, prog, k - 1)
  {
    before := Reference(emit, start, prog, globals, k - 1).value;
    bytes := Meaning(emit, start, prog, globals, k - 1).value;
    SizeOfReference(emit, start, prog, globals, k - 1);
  }

  /** The code of each instruction lies at its address. */
  lemma {:induction false} PieceOfReference(
      emit: Emitter, start: Address, prog: Program, globals: map<string, nat>, i: nat, k: nat)
    requires Sized(emit) && i < k <= |prog| && Reference(emit, start, prog, globals, k).Ok?
    ensures Meaning(emit, start, prog, globals, i).Ok?
    ensures LiesAt(Reference(emit, start, prog, globals, k).value, start, Loc(start, prog, i),
                   Meaning(emit, start, prog, globals, i).value)
  {
    var before, bytes := LastPiece(emit, start, prog, globals, k);
    if i == k - 1 {
      LiesAtEnd(before, bytes, start);
    } else {
      PieceOfReference(emit, start, prog, globals, i, k - 1);
      LiesInPrefix(before, bytes, start, Loc(start, prog, i), Meaning(emit, start, prog, globals, i).value);
    }
  }

  /** In an assembled program every label has an address, and the bytes of each instruction
      lie where the first pass put it, built for the addresses its text means. */
  lemma AssembledLayout(
      emit: Emitter, start: Address, prog: Program, globals: map<string, nat>, image: seq<Byte>, i: nat)
    requires Sized(emit) && i < |prog| && Assemble(emit, start, prog, globals) == Ok(image)
    ensures start + |image| == Loc(start, prog, |prog|)
    ensures TargetOf(start, prog, globals, i).Ok?
    ensures LiesAt(image, start, Loc(start, prog, i),
                   emit(prog[i], Loc(start, prog, i), TargetOf(start, prog, globals, i).value))
  {
    AssembleIsReference(emit, start, prog, globals);
    SizeOfReference(emit, start, prog, globals, |prog|);
    PieceOfReference(emit, start, prog, globals, i, |prog|);
  }
}
