/** The assembler as the emulator runs it: it appends to its machine code, instruction by
    instruction (src/assembler.rs). */
module AssemblerDevice {
  import opened Options
  import opened Memory
  import opened MachineCode
  import opened Assembler
  import opened CodeGeneration
  import opened MachineImage

  class AssemblerUnit {
    var machineCode: seq<Byte>
    const base: Address
    var globals: map<string, nat>
    var locals: seq<(nat, string)>

    constructor (base: Address)
      ensures Valid() && machineCode == [] && this.base == base && globals == map[]
    {
      this.base := base;
      machineCode, globals, locals := [], map[], [];
    }

    predicate Valid()
      reads this
    {
      Location() < ADDRESSES
    }

    function Location(): nat
      reads this
    {
      base + |machineCode|
    }

    function LabelsNow(): Labels
      reads this
    {
      Labels(globals, locals)
    }

    // ---- First pass ----

    method ParseLabels(prog: Program) returns (r: Result<Labels>)
      requires Valid() && locals == []
      modifies `globals, `locals
      ensures r == Scan(Location(), prog, old(globals), |prog|)
      ensures r.Ok? ==> r.value == LabelsNow()
    {
      ghost var start, g := Location(), globals;
      var loc := Location();
      for k := 0 to |prog|
        invariant loc == Loc(start, prog, k) < ADDRESSES
        invariant Scan(start, prog, g, k) == Ok(LabelsNow())
      {
        r := ScanOne(LabelsNow(), prog[k], loc);
        if r.Err? {
          ScanFails(start, prog, g, k);
          return;
        }
        globals, locals := r.value.globals, r.value.locals;
        loc := loc + Bytes(prog[k], loc);
      }
      r := Ok(LabelsNow());
    }

    // ---- Second pass ----

    method SearchBack(name: string, here: nat) returns (r: Option<nat>)
      ensures r == FindBack(locals, here, name)
    {
      var n: nat := |locals|;
      assert locals[..n] == locals;
      while n > 0
        invariant n <= |locals|
        invariant FindBack(locals, here, name) == FindBack(locals[..n], here, name)
      {
        var (addr, l) := locals[n - 1];
        assert locals[..n][..n - 1] == locals[..n - 1];
        if addr <= here && l == name {
          return Some(addr);
        }
        n := n - 1;
      }
      return None;
    }

    method SearchForward(name: string, here: nat) returns (r: Option<nat>)
      ensures r == FindForward(locals, here, name)
    {
      for n := 0 to |locals|
        invariant FindForward(locals, here, name) == FindForward(locals[n..], here, name)
      {
        var (addr, l) := locals[n];
        assert locals[n..][1..] == locals[n + 1..];
        if addr > here && l == name {
          return Some(addr);
        }
      }
      return None;
    }

    method Resolve(target: Label) returns (r: Result<nat>)
      ensures r == LabelAddress(LabelsNow(), Location(), target)
    {
      match target
      case GlobalLabel(name) =>
        if name in globals {
          return Ok(globals[name]);
        }
        return Err(UnknownGlobal);
      case LocalLabel(name, d) =>
        var found;
        if d == 'b' {
          found := SearchBack(name, Location());
        } else if d == 'f' {
          found := SearchForward(name, Location());
        } else {
          return Err(UnknownDirection);
        }
        return Found(found);
      case Absolute(a) =>
        return Ok(a);
    }

    method EmitBytes(bytes: seq<Byte>)
      modifies `machineCode
      ensures machineCode == old(machineCode) + bytes
    {
      for n := 0 to |bytes|
        invariant machineCode == old(machineCode) + bytes[..n]
      {
        machineCode := machineCode + [bytes[n]];
      }
    }

    method AssembleInstruction(emit: Emitter, i: Instruction) returns (r: Result<()>)
      modifies `machineCode
      ensures match GenerateOne(emit, LabelsNow(), i, old(Location()))
        case Err(e) => r == Err(e)
        case Ok(bytes) => r.Ok? && machineCode == old(machineCode) + bytes
    {
      if i.HasLabel() {
        var there := Resolve(i.target);
        if there.Err? {
          return Err(there.error);
        }
        EmitBytes(emit(i, Location(), there.value));
      } else {
        EmitBytes(emit(i, Location(), 0));
      }
      return Ok(());
    }

    method SecondPass(emit: Emitter, prog: Program, ghost labels: Labels) returns (r: Result<()>)
      requires Valid() && labels == LabelsNow()
      modifies `machineCode
      ensures match Generate(emit, old(Location()), prog, labels, |prog|)
        case Err(e) => r == Err(e)
        case Ok(image) => r.Ok? && machineCode == old(machineCode) + image
    {
      ghost var start, before := Location(), machineCode;
      ghost var code: seq<Byte> := [];
      for k := 0 to |prog|
        invariant Generate(emit, start, prog, labels, k) == Ok(code)
        invariant machineCode == before + code
      {
        ghost var one := GenerateOne(emit, labels, prog[k], start + |code|);
        GenerateNext(emit, start, prog, labels, k, code);
        r := AssembleInstruction(emit, prog[k]);
        if r.Err? {
          GenerateStaysFailed(emit, start, prog, labels, k + 1, |prog|);
          return;
        }
        code := code + one.value;
      }
      r := Ok(());
    }

    /** Assembles a program behind what was assembled before; global labels carry over, local
        ones do not. */
    method AssembleProgram(prog: Program) returns (r: Result<nat>)
      requires Valid()
      modifies this
      ensures match Assemble(Emit, old(Location()), prog, old(globals))
        case Err(e) => r == Err(e)
        case Ok(image) => r == Ok(|image|) && machineCode == old(machineCode) + image && Valid()
    {
      var start := Location();
      locals := [];
      var labels := ParseLabels(prog);
      if labels.Err? {
        return Err(labels.error);
      }
      var ok := SecondPass(Emit, prog, labels.value);
      if ok.Err? {
        return Err(ok.error);
      }
      EmitIsSized();
      PassesAgree(Emit, start, prog, labels.value, |prog|);
      return Ok(Location() - start);
    }
  }

  /** An error in the first pass is the result of the pass. */
  lemma {:induction false} ScanFails(start: Address, prog: Program, g: map<string, nat>, k: nat)
    requires k < |prog| && Scan(start, prog, g, k).Ok? && Scan(start, prog, g, k + 1).Err?
    ensures Scan(start, prog, g, |prog|) == Scan(start, prog, g, k + 1)
  {
    ScanStaysFailed(start, prog, g, k + 1, |prog|);
  }

  lemma {:induction false} ScanStaysFailed(start: Address, prog: Program, g: map<string, nat>, j: nat, k: nat)
    requires j <= k <= |prog| && Scan(start, prog, g, j).Err?
    ensures Scan(start, prog, g, k) == Scan(start, prog, g, j)
    decreases k
  {
    if j < k {
      ScanStaysFailed(start, prog, g, j, k - 1);
    }
  }

  lemma GenerateNext(emit: Emitter, start: Address, prog: Program, labels: Labels, k: nat, code: seq<Byte>)
    requires k < |prog| && Generate(emit, start, prog, labels, k) == Ok(code)
    ensures Generate(emit, start, prog, labels, k + 1) ==
            Append(code, GenerateOne(emit, labels, prog[k], start + |code|))
  {
  }

  lemma {:induction false} GenerateStaysFailed(
      emit: Emitter, start: Address, prog: Program, labels: Labels, j: nat, k: nat)
    requires j <= k <= |prog| && Generate(emit, start, prog, labels, j).Err?
    ensures Generate(emit, start, prog, labels, k) == Generate(emit, start, prog, labels, j)
    decreases k
  {
    if j < k {
      GenerateStaysFailed(emit, start, prog, labels, j, k - 1);
    }
  }
}
