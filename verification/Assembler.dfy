/** The two pass assembler (src/assembler.rs): what a program means, and what the passes do. */
module Assembler {
  import opened Options
  import opened Arithmetic
  import opened MachineCode

  // ---- Programs ----

  datatype Label =
    | LocalLabel(name: string, direction: char)
    | GlobalLabel(name: string)
    | Absolute(address: Address)

  /** A real instruction without a label. */
  type PlainCode = c: Code | !c.Branch? && !c.Jump? witness Jr(0)

  datatype Instruction =
    | Plain(code: PlainCode)
    | BranchIf(op: BranchOp, target: Label)
    | JumpTo(link: bool, target: Label)
    | Global(name: string)
    | Local(name: string)
    | Align(order: nat)
    | Nop
    | Move(d: Reg, s: Reg)
    | Li(r: Reg, v: Address)
    | La(r: Reg, target: Label)
    | B(target: Label)
    | Beqz(r: Reg, target: Label)
    | Bnez(r: Reg, target: Label)
  {
    predicate HasLabel() {
      BranchIf? || JumpTo? || La? || B? || Beqz? || Bnez?
    }
  }

  type Program = seq<Instruction>

  datatype Error =
    | Redefined
    | UnknownGlobal
    | UnknownLocal
    | UnknownDirection
    | AddressOverflow
    | AlignmentOverflow

  datatype Result<T> = Ok(value: T) | Err(error: Error)

  // ---- Sizes ----

  function Negated(loc: nat): int {
    0 as int - loc
  }

  /** The low `order` bits of the two's complement of an address. */
  function PadToOrder(loc: nat, order: nat): (pad: nat)
    ensures pad < Pow2(order)
  {
    Negated(loc) % Pow2(order)
  }

  /** It is the smallest padding that reaches the alignment. */
  lemma PaddingIsLeast(loc: nat, order: nat, pad: nat)
    ensures (loc + PadToOrder(loc, order)) % Pow2(order) == 0
    ensures (loc + pad) % Pow2(order) == 0 ==> PadToOrder(loc, order) <= pad
  {
    var x: int := loc;
    var p: int := Pow2(order);
    var q := -x / p;
    assert -x == q * p + PadToOrder(loc, order);
    DivModUnique(loc + PadToOrder(loc, order), p, -q, 0);
    if (loc + pad) % p == 0 && pad < PadToOrder(loc, order) {
      var k := (x + pad) / p;
      assert x + pad == k * p;
      assert -x == (-k) * p + pad;
      DivModUnique(-x, p, -k, pad);
    }
  }

  /** The length of an instruction in bytes, as the first pass computes it. */
  function Bytes(i: Instruction, here: nat): nat {
    match i
    case Local(_) => 0
    case Global(_) => 0
    case Li(_, v) =>
      (if v / 0x1_0000 != 0 then 4 else 0) + (if v % 0x1_0000 != 0 || v == 0 then 4 else 0)
    case La(_, _) => 8
    case Align(o) => PadToOrder(here, o)
    case _ => 4
  }

  /** The address of instruction `k`, by the lengths of those before it. */
  function Loc(start: nat, prog: Program, k: nat): nat
    requires k <= |prog|
  {
    if k == 0 then start else Loc(start, prog, k - 1) + Bytes(prog[k - 1], Loc(start, prog, k - 1))
  }

  lemma {:induction false} LocIsMonotone(start: nat, prog: Program, j: nat, k: nat)
    requires j <= k <= |prog|
    ensures Loc(start, prog, j) <= Loc(start, prog, k)
    decreases k
  {
    if j < k {
      LocIsMonotone(start, prog, j, k - 1);
    }
  }

  // ---- The first pass ----

  datatype Labels = Labels(globals: map<string, nat>, locals: seq<(nat, string)>)

  /** The labels collected from the first `k` instructions. */
  function Scan(start: Address, prog: Program, globals: map<string, nat>, k: nat): (r: Result<Labels>)
    requires k <= |prog|
    ensures r.Ok? ==> Loc(start, prog, k) < ADDRESSES
  {
    if k == 0 then Ok(Labels(globals, []))
    else
      match Scan(start, prog, globals, k - 1)
      case Err(e) => Err(e)
      case Ok(l) => ScanOne(l, prog[k - 1], Loc(start, prog, k - 1))
  }

  function ScanOne(l: Labels, i: Instruction, here: nat): (r: Result<Labels>)
    requires here < ADDRESSES
    ensures r.Ok? ==> here + Bytes(i, here) < ADDRESSES
  {
    match i
    case Global(name) =>
      if name in l.globals then Err(Redefined) else Ok(l.(globals := l.globals[name := here]))
    case Local(name) => Ok(l.(locals := l.locals + [(here, name)]))
    case Align(order) => if order >= 32 then Err(AlignmentOverflow) else Advance(l, here + Bytes(i, here))
    case _ => Advance(l, here + Bytes(i, here))
  }

  function Advance(l: Labels, next: nat): Result<Labels> {
    if next >= ADDRESSES then Err(AddressOverflow) else Ok(l)
  }

  /** What makes the first pass succeed: no global is defined twice, alignments are below 32
      bits and the code before `k` ends below 4 GB. */
  ghost predicate Scannable(start: Address, prog: Program, globals: map<string, nat>, k: nat)
    requires k <= |prog|
  {
    && Loc(start, prog, k) < ADDRESSES
    && (forall i :: 0 <= i < k && prog[i].Global? ==> prog[i].name !in globals)
    && (forall i, j :: 0 <= i < j < k && prog[i].Global? && prog[j].Global? ==> prog[i].name != prog[j].name)
    && (forall i :: 0 <= i < k && prog[i].Align? ==> prog[i].order < 32)
  }

  /** The first pass succeeds on no other programs. */
  lemma {:induction false} ScanSucceeds(start: Address, prog: Program, globals: map<string, nat>, k: nat)
    requires k <= |prog|
    ensures Scan(start, prog, globals, k).Ok? <==> Scannable(start, prog, globals, k)
  {
    if k > 0 {
      ScanSucceeds(start, prog, globals, k - 1);
      LocIsMonotone(start, prog, k - 1, k);
      if Scan(start, prog, globals, k - 1).Ok? {
        if prog[k - 1].Global? {
          GlobalSearch(start, prog, globals, k - 1, prog[k - 1].name);
        }
        ScannableNext(start, prog, globals, k - 1, Scan(start, prog, globals, k - 1).value);
      }
    }
  }

  lemma ScannableNext(start: Address, prog: Program, globals: map<string, nat>, k: nat, l: Labels)
    requires k < |prog| && Scannable(start, prog, globals, k)
    requires prog[k].Global? ==>
      (prog[k].name in l.globals <==> Definition(prog, prog[k].name, k).Some? || prog[k].name in globals)
    ensures ScanOne(l, prog[k], Loc(start, prog, k)).Ok? <==> Scannable(start, prog, globals, k + 1)
  {
    var i := prog[k];
    if i.Global? && Definition(prog, i.name, k).Some? {
      assert prog[Definition(prog, i.name, k).value] == i;
    }
  }

  // ---- Labels, by address ----

  /** The last local of that name at or before `here`, from the end of the list. */
  function FindBack(locals: seq<(nat, string)>, here: nat, name: string): Option<nat> {
    if locals == [] then None
    else
      var (addr, n) := locals[|locals| - 1];
      if addr <= here && n == name then Some(addr) else FindBack(locals[..|locals| - 1], here, name)
  }

  /** The first local of that name after `here`, from the start of the list. */
  function FindForward(locals: seq<(nat, string)>, here: nat, name: string): Option<nat> {
    if locals == [] then None
    else
      var (addr, n) := locals[0];
      if addr > here && n == name then Some(addr) else FindForward(locals[1..], here, name)
  }

  function LabelAddress(l: Labels, here: nat, target: Label): Result<nat> {
    match target
    case GlobalLabel(name) => if name in l.globals then Ok(l.globals[name]) else Err(UnknownGlobal)
    case LocalLabel(name, d) =>
      if d == 'b' then Found(FindBack(l.locals, here, name))
      else if d == 'f' then Found(FindForward(l.locals, here, name))
      else Err(UnknownDirection)
    case Absolute(a) => Result<nat>.Ok(a)
  }

  function Found(a: Option<nat>): Result<nat> {
    if a.Some? then Ok(a.value) else Err(UnknownLocal)
  }

  // ---- Labels, by text ----

  /** The nearest definition of a local label before instruction `k`. */
  function LastBefore(prog: Program, name: string, k: nat): (r: Option<nat>)
    requires k <= |prog|
    ensures r.None? ==> forall j :: 0 <= j < k ==> prog[j] != Local(name)
    ensures r.Some? ==> r.value < k && prog[r.value] == Local(name)
    ensures r.Some? ==> forall j :: r.value < j < k ==> prog[j] != Local(name)
  {
    if k == 0 then None else if prog[k - 1] == Local(name) then Some(k - 1) else LastBefore(prog, name, k - 1)
  }

  /** The nearest definition after instruction `i` and before `k`. */
  function FirstAfter(prog: Program, name: string, i: nat, k: nat): (r: Option<nat>)
    requires k <= |prog|
    ensures r.None? ==> forall j :: i < j < k ==> prog[j] != Local(name)
    ensures r.Some? ==> i < r.value < k && prog[r.value] == Local(name)
    ensures r.Some? ==> forall j :: i < j < r.value ==> prog[j] != Local(name)
  {
    if k <= i + 1 then None
    else
      var r := FirstAfter(prog, name, i, k - 1);
      if r.Some? then r else if prog[k - 1] == Local(name) then Some(k - 1) else None
  }

  /** The definition of a global label. */
  function Definition(prog: Program, name: string, k: nat): (r: Option<nat>)
    requires k <= |prog|
    ensures r.None? ==> forall j :: 0 <= j < k ==> prog[j] != Global(name)
    ensures r.Some? ==> r.value < k && prog[r.value] == Global(name)
  {
    if k == 0 then None else if prog[k - 1] == Global(name) then Some(k - 1) else Definition(prog, name, k - 1)
  }

  /** Where a label of instruction `i` leads, by the text of the program. */
  function TextAddress(start: nat, prog: Program, globals: map<string, nat>, i: nat, target: Label): Result<nat>
    requires i < |prog|
  {
    match target
    case GlobalLabel(name) =>
      var d := Definition(prog, name, |prog|);
      if d.Some? then Ok(Loc(start, prog, d.value))
      else if name in globals then Ok(globals[name])
      else Err(UnknownGlobal)
    case LocalLabel(name, d) =>
      if d == 'b' then At(start, prog, LastBefore(prog, name, i))
      else if d == 'f' then At(start, prog, FirstAfter(prog, name, i, |prog|))
      else Err(UnknownDirection)
    case Absolute(a) => Result<nat>.Ok(a)
  }

  function At(start: nat, prog: Program, d: Option<nat>): Result<nat>
    requires d.Some? ==> d.value <= |prog|
  {
    if d.Some? then Ok(Loc(start, prog, d.value)) else Err(UnknownLocal)
  }

  // ---- The searches agree ----

  function MapLoc(start: nat, prog: Program, d: Option<nat>): Option<nat>
    requires d.Some? ==> d.value <= |prog|
  {
    if d.Some? then Some(Loc(start, prog, d.value)) else None
  }

  lemma FindBackSnoc(locals: seq<(nat, string)>, addr: nat, n: string, here: nat, name: string)
    ensures FindBack(locals + [(addr, n)], here, name) ==
            if addr <= here && n == name then Some(addr) else FindBack(locals, here, name)
  {
    var all := locals + [(addr, n)];
    assert all[..|all| - 1] == locals;
  }

  lemma {:induction false} FindForwardSnoc(locals: seq<(nat, string)>, addr: nat, n: string, here: nat, name: string)
    ensures FindForward(locals + [(addr, n)], here, name) ==
            if FindForward(locals, here, name).Some? then FindForward(locals, here, name)
            else if addr > here && n == name then Some(addr) else None
  {
    var all := locals + [(addr, n)];
    if locals == [] {
      assert all[1..] == [];
    } else {
      assert all[1..] == locals[1..] + [(addr, n)];
      FindForwardSnoc(locals[1..], addr, n, here, name);
    }
  }

  /** The locals after one more instruction. */
  lemma ScanLocals(start: Address, prog: Program, globals: map<string, nat>, k: nat) returns (before: seq<(nat, string)>)
    requires 0 < k <= |prog| && Scan(start, prog, globals, k).Ok?
    ensures Scan(start, prog, globals, k - 1).Ok? && before == Scan(start, prog, globals, k - 1).value.locals
    ensures Scan(start, prog, globals, k).value.locals == WithLocal(before, prog[k - 1], Loc(start, prog, k - 1))
  {
    before := Scan(start, prog, globals, k - 1).value.locals;
  }

  /** What one more label does to the searches. */
  lemma SearchSnoc(locals: seq<(nat, string)>, addr: nat, n: string, here: nat, name: string)
    ensures var all := locals + [(addr, n)];
      && (addr > here ==> FindBack(all, here, name) == FindBack(locals, here, name))
      && (addr <= here ==> FindForward(all, here, name) == FindForward(locals, here, name))
      && (addr <= here ==>
            FindBack(all, here, name) == if n == name then Some(addr) else FindBack(locals, here, name))
      && (addr > here ==>
            FindForward(all, here, name) ==
            if FindForward(locals, here, name).Some? || n != name then FindForward(locals, here, name) else Some(addr))
  {
    FindBackSnoc(locals, addr, n, here, name);
    FindForwardSnoc(locals, addr, n, here, name);
  }

  /** Going back from `here` finds the definition nearest before instruction `k`. */
  ghost predicate BackAgrees(start: nat, prog: Program, locals: seq<(nat, string)>, here: nat, name: string, k: nat)
    requires k <= |prog|
  {
    FindBack(locals, here, name) == MapLoc(start, prog, LastBefore(prog, name, k))
  }

  /** Going forward finds the one nearest after instruction `i`, if it is before `k`. */
  ghost predicate ForwardAgrees(start: nat, prog: Program, locals: seq<(nat, string)>, here: nat, name: string, i: nat, k: nat)
    requires k <= |prog|
  {
    FindForward(locals, here, name) == MapLoc(start, prog, FirstAfter(prog, name, i, k))
  }

  /** The locals with those of one more instruction. */
  function WithLocal(locals: seq<(nat, string)>, i: Instruction, at: nat): seq<(nat, string)> {
    if i.Local? then locals + [(at, i.name)] else locals
  }

  lemma StepBefore(start: nat, prog: Program, locals: seq<(nat, string)>, here: nat, name: string, k: nat)
    requires k < |prog| && Loc(start, prog, k) <= here
    requires BackAgrees(start, prog, locals, here, name, k) && FindForward(locals, here, name).None?
    ensures var more := WithLocal(locals, prog[k], Loc(start, prog, k));
      BackAgrees(start, prog, more, here, name, k + 1) && FindForward(more, here, name).None?
  {
    if prog[k].Local? {
      SearchSnoc(locals, Loc(start, prog, k), prog[k].name, here, name);
    }
  }

  lemma StepAfter(start: nat, prog: Program, locals: seq<(nat, string)>, here: nat, name: string, i: nat, k: nat)
    requires i < k < |prog| && here < Loc(start, prog, k)
    requires BackAgrees(start, prog, locals, here, name, i) && ForwardAgrees(start, prog, locals, here, name, i, k)
    ensures var more := WithLocal(locals, prog[k], Loc(start, prog, k));
      BackAgrees(start, prog, more, here, name, i) && ForwardAgrees(start, prog, more, here, name, i, k + 1)
  {
    if prog[k].Local? {
      SearchSnoc(locals, Loc(start, prog, k), prog[k].name, here, name);
    }
  }

  /** Before instruction `i` every label is at or before its address, so going back by address
      is going back by text; and nothing is found forward. */
  lemma {:induction false} SearchBefore(start: Address, prog: Program, globals: map<string, nat>, i: nat, k: nat, name: string)
    requires k <= i <= |prog| && Scan(start, prog, globals, k).Ok?
    ensures var locals, here := Scan(start, prog, globals, k).value.locals, Loc(start, prog, i);
      BackAgrees(start, prog, locals, here, name, k) && FindForward(locals, here, name).None?
  {
    if k > 0 {
      var locals := ScanLocals(start, prog, globals, k);
      SearchBefore(start, prog, globals, i, k - 1, name);
      LocIsMonotone(start, prog, k - 1, i);
      StepBefore(start, prog, locals, Loc(start, prog, i), name, k - 1);
    }
  }

  /** After an instruction with a length every label is past its address. */
  lemma {:induction false} SearchAfter(start: Address, prog: Program, globals: map<string, nat>, i: nat, k: nat, name: string)
    requires i < k <= |prog| && Scan(start, prog, globals, k).Ok?
    requires Loc(start, prog, i) < Loc(start, prog, i + 1)
    ensures var locals, here := Scan(start, prog, globals, k).value.locals, Loc(start, prog, i);
      BackAgrees(start, prog, locals, here, name, i) && ForwardAgrees(start, prog, locals, here, name, i, k)
  {
    var locals := ScanLocals(start, prog, globals, k);
    if k == i + 1 {
      SearchBefore(start, prog, globals, i, i, name);
      NotALabel(start, prog, i);
    } else {
      SearchAfter(start, prog, globals, i, k - 1, name);
      LocIsMonotone(start, prog, i + 1, k - 1);
      StepAfter(start, prog, locals, Loc(start, prog, i), name, i, k - 1);
    }
  }

  lemma NotALabel(start: nat, prog: Program, i: nat)
    requires i < |prog| && Loc(start, prog, i) < Loc(start, prog, i + 1)
    ensures !prog[i].Local?
  {
  }

  /** A global has the address of its definition, or the one it had before. */
  lemma {:induction false} GlobalSearch(start: Address, prog: Program, globals: map<string, nat>, k: nat, name: string)
    requires k <= |prog| && Scan(start, prog, globals, k).Ok?
    ensures var found, d := Scan(start, prog, globals, k).value.globals, Definition(prog, name, k);
      && (name in found <==> d.Some? || name in globals)
      && (name in found ==> found[name] == if d.Some? then Loc(start, prog, d.value) else globals[name])
      && (d.Some? ==> name !in globals)
  {
    if k > 0 {
      GlobalSearch(start, prog, globals, k - 1, name);
    }
  }

  /** Searching for a label by address, as the second pass does it, finds the definition that
      is meant by the text: for globals the one definition, for locals the nearest before or
      after the instruction, however many labels share an address. */
  lemma SearchesAgree(start: Address, prog: Program, globals: map<string, nat>, i: nat, target: Label)
    requires i < |prog| && Scan(start, prog, globals, |prog|).Ok? && Bytes(prog[i], Loc(start, prog, i)) > 0
    ensures LabelAddress(Scan(start, prog, globals, |prog|).value, Loc(start, prog, i), target)
         == TextAddress(start, prog, globals, i, target)
  {
    match target
    case GlobalLabel(name) => GlobalSearch(start, prog, globals, |prog|, name);
    case LocalLabel(name, d) => SearchAfter(start, prog, globals, i, |prog|, name);
    case Absolute(_) =>
  }
}
