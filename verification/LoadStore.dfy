/** The CPU's load delay slot and the instructions for unaligned words: LWL, LWR, SWL and SWR
    (src/cpu/mod.rs).

    A 32 bit value is its four bytes here, lowest first: the masks and shifts of these
    instructions move whole bytes. `Merge*Value` ties the byte moves to the masks. */
module LoadStore {
  import opened Arithmetic
  import opened Memory

  datatype Word = Word(b0: Byte, b1: Byte, b2: Byte, b3: Byte) {
    function Value(): nat {
      b0 + 0x100 * b1 + 0x1_0000 * b2 + 0x100_0000 * b3
    }

    function At(i: nat): Byte {
      if i == 0 then b0 else if i == 1 then b1 else if i == 2 then b2 else b3
    }
  }

  const ZERO: Word := Word(0, 0, 0, 0)

  predicate InRam(addr: nat) {
    addr < WORD_RANGE && MaskRegion(addr) < 0x80_0000
  }

  /** The byte of RAM at a CPU address; the 2 MB are mirrored. Regions and mirrors start on
      word boundaries, so the position within the word is that of the address. */
  function Cell(addr: nat): (o: Cells)
    requires InRam(addr)
    ensures o % 4 == addr % 4
  {
    MaskRegion(addr) % RAM_SIZE
  }

  /** RAM is in the first 8 MB of KUSEG, KSEG0 and KSEG1, and the low 21 bits of an address say
      where. */
  lemma RamAddresses(addr: nat)
    requires addr < WORD_RANGE
    ensures InRam(addr) <==>
      (addr / 0x2000_0000 == 0 || addr / 0x2000_0000 == 4 || addr / 0x2000_0000 == 5) && addr % 0x2000_0000 < 0x80_0000
    ensures InRam(addr) ==> Cell(addr) == addr % 0x20_0000
  {
    RegionMasks(addr);
  }

  type Cells = o: nat | o < RAM_SIZE

  /** The `j`th cell after `o`, around the end of RAM. */
  function Next(o: Cells, j: nat): Cells
    requires j <= 3
  {
    if o + j < RAM_SIZE then o + j else o + j - RAM_SIZE
  }

  lemma CellOfNext(a: nat, j: nat)
    requires InRam(a) && InRam(a + 3) && j <= 3
    ensures InRam(a + j) && Cell(a + j) == Next(Cell(a), j)
  {
    assert MaskRegion(a + j) == MaskRegion(a) + j;
  }

  /** The first cell of the aligned word that holds cell `o`. */
  function WordStart(o: Cells): (s: Cells)
    ensures s % 4 == 0 && s <= o <= s + 3 < RAM_SIZE && o % 4 == o - s
  {
    o - o % 4
  }

  function WordAround(mem: seq<Byte>, o: Cells): Word
    requires IsRam(mem)
  {
    var s := WordStart(o);
    Word(mem[s], mem[s + 1], mem[s + 2], mem[s + 3])
  }

  function WithWordAround(mem: seq<Byte>, o: Cells, w: Word): (r: seq<Byte>)
    requires IsRam(mem)
    ensures IsRam(r)
  {
    var s := WordStart(o);
    mem[s := w.b0][s + 1 := w.b1][s + 2 := w.b2][s + 3 := w.b3]
  }

  /** The little endian word whose first byte is in cell `o`. */
  function UnalignedWord(mem: seq<Byte>, o: Cells): Word
    requires IsRam(mem)
  {
    Word(mem[o], mem[Next(o, 1)], mem[Next(o, 2)], mem[Next(o, 3)])
  }

  // ---- Merging ----

  /** LWL keeps the low bytes of the register and takes the rest from the aligned word. */
  function MergeLoadLeft(cur: Word, word: Word, align: nat): Word {
    if align == 0 then Word(cur.b0, cur.b1, cur.b2, word.b0)
    else if align == 1 then Word(cur.b0, cur.b1, word.b0, word.b1)
    else if align == 2 then Word(cur.b0, word.b0, word.b1, word.b2)
    else word
  }

  /** LWR keeps the high bytes. */
  function MergeLoadRight(cur: Word, word: Word, align: nat): Word {
    if align == 0 then word
    else if align == 1 then Word(word.b1, word.b2, word.b3, cur.b3)
    else if align == 2 then Word(word.b2, word.b3, cur.b2, cur.b3)
    else Word(word.b3, cur.b1, cur.b2, cur.b3)
  }

  /** SWL replaces the low bytes of the aligned word by the high bytes of the register. */
  function MergeStoreLeft(word: Word, v: Word, align: nat): Word {
    if align == 0 then Word(v.b3, word.b1, word.b2, word.b3)
    else if align == 1 then Word(v.b2, v.b3, word.b2, word.b3)
    else if align == 2 then Word(v.b1, v.b2, v.b3, word.b3)
    else v
  }

  /** SWR replaces its high bytes by the low bytes of the register. */
  function MergeStoreRight(word: Word, v: Word, align: nat): Word {
    if align == 0 then v
    else if align == 1 then Word(word.b0, v.b0, v.b1, v.b2)
    else if align == 2 then Word(word.b0, word.b1, v.b0, v.b1)
    else Word(word.b0, word.b1, word.b2, v.b0)
  }

  /** A value masked and shifted by one, two or three bytes. */
  lemma WordParts(w: Word)
    ensures w.Value() % 0x100 == w.b0
    ensures w.Value() / 0x100 == w.b1 + 0x100 * w.b2 + 0x1_0000 * w.b3
    ensures w.Value() % 0x1_0000 == w.b0 + 0x100 * w.b1
    ensures w.Value() / 0x1_0000 == w.b2 + 0x100 * w.b3
    ensures w.Value() % 0x100_0000 == w.b0 + 0x100 * w.b1 + 0x1_0000 * w.b2
    ensures w.Value() / 0x100_0000 == w.b3
  {
    DivModUnique(w.Value(), 0x100, w.b1 + 0x100 * w.b2 + 0x1_0000 * w.b3, w.b0);
    DivModUnique(w.Value(), 0x1_0000, w.b2 + 0x100 * w.b3, w.b0 + 0x100 * w.b1);
    DivModUnique(w.Value(), 0x100_0000, w.b3, w.b0 + 0x100 * w.b1 + 0x1_0000 * w.b2);
  }

  /** The masks and shifts of the load instructions, in arithmetic. */
  lemma MergeLoadValue(cur: Word, word: Word)
    ensures var c, w := cur.Value(), word.Value();
      && MergeLoadLeft(cur, word, 0).Value() == c % 0x100_0000 + (w % 0x100) * 0x100_0000
      && MergeLoadLeft(cur, word, 1).Value() == c % 0x1_0000 + (w % 0x1_0000) * 0x1_0000
      && MergeLoadLeft(cur, word, 2).Value() == c % 0x100 + (w % 0x100_0000) * 0x100
      && MergeLoadRight(cur, word, 1).Value() == c - c % 0x100_0000 + w / 0x100
      && MergeLoadRight(cur, word, 2).Value() == c - c % 0x1_0000 + w / 0x1_0000
      && MergeLoadRight(cur, word, 3).Value() == c - c % 0x100 + w / 0x100_0000
  {
    WordParts(cur);
    WordParts(word);
  }

  /** The masks and shifts of the store instructions, in arithmetic. */
  lemma MergeStoreValue(word: Word, v: Word)
    ensures var w, x := word.Value(), v.Value();
      && MergeStoreLeft(word, v, 0).Value() == w - w % 0x100 + x / 0x100_0000
      && MergeStoreLeft(word, v, 1).Value() == w - w % 0x1_0000 + x / 0x1_0000
      && MergeStoreLeft(word, v, 2).Value() == w - w % 0x100_0000 + x / 0x100
      && MergeStoreRight(word, v, 1).Value() == w % 0x100 + (x % 0x100_0000) * 0x100
      && MergeStoreRight(word, v, 2).Value() == w % 0x1_0000 + (x % 0x1_0000) * 0x1_0000
      && MergeStoreRight(word, v, 3).Value() == w % 0x100_0000 + (x % 0x100) * 0x100_0000
  {
    WordParts(word);
    WordParts(v);
  }

  // ---- Registers ----

  /** The CPU as far as loads and stores see it: a load takes effect one instruction late. */
  datatype Cpu = Cpu(regs: seq<Word>, loadReg: nat, loadVal: Word, mem: seq<Byte>) {
    ghost predicate Valid() {
      |regs| == 32 && regs[0] == ZERO && loadReg < 32 && IsRam(mem)
    }

    function SetReg(r: nat, v: Word): Cpu
      requires |regs| == 32 && r < 32
    {
      this.(regs := regs[r := v][0 := ZERO])
    }

    function DelayedLoad(): Cpu
      requires |regs| == 32 && loadReg < 32
    {
      SetReg(loadReg, loadVal).(loadReg := 0, loadVal := ZERO)
    }

    /** Starts a load, finishing the pending one unless it has the same target. */
    function DelayedLoadChain(r: nat, v: Word): Cpu
      requires |regs| == 32 && loadReg < 32 && r < 32
    {
      (if loadReg != r then SetReg(loadReg, loadVal) else this).(loadReg := r, loadVal := v)
    }

    /** The register as the unaligned loads see it, the pending load included. */
    function Current(r: nat): Word
      requires |regs| == 32 && r < 32
    {
      if loadReg == r then loadVal else regs[r]
    }

    /** The register once the pending load is done. */
    function Settled(r: nat): Word
      requires |regs| == 32 && r < 32
    {
      if r == 0 then ZERO else Current(r)
    }
  }

  // ---- Instructions ----

  /** An instruction with its target register and its effective address: the base register
      plus the sign extended immediate. */
  datatype Op =
    | Lwl(t: nat, a: nat)
    | Lwr(t: nat, a: nat)
    | Swl(t: nat, a: nat)
    | Swr(t: nat, a: nat)
    | Nop

  predicate CanExec(op: Op) {
    op.Nop? || (op.t < 32 && InRam(op.a))
  }

  function Exec(c: Cpu, op: Op): (r: Cpu)
    requires c.Valid() && CanExec(op)
    ensures r.Valid()
  {
    match op
    case Lwl(t, a) =>
      c.DelayedLoadChain(t, MergeLoadLeft(c.Current(t), WordAround(c.mem, Cell(a)), Cell(a) % 4))
    case Lwr(t, a) =>
      c.DelayedLoadChain(t, MergeLoadRight(c.Current(t), WordAround(c.mem, Cell(a)), Cell(a) % 4))
    case Swl(t, a) => c.DelayedLoad().(mem := StoreLeft(c.mem, Cell(a), c.regs[t]))
    case Swr(t, a) => c.DelayedLoad().(mem := StoreRight(c.mem, Cell(a), c.regs[t]))
    case Nop => c.DelayedLoad().SetReg(0, ZERO)
  }

  /** A new load is not seen yet; the pending one is, unless the new one has its register. */
  lemma ChainReplaces(c: Cpu, r: nat, v: Word, x: nat)
    requires c.Valid() && r < 32 && x < 32
    ensures c.DelayedLoadChain(r, v).regs[x] == if x == c.loadReg && x != r && x != 0 then c.loadVal else c.regs[x]
    ensures c.DelayedLoadChain(r, v).Settled(x) == if x == 0 then ZERO else if x == r then v else c.Settled(x)
  {
  }

  function StoreRight(mem: seq<Byte>, o: Cells, v: Word): (r: seq<Byte>)
    requires IsRam(mem)
    ensures IsRam(r)
  {
    WithWordAround(mem, o, MergeStoreRight(WordAround(mem, o), v, o % 4))
  }

  function StoreLeft(mem: seq<Byte>, o: Cells, v: Word): (r: seq<Byte>)
    requires IsRam(mem)
    ensures IsRam(r)
  {
    WithWordAround(mem, o, MergeStoreLeft(WordAround(mem, o), v, o % 4))
  }

  // ---- Unaligned loads ----

  /** The position within its word of the last byte of the word in cell `o`. */
  lemma LastByte(o: Cells)
    ensures Next(o, 3) % 4 == if o % 4 == 0 then 3 else o % 4 - 1
    ensures o % 4 == 0 ==> WordStart(Next(o, 3)) == WordStart(o)
    ensures o % 4 != 0 ==> WordStart(Next(o, 3)) == Next(o, 4 - o % 4) == Next(WordStart(o) + 1, 3)
  {
  }

  /** Both loads of the word in cell `o`, in either order, replace all of the register. */
  lemma BothLoads(mem: seq<Byte>, o: Cells, cur: Word)
    requires IsRam(mem)
    ensures var l := Next(o, 3);
      && MergeLoadLeft(MergeLoadRight(cur, WordAround(mem, o), o % 4), WordAround(mem, l), l % 4) == UnalignedWord(mem, o)
      && MergeLoadRight(MergeLoadLeft(cur, WordAround(mem, l), l % 4), WordAround(mem, o), o % 4) == UnalignedWord(mem, o)
  {
    LastByte(o);
  }

  function Between(c: Cpu, gap: bool): Cpu
    requires c.Valid()
  {
    if gap then Exec(c, Nop) else c
  }

  /** What a pair of loads to `t`, with or without a NOP between them, and one more NOP do. */
  lemma LoadsSettle(c: Cpu, gap: bool, t: nat, v1: Word, v2: Word)
    requires c.Valid() && 0 < t < 32
    ensures var c2 := Between(c.DelayedLoadChain(t, v1), gap);
      && c2.mem == c.mem && c2.Current(t) == v1
      && var c3 := Exec(c2.DelayedLoadChain(t, v2), Nop);
         && c3.mem == c.mem && c3.regs[t] == v2
         && forall r :: 0 <= r < 32 && r != t ==> c3.regs[r] == c.Settled(r)
  {
  }

  /** The unaligned load: LWR at `a` and LWL at `a + 3`, in either order, back to back or with
      a NOP between them, deliver the little endian word at `a` after the load
      delay, and finish whatever load was pending before. */
  lemma UnalignedLoad(c: Cpu, gap: bool, t: nat, a: nat)
    requires c.Valid() && InRam(a) && InRam(a + 3) && 0 < t < 32
    ensures var rl := Exec(Exec(Between(Exec(c, Lwr(t, a)), gap), Lwl(t, a + 3)), Nop);
      var lr := Exec(Exec(Between(Exec(c, Lwl(t, a + 3)), gap), Lwr(t, a)), Nop);
      && rl.mem == lr.mem == c.mem
      && rl.regs[t] == lr.regs[t] == UnalignedWord(c.mem, Cell(a))
      && forall r :: 0 <= r < 32 && r != t ==> rl.regs[r] == lr.regs[r] == c.Settled(r)
  {
    CellOfNext(a, 3);
    BothLoads(c.mem, Cell(a), c.Current(t));
    var cur, x, y := c.Current(t), WordAround(c.mem, Cell(a)), WordAround(c.mem, Cell(a + 3));
    var u := UnalignedWord(c.mem, Cell(a));
    LoadsSettle(c, gap, t, MergeLoadRight(cur, x, Cell(a) % 4), u);
    LoadsSettle(c, gap, t, MergeLoadLeft(cur, y, Cell(a + 3) % 4), u);
  }

  // ---- Unaligned stores ----

  /** SWR writes from its address to the end of the aligned word. */
  lemma StoreRightCells(mem: seq<Byte>, o: Cells, v: Word, i: Cells)
    requires IsRam(mem)
    ensures StoreRight(mem, o, v)[i] == if o <= i <= WordStart(o) + 3 then v.At(i - o) else mem[i]
  {
  }

  /** SWL writes from the start of the aligned word to its address. */
  lemma StoreLeftCells(mem: seq<Byte>, o: Cells, v: Word, i: Cells)
    requires IsRam(mem)
    ensures StoreLeft(mem, o, v)[i] == if WordStart(o) <= i <= o then v.At(3 - (o - i)) else mem[i]
  {
  }

  /** Cell `i` is the `j`th of the four from `o`. */
  predicate IsNth(o: Cells, i: Cells, j: nat) {
    j <= 3 && i == Next(o, j)
  }

  /** The word left behind when the part up to the end of the first aligned word comes from
      `x` and the rest from `y`. An aligned word comes from `y` alone. */
  function Torn(x: Word, y: Word, align: nat): Word {
    if align == 0 then y
    else if align == 1 then Word(x.b0, x.b1, x.b2, y.b3)
    else if align == 2 then Word(x.b0, x.b1, y.b2, y.b3)
    else Word(x.b0, y.b1, y.b2, y.b3)
  }

  /** Cell `i` of `after` holds the right byte of `w` if it is one of the four from `o`, and is
      as in `mem` otherwise. */
  ghost predicate CellReplaced(mem: seq<Byte>, after: seq<Byte>, o: Cells, w: Word, i: Cells)
    requires IsRam(mem) && IsRam(after)
  {
    && (forall j :: 0 <= j <= 3 && IsNth(o, i, j) ==> after[i] == w.At(j))
    && ((forall j :: 0 <= j <= 3 ==> !IsNth(o, i, j)) ==> after[i] == mem[i])
  }

  lemma RightLeftCell(mem: seq<Byte>, o: Cells, x: Word, y: Word, i: Cells)
    requires IsRam(mem)
    ensures CellReplaced(mem, StoreLeft(StoreRight(mem, o, x), Next(o, 3), y), o, Torn(x, y, o % 4), i)
  {
    LastByte(o);
    StoreRightCells(mem, o, x, i);
    StoreLeftCells(StoreRight(mem, o, x), Next(o, 3), y, i);
    assert IsNth(o, i, 0) || IsNth(o, i, 1) || IsNth(o, i, 2) || IsNth(o, i, 3)
      || forall j :: 0 <= j <= 3 ==> !IsNth(o, i, j);
  }

  lemma LeftRightCell(mem: seq<Byte>, o: Cells, x: Word, y: Word, i: Cells)
    requires IsRam(mem)
    ensures CellReplaced(mem, StoreRight(StoreLeft(mem, Next(o, 3), x), o, y), o,
                         if o % 4 == 0 then y else Torn(y, x, o % 4), i)
  {
    LastByte(o);
    StoreLeftCells(mem, Next(o, 3), x, i);
    StoreRightCells(StoreLeft(mem, Next(o, 3), x), o, y, i);
    assert IsNth(o, i, 0) || IsNth(o, i, 1) || IsNth(o, i, 2) || IsNth(o, i, 3)
      || forall j :: 0 <= j <= 3 ==> !IsNth(o, i, j);
  }

  /** `after` is `mem` with the four bytes from cell `o` replaced by those of `v`, and nothing
      else. */
  ghost predicate WordReplaced(mem: seq<Byte>, after: seq<Byte>, o: Cells, v: Word)
    requires IsRam(mem) && IsRam(after)
  {
    UnalignedWord(after, o) == v && forall i: Cells :: CellReplaced(mem, after, o, v, i)
  }

  lemma ReplacedByCells(mem: seq<Byte>, after: seq<Byte>, o: Cells, v: Word)
    requires IsRam(mem) && IsRam(after) && forall i: Cells :: CellReplaced(mem, after, o, v, i)
    ensures WordReplaced(mem, after, o, v)
  {
    assert CellReplaced(mem, after, o, v, o) && CellReplaced(mem, after, o, v, Next(o, 1));
    assert CellReplaced(mem, after, o, v, Next(o, 2)) && CellReplaced(mem, after, o, v, Next(o, 3));
    assert IsNth(o, o, 0) && IsNth(o, Next(o, 1), 1) && IsNth(o, Next(o, 2), 2) && IsNth(o, Next(o, 3), 3);
  }

  /** SWR of `x` followed by SWL of `y`. */
  lemma RightLeft(mem: seq<Byte>, o: Cells, x: Word, y: Word)
    requires IsRam(mem)
    ensures WordReplaced(mem, StoreLeft(StoreRight(mem, o, x), Next(o, 3), y), o, Torn(x, y, o % 4))
  {
    var after, w := StoreLeft(StoreRight(mem, o, x), Next(o, 3), y), Torn(x, y, o % 4);
    forall i: Cells ensures CellReplaced(mem, after, o, w, i) {
      RightLeftCell(mem, o, x, y, i);
    }
    ReplacedByCells(mem, after, o, w);
  }

  /** SWL of `x` followed by SWR of `y`. */
  lemma LeftRight(mem: seq<Byte>, o: Cells, x: Word, y: Word)
    requires IsRam(mem)
    ensures WordReplaced(mem, StoreRight(StoreLeft(mem, Next(o, 3), x), o, y), o,
                         if o % 4 == 0 then y else Torn(y, x, o % 4))
  {
    var after, w := StoreRight(StoreLeft(mem, Next(o, 3), x), o, y), if o % 4 == 0 then y else Torn(y, x, o % 4);
    forall i: Cells ensures CellReplaced(mem, after, o, w, i) {
      LeftRightCell(mem, o, x, y, i);
    }
    ReplacedByCells(mem, after, o, w);
  }

  lemma DelayedLoadOnce(c: Cpu, mem: seq<Byte>)
    requires c.Valid() && IsRam(mem)
    ensures c.DelayedLoad().Valid() && c.DelayedLoad().loadReg == 0
    ensures forall r :: 0 <= r < 32 ==> c.DelayedLoad().regs[r] == c.Settled(r)
    ensures c.DelayedLoad().(mem := mem).DelayedLoad() == c.DelayedLoad().(mem := mem)
  {
  }

  /** The unaligned store: SWR at `a` and SWL at `a + 3`, in either order, write four bytes at
      `a` and no others. They are the register's bytes, those of the second instruction's word
      taken after the load that was pending. */
  lemma UnalignedStore(c: Cpu, t: nat, a: nat)
    requires c.Valid() && InRam(a) && InRam(a + 3) && t < 32
    ensures var rl, lr := Exec(Exec(c, Swr(t, a)), Swl(t, a + 3)), Exec(Exec(c, Swl(t, a + 3)), Swr(t, a));
      var x, y := c.regs[t], c.Settled(t);
      && WordReplaced(c.mem, rl.mem, Cell(a), Torn(x, y, a % 4))
      && WordReplaced(c.mem, lr.mem, Cell(a), if a % 4 == 0 then y else Torn(y, x, a % 4))
      && rl.loadReg == lr.loadReg == 0
      && forall r :: 0 <= r < 32 ==> rl.regs[r] == lr.regs[r] == c.Settled(r)
  {
    CellOfNext(a, 3);
    RightLeft(c.mem, Cell(a), c.regs[t], c.Settled(t));
    LeftRight(c.mem, Cell(a), c.regs[t], c.Settled(t));
    DelayedLoadOnce(c, Exec(c, Swr(t, a)).mem);
    DelayedLoadOnce(c, Exec(c, Swl(t, a + 3)).mem);
  }

  /** Bytes `from` to `to` of two words are the same. */
  predicate SameBytes(x: Word, y: Word, from: nat, to: nat) {
    forall j :: from <= j < to ==> x.At(j) == y.At(j)
  }

  /** When a word torn between two is one of them: for each order exactly when they agree on the
      bytes taken from the other. */
  lemma TornIsWhole(x: Word, y: Word, align: nat)
    requires align < 4
    ensures Torn(x, y, align) == y <==> align == 0 || SameBytes(x, y, 0, 4 - align)
    ensures 0 < align ==> (Torn(y, x, align) == y <==> SameBytes(x, y, 4 - align, 4))
    ensures x == y ==> Torn(x, y, align) == x
  {
    assert x.At(0) == x.b0 && x.At(1) == x.b1 && x.At(2) == x.b2 && x.At(3) == x.b3;
    assert y.At(0) == y.b0 && y.At(1) == y.b1 && y.At(2) == y.b2 && y.At(3) == y.b3;
  }

  /** So the unaligned store leaves the register, as it is once the pending load is done,
      exactly when that load does not change the bytes that were stored before it: the low
      ones if SWR comes first, the high ones if SWL does. */
  lemma UnalignedStoreIsWhole(c: Cpu, t: nat, a: nat)
    requires c.Valid() && InRam(a) && InRam(a + 3) && t < 32
    ensures var rl, lr := Exec(Exec(c, Swr(t, a)), Swl(t, a + 3)), Exec(Exec(c, Swl(t, a + 3)), Swr(t, a));
      var x, y := c.regs[t], c.Settled(t);
      && (UnalignedWord(rl.mem, Cell(a)) == y <==> a % 4 == 0 || SameBytes(x, y, 0, 4 - a % 4))
      && (UnalignedWord(lr.mem, Cell(a)) == y <==> a % 4 == 0 || SameBytes(x, y, 4 - a % 4, 4))
  {
    UnalignedStore(c, t, a);
    TornIsWhole(c.regs[t], c.Settled(t), a % 4);
  }

  /** Without a pending load of the register that is the register itself; storing it and
      loading it back, both unaligned, is the identity. */
  lemma UnalignedRoundTrip(c: Cpu, gap: bool, t: nat, u: nat, a: nat)
    requires c.Valid() && InRam(a) && InRam(a + 3) && t < 32 && 0 < u < 32 && c.Settled(t) == c.regs[t]
    ensures var stored := Exec(Exec(c, Swr(t, a)), Swl(t, a + 3));
      && WordReplaced(c.mem, stored.mem, Cell(a), c.regs[t])
      && Exec(Exec(Between(Exec(stored, Lwr(u, a)), gap), Lwl(u, a + 3)), Nop).regs[u] == c.regs[t]
  {
    UnalignedStore(c, t, a);
    UnalignedLoad(Exec(Exec(c, Swr(t, a)), Swl(t, a + 3)), gap, u, a);
  }

  // ---- The device ----

  /** The word with a given value. */
  function ToWord(v: nat): Word {
    Word(v % 0x100, v / 0x100 % 0x100, v / 0x1_0000 % 0x100, v / 0x100_0000 % 0x100)
  }

  lemma ToWordOfValue(w: Word)
    ensures ToWord(w.Value()) == w
  {
    WordParts(w);
    DivModUnique(w.b1 + 0x100 * w.b2 + 0x1_0000 * w.b3, 0x100, w.b2 + 0x100 * w.b3, w.b1);
    DivModUnique(w.b2 + 0x100 * w.b3, 0x100, w.b3, w.b2);
  }

  lemma BytesOfWord(w: Word)
    ensures FromBytes([w.b0, w.b1, w.b2, w.b3]) == w.Value()
    ensures ToBytes(w.Value(), 4) == [w.b0, w.b1, w.b2, w.b3]
  {
    FromBytesCons(w.b3, []);
    FromBytesCons(w.b2, [w.b3]);
    FromBytesCons(w.b1, [w.b2, w.b3]);
    FromBytesCons(w.b0, [w.b1, w.b2, w.b3]);
    WordParts(w);
    var v1, v2, v3 := w.b1 + 0x100 * w.b2 + 0x1_0000 * w.b3, w.b2 + 0x100 * w.b3, w.b3;
    DivModUnique(v1, 0x100, v2, w.b1);
    DivModUnique(v2, 0x100, v3, w.b2);
    assert ToBytes(v3, 1) == [w.b3] + ToBytes(0, 0);
    assert ToBytes(v2, 2) == [w.b2] + ToBytes(v3, 1);
    assert ToBytes(v1, 3) == [w.b1] + ToBytes(v2, 2);
    assert ToBytes(w.Value(), 4) == [w.b0] + ToBytes(v1, 3);
  }

  lemma FromBytesCons(b: Byte, bytes: seq<Byte>)
    ensures FromBytes([b] + bytes) == b + 0x100 * FromBytes(bytes)
  {
    assert ([b] + bytes)[1..] == bytes;
  }

  lemma LoadIsWordAround(mem: seq<Byte>, o: Cells)
    requires IsRam(mem)
    ensures Within(WordStart(o), 4) && Load(mem, WordStart(o), 4) == WordAround(mem, o).Value()
  {
    LoadAt(mem, WordStart(o), WordAround(mem, o));
  }

  lemma LoadAt(mem: seq<Byte>, s: Cells, w: Word)
    requires IsRam(mem) && s + 4 <= RAM_SIZE && w == Word(mem[s], mem[s + 1], mem[s + 2], mem[s + 3])
    ensures Load(mem, s, 4) == w.Value()
  {
    assert mem[s..s + 4] == [w.b0, w.b1, w.b2, w.b3];
    BytesOfWord(w);
  }

  lemma StoreIsWithWordAround(mem: seq<Byte>, o: Cells, w: Word)
    requires IsRam(mem)
    ensures Within(WordStart(o), 4) && Store(mem, WordStart(o), 4, w.Value()) == WithWordAround(mem, o, w)
  {
    StoreAt(mem, WordStart(o), w);
  }

  lemma StoreAt(mem: seq<Byte>, s: Cells, w: Word)
    requires IsRam(mem) && s + 4 <= RAM_SIZE
    ensures Store(mem, s, 4, w.Value()) == mem[s := w.b0][s + 1 := w.b1][s + 2 := w.b2][s + 3 := w.b3]
  {
    BytesOfWord(w);
    var b: seq<Byte> := [w.b0, w.b1, w.b2, w.b3];
    var r := mem[s := w.b0][s + 1 := w.b1][s + 2 := w.b2][s + 3 := w.b3];
    assert Store(mem, s, 4, w.Value()) == mem[..s] + b + mem[s + 4..];
    var spliced := mem[..s] + b + mem[s + 4..];
    forall i | 0 <= i < RAM_SIZE ensures spliced[i] == r[i] {
      if s <= i < s + 4 {
        assert spliced[i] == b[i - s];
      }
    }
  }

  // ---- Addresses ----

  type Immediate16 = x: nat | x < 0x1_0000

  /** A 16 bit immediate extended to 32 bits by copies of its sign. */
  function SignExtended(imm: Immediate16): nat {
    if imm < 0x8000 then imm else imm + 0xffff_0000
  }

  /** The number it stands for. */
  function SignedImmediate(imm: Immediate16): int {
    if imm < 0x8000 then imm else imm - 0x1_0000
  }

  /** Where an instruction goes: so many bytes before or after what its register points to. */
  function EffectiveAddress(base: Word, imm: Immediate16): nat {
    (base.Value() + SignedImmediate(imm)) % WORD_RANGE
  }

  /** A wrapping sum with the extended immediate is that address. */
  lemma WrappingSum(base: nat, imm: Immediate16)
    ensures (base + SignExtended(imm)) % WORD_RANGE == (base + SignedImmediate(imm)) % WORD_RANGE
  {
    ModShift(base + SignExtended(imm), if imm < 0x8000 then 0 else 1, WORD_RANGE);
  }

  class CpuUnit {
    const ram: Ram
    var regs: seq<Word>
    var loadReg: nat
    var loadVal: Word

    constructor (ram: Ram)
      ensures this.ram == ram
    {
      this.ram := ram;
      regs, loadReg, loadVal := seq(32, _ => ZERO), 0, ZERO;
    }

    ghost function View(): Cpu
      reads this, ram.data
    {
      Cpu(regs, loadReg, loadVal, ram.data[..])
    }

    method SetReg(r: nat, v: Word)
      requires |regs| == 32 && r < 32
      modifies `regs
      ensures View() == old(View()).SetReg(r, v)
    {
      regs := regs[r := v];
      regs := regs[0 := ZERO];
    }

    method DelayedLoad()
      requires View().Valid()
      modifies this
      ensures View() == old(View()).DelayedLoad()
    {
      SetReg(loadReg, loadVal);
      loadReg, loadVal := 0, ZERO;
    }

    method DelayedLoadChain(r: nat, v: Word)
      requires View().Valid() && r < 32
      modifies this
      ensures View() == old(View()).DelayedLoadChain(r, v)
    {
      if loadReg != r {
        SetReg(loadReg, loadVal);
      }
      loadReg, loadVal := r, v;
    }

    method ReadAround(a: nat) returns (w: Word)
      requires View().Valid() && InRam(a)
      ensures w == WordAround(View().mem, Cell(a))
    {
      LoadIsWordAround(ram.data[..], Cell(a));
      var v := ram.Read(WordStart(Cell(a)), 4);
      ToWordOfValue(WordAround(ram.data[..], Cell(a)));
      w := ToWord(v);
    }

    method OpLoad(right: bool, t: nat, s: nat, imm: Immediate16)
      requires View().Valid() && t < 32 && s < 32 && InRam(EffectiveAddress(regs[s], imm))
      modifies this
      ensures var a := old(EffectiveAddress(regs[s], imm));
        View() == Exec(old(View()), if right then Lwr(t, a) else Lwl(t, a))
    {
      WrappingSum(regs[s].Value(), imm);
      var a := (regs[s].Value() + SignExtended(imm)) % WORD_RANGE;
      var cur := if loadReg == t then loadVal else regs[t];
      var word := ReadAround(a);
      var v := if right then MergeLoadRight(cur, word, a % 4) else MergeLoadLeft(cur, word, a % 4);
      DelayedLoadChain(t, v);
    }

    method WriteAround(o: Cells, w: Word)
      requires View().Valid()
      modifies ram.data
      ensures View() == old(View()).(mem := WithWordAround(old(View().mem), o, w))
    {
      StoreIsWithWordAround(ram.data[..], o, w);
      ram.Write(WordStart(o), 4, w.Value());
    }

    method OpStore(right: bool, t: nat, s: nat, imm: Immediate16)
      requires View().Valid() && t < 32 && s < 32 && InRam(EffectiveAddress(regs[s], imm))
      modifies this, ram.data
      ensures var a := old(EffectiveAddress(regs[s], imm));
        View() == Exec(old(View()), if right then Swr(t, a) else Swl(t, a))
    {
      WrappingSum(regs[s].Value(), imm);
      var a, v := (regs[s].Value() + SignExtended(imm)) % WORD_RANGE, regs[t];
      var o := Cell(a);
      var cur := ReadAround(a);
      var w := if right then MergeStoreRight(cur, v, o % 4) else MergeStoreLeft(cur, v, o % 4);
      DelayedLoad();
      WriteAround(o, w);
    }
  }
}
