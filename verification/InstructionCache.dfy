/** The CPU's instruction cache: 256 lines of four words, filled on a miss from the missing
    word to the end of its line (src/cpu/mod.rs), and the program that clears it
    (src/parallel_io/exe_loader.rs). */
module InstructionCache {
  import opened Arithmetic
  import opened Memory

  // ---- The bus ----

  /** What instruction fetches see, by storage cell. */
  type Store = nat -> nat

  predicate Mapped(b: nat) {
    || b < 0x80_0000
    || 0x1f00_0000 <= b < 0x1f08_0000
    || 0x1fc0_0000 <= b < 0x1fc8_0000
  }

  /** The storage cell behind a bus address: the 2 MB of RAM appear four times. */
  function StorageOf(b: nat): nat {
    if b < 0x80_0000 then b % RAM_SIZE else b
  }

  function WordAt(mem: Store, b: nat): nat {
    mem(StorageOf(b))
  }

  predicate CanFetch(pc: nat) {
    pc < WORD_RANGE && pc % 4 == 0 && Mapped(MaskRegion(pc))
  }

  // ---- Lines ----

  /** The tag and, in bits 2 to 4, the index of the first valid word. */
  datatype ICacheLine = ICacheLine(tagValid: nat, words: seq<nat>) {
    function Tag(): nat {
      tagValid - tagValid % 0x1000
    }

    function ValidIndex(): nat {
      tagValid / 4 % 8
    }

    function SetTagValid(pc: nat): ICacheLine {
      this.(tagValid := TagBits(pc) + 4 * IndexOf(pc))
    }

    /** Sets bit 4 and nothing else. */
    function Invalidate(): ICacheLine {
      this.(tagValid := if tagValid / 16 % 2 == 1 then tagValid else tagValid + 16)
    }

    function SetInstruction(i: nat, w: nat): ICacheLine
      requires i < |words|
    {
      this.(words := words[i := w])
    }
  }

  const NEW_LINE := ICacheLine(0, [0, 0, 0, 0])

  type Line = l: ICacheLine | |l.words| == 4 witness NEW_LINE

  const LINES: nat := 0x100

  type Cache = c: seq<Line> | |c| == LINES witness seq(LINES, _ => NEW_LINE)

  // ---- Addresses ----

  function LineOf(b: nat): (l: nat)
    ensures l < LINES
  {
    b / 16 % 256
  }

  function IndexOf(b: nat): (i: nat)
    ensures i < 4
  {
    b / 4 % 4
  }

  /** Bits 12 to 30. */
  function TagBits(pc: nat): nat {
    pc / 0x1000 % 0x8_0000 * 0x1000
  }

  function TagOf(b: nat): nat {
    b - b % 0x1000
  }

  /** The bus address that word `i` of line `l` stands for under a tag. */
  function AddressOf(tag: nat, l: nat, i: nat): nat {
    tag + 16 * l + 4 * i
  }

  lemma AddressParts(b: nat)
    requires b % 4 == 0
    ensures AddressOf(TagOf(b), LineOf(b), IndexOf(b)) == b
  {
    assert b / 4 / 4 == b / 16;
    assert b / 16 / 256 == b / 0x1000;
  }

  lemma PartsOfAddress(tag: nat, l: nat, i: nat)
    requires tag % 0x1000 == 0 && l < LINES && i < 4
    ensures var b := AddressOf(tag, l, i);
      b % 4 == 0 && TagOf(b) == tag && LineOf(b) == l && IndexOf(b) == i
  {
    var b, q := AddressOf(tag, l, i), tag / 0x1000;
    DivModUnique(b, 0x1000, q, 16 * l + 4 * i);
    DivModUnique(b, 16, 0x100 * q + l, 4 * i);
    DivModUnique(0x100 * q + l, 256, q, l);
    DivModUnique(b, 4, 0x400 * q + 4 * l + i, 0);
    DivModUnique(0x400 * q + 4 * l + i, 4, 0x100 * q + l, i);
  }

  /** KUSEG and KSEG0 give the same line, index and tag as the bus address they share. */
  lemma RegionsAlias(pc: nat)
    requires pc < 0xa000_0000 && Mapped(MaskRegion(pc)) && pc % 4 == 0
    ensures var b := MaskRegion(pc);
      && b % 4 == 0
      && LineOf(pc) == LineOf(b) && IndexOf(pc) == IndexOf(b) && TagBits(pc) == TagOf(b)
  {
    var b := MaskRegion(pc);
    TagBelowBit31(b);
    if pc >= 0x8000_0000 {
      AboveBit31(b);
    }
  }

  lemma TagBelowBit31(b: nat)
    requires b < 0x8000_0000
    ensures TagBits(b) == TagOf(b)
  {
    DivModUnique(b / 0x1000, 0x8_0000, 0, b / 0x1000);
  }

  lemma AboveBit31(b: nat)
    requires b < 0x8000_0000
    ensures var pc := b + 0x8000_0000;
      && TagBits(pc) == TagBits(b) && pc % 4 == b % 4
      && LineOf(pc) == LineOf(b) && IndexOf(pc) == IndexOf(b)
  {
    var pc := b + 0x8000_0000;
    DivModUnique(pc, 0x1000, b / 0x1000 + 0x8_0000, b % 0x1000);
    DivModUnique(b / 0x1000 + 0x8_0000, 0x8_0000, 1, b / 0x1000);
    DivModUnique(b / 0x1000, 0x8_0000, 0, b / 0x1000);
    DivModUnique(pc, 16, b / 16 + 0x800_0000, b % 16);
    DivModUnique(b / 16 + 0x800_0000, 256, b / 16 / 256 + 0x8_0000, b / 16 % 256);
    DivModUnique(pc, 4, b / 4 + 0x2000_0000, b % 4);
    DivModUnique(b / 4 + 0x2000_0000, 4, b / 4 / 4 + 0x800_0000, b / 4 % 4);
  }

  /** The tag and the first valid index are read back as they were set. */
  lemma TagValidParts(line: Line, pc: nat)
    ensures line.SetTagValid(pc).Tag() == TagBits(pc) && line.SetTagValid(pc).ValidIndex() == IndexOf(pc)
  {
    var q, i := pc / 0x1000 % 0x8_0000, IndexOf(pc);
    DivModUnique(q * 0x1000 + 4 * i, 0x1000, q, 4 * i);
    DivModUnique(q * 0x1000 + 4 * i, 4, 0x400 * q + i, 0);
    DivModUnique(0x400 * q + i, 8, 0x80 * q, i);
  }

  lemma InvalidatedIndex(line: Line)
    ensures line.Invalidate().ValidIndex() >= 4
    ensures line.Invalidate().words == line.words
  {
    var t := line.Invalidate().tagValid;
    assert t / 16 % 2 == 1 by {
      if line.tagValid / 16 % 2 == 0 {
        assert t / 16 == line.tagValid / 16 + 1;
      }
    }
    var q := t / 16 / 2;
    assert t / 4 == 8 * q + 4 + t / 4 % 4 by {
      assert t / 4 / 4 == t / 16;
    }
    DivModUnique(t / 4, 8, q, 4 + t / 4 % 4);
  }

  // ---- Fetching ----

  /** The words of a line after the fill from index `i`. */
  function Fill(words: seq<nat>, mem: Store, pc: nat, i: nat): (r: seq<nat>)
    requires |words| == 4 && i <= 4 && pc + 4 * (4 - i) <= WORD_RANGE
    ensures |r| == 4
    decreases 4 - i
  {
    if i == 4 then words
    else Fill(words[i := WordAt(mem, MaskRegion(pc))], mem, pc + 4, i + 1)
  }

  datatype Fetched = Fetched(cache: Cache, word: nat, cycles: nat)

  function Fetch(c: Cache, enabled: bool, mem: Store, pc: nat): Fetched
    requires CanFetch(pc)
  {
    if pc < 0xa000_0000 && enabled then
      var tag, n, i := TagBits(pc), LineOf(pc), IndexOf(pc);
      var line := c[n];
      if line.Tag() != tag || line.ValidIndex() > i then
        var filled := line.(words := Fill(line.words, mem, pc, i)).SetTagValid(pc);
        Fetched(c[n := filled], filled.words[i], 3 + (4 - i))
      else
        Fetched(c, line.words[i], 0)
    else
      Fetched(c, WordAt(mem, MaskRegion(pc)), 4)
  }

  // ---- Transparency ----

  /** Word `i` of line `l` is valid and stands for bus address `b`. */
  predicate Holds(c: Cache, l: nat, i: nat, b: nat)
    requires l < LINES && i < 4
  {
    c[l].ValidIndex() <= i && AddressOf(c[l].Tag(), l, i) == b && Mapped(b)
  }

  ghost predicate WordAgrees(c: Cache, mem: Store, l: nat, i: nat)
    requires l < LINES && i < 4
  {
    forall b: nat :: Holds(c, l, i, b) ==> c[l].words[i] == WordAt(mem, b)
  }

  /** Every valid word agrees with the storage it stands for. */
  ghost predicate Transparent(c: Cache, mem: Store) {
    forall l: nat, i: nat :: l < LINES && i < 4 ==> WordAgrees(c, mem, l, i)
  }

  lemma {:induction false} FillAt(words: seq<nat>, mem: Store, pc: nat, i: nat, k: nat)
    requires |words| == 4 && i <= 4 && pc + 4 * (4 - i) <= WORD_RANGE && k < 4
    ensures Fill(words, mem, pc, i)[k] == if k < i then words[k] else WordAt(mem, MaskRegion(pc + 4 * (k - i)))
    decreases 4 - i
  {
    if i < 4 {
      FillAt(words[i := WordAt(mem, MaskRegion(pc))], mem, pc + 4, i + 1, k);
    }
  }

  /** A miss leaves in the line exactly the words of its addresses. */
  lemma FilledAgrees(line: Line, mem: Store, pc: nat, k: nat)
    requires CanFetch(pc) && pc < 0xa000_0000 && k < 4 && pc + 4 * (4 - IndexOf(pc)) <= WORD_RANGE
    ensures var b, i := MaskRegion(pc), IndexOf(pc);
      var filled := line.(words := Fill(line.words, mem, pc, i)).SetTagValid(pc);
      && filled.ValidIndex() == i && filled.Tag() == TagOf(b)
      && (k >= i ==> filled.words[k] == WordAt(mem, AddressOf(TagOf(b), LineOf(b), k)))
  {
    var b, i := MaskRegion(pc), IndexOf(pc);
    RegionsAlias(pc);
    AddressParts(b);
    TagValidParts(line.(words := Fill(line.words, mem, pc, i)), pc);
    FilledWord(line.words, mem, pc, k, AddressOf(TagOf(b), LineOf(b), k));
  }

  lemma FilledWord(words: seq<nat>, mem: Store, pc: nat, k: nat, a: nat)
    requires |words| == 4 && CanFetch(pc) && pc < 0xa000_0000 && k < 4
    requires a == MaskRegion(pc) + 4 * k - 4 * IndexOf(pc)
    ensures k >= IndexOf(pc) ==> Fill(words, mem, pc, IndexOf(pc))[k] == WordAt(mem, a)
  {
    if k >= IndexOf(pc) {
      FillAt(words, mem, pc, IndexOf(pc), k);
      LineStaysInRegion(pc, k);
    }
  }

  /** The rest of a line lies in the region of its first word. */
  lemma LineStaysInRegion(pc: nat, k: nat)
    requires CanFetch(pc) && pc < 0xa000_0000 && IndexOf(pc) <= k < 4
    ensures MaskRegion(pc + 4 * (k - IndexOf(pc))) == MaskRegion(pc) + 4 * (k - IndexOf(pc))
  {
  }

  /** One fetch through a transparent cache returns the word in memory, in either region, and
      keeps the cache transparent. */
  lemma FetchIsTransparent(c: Cache, enabled: bool, mem: Store, pc: nat)
    requires Transparent(c, mem) && CanFetch(pc)
    ensures Fetch(c, enabled, mem, pc).word == WordAt(mem, MaskRegion(pc))
    ensures Transparent(Fetch(c, enabled, mem, pc).cache, mem)
  {
    if pc < 0xa000_0000 && enabled {
      var b, n, i := MaskRegion(pc), LineOf(pc), IndexOf(pc);
      RegionsAlias(pc);
      AddressParts(b);
      if c[n].Tag() != TagOf(b) || c[n].ValidIndex() > i {
        var c' := Fetch(c, enabled, mem, pc).cache;
        FilledAgrees(c[n], mem, pc, i);
        forall l: nat, k: nat | l < LINES && k < 4 ensures WordAgrees(c', mem, l, k) {
          FilledAgrees(c[n], mem, pc, k);
          assert l != n ==> WordAgrees(c, mem, l, k);
        }
      } else {
        assert WordAgrees(c, mem, n, i) && Holds(c, n, i, b);
      }
    }
  }

  // ---- What a fetch costs ----

  /** The cache holds the word at `pc`. */
  predicate Hits(c: Cache, pc: nat)
    requires pc < WORD_RANGE
  {
    Holds(c, LineOf(MaskRegion(pc)), IndexOf(MaskRegion(pc)), MaskRegion(pc))
  }

  /** A fetch is free if and only if it goes through the cache and finds its word there. A miss
      costs three cycles and one for each word to the end of the line, and a fetch past the
      cache four. */
  lemma FetchCost(c: Cache, enabled: bool, mem: Store, pc: nat)
    requires CanFetch(pc)
    ensures Fetch(c, enabled, mem, pc).cycles ==
      if pc >= 0xa000_0000 || !enabled then 4
      else if Hits(c, pc) then 0
      else 3 + (4 - MaskRegion(pc) / 4 % 4)
    ensures pc >= 0xa000_0000 || !enabled || Hits(c, pc) ==> Fetch(c, enabled, mem, pc).cache == c
  {
    if pc < 0xa000_0000 && enabled {
      RegionsAlias(pc);
      HoldsMeansTag(c, MaskRegion(pc));
    }
  }

  lemma HoldsMeansTag(c: Cache, b: nat)
    requires b % 4 == 0 && Mapped(b)
    ensures Holds(c, LineOf(b), IndexOf(b), b)
      <==> c[LineOf(b)].ValidIndex() <= IndexOf(b) && c[LineOf(b)].Tag() == TagOf(b)
  {
    AddressParts(b);
  }

  /** A fetch through the cache brings in its word and the rest of its line, and drops the words
      before it and whatever the line held; the other lines stay. */
  lemma FetchBrings(c: Cache, mem: Store, pc: nat, b: nat)
    requires CanFetch(pc) && pc < 0xa000_0000 && !Hits(c, pc) && b % 4 == 0 && Mapped(b)
    ensures Holds(Fetch(c, true, mem, pc).cache, LineOf(b), IndexOf(b), b) <==>
      if LineOf(b) == LineOf(MaskRegion(pc)) then b / 16 == MaskRegion(pc) / 16 && b >= MaskRegion(pc)
      else Holds(c, LineOf(b), IndexOf(b), b)
  {
    var a := MaskRegion(pc);
    LineBrought(c, mem, pc, a);
    if LineOf(b) == LineOf(a) {
      HoldsMeansTag(Fetch(c, true, mem, pc).cache, b);
      SameLine(a, b);
    }
  }

  lemma LineBrought(c: Cache, mem: Store, pc: nat, a: nat)
    requires CanFetch(pc) && pc < 0xa000_0000 && !Hits(c, pc) && a == MaskRegion(pc)
    ensures a % 4 == 0
    ensures var d := Fetch(c, true, mem, pc).cache;
      && d == c[LineOf(a) := d[LineOf(a)]]
      && d[LineOf(a)].Tag() == TagOf(a) && d[LineOf(a)].ValidIndex() == IndexOf(a)
  {
    RegionsAlias(pc);
    HoldsMeansTag(c, a);
    FilledAgrees(c[LineOf(a)], mem, pc, 0);
  }

  lemma SameLine(a: nat, b: nat)
    requires a % 4 == 0 && b % 4 == 0 && LineOf(a) == LineOf(b)
    ensures TagOf(a) == TagOf(b) <==> a / 16 == b / 16
    ensures a / 16 == b / 16 ==> (IndexOf(a) <= IndexOf(b) <==> a <= b)
  {
    LineNumber(a);
    LineNumber(b);
  }

  lemma LineNumber(b: nat)
    requires b % 4 == 0
    ensures 16 * (b / 16) == TagOf(b) + 16 * LineOf(b) && b == 16 * (b / 16) + 4 * IndexOf(b)
  {
    AddressParts(b);
    assert b / 16 / 256 == b / 0x1000;
  }

  // ---- Runs of fetches ----

  /** All fetches of a run return the word in memory. */
  predicate FetchesRight(c: Cache, enabled: bool, mem: Store, pcs: seq<nat>)
    requires forall pc :: pc in pcs ==> CanFetch(pc)
    decreases |pcs|
  {
    pcs == [] ||
    var f := Fetch(c, enabled, mem, pcs[0]);
    f.word == WordAt(mem, MaskRegion(pcs[0])) && FetchesRight(f.cache, enabled, mem, pcs[1..])
  }

  lemma {:induction false} FetchRun(c: Cache, enabled: bool, mem: Store, pcs: seq<nat>)
    requires Transparent(c, mem) && forall pc :: pc in pcs ==> CanFetch(pc)
    ensures FetchesRight(c, enabled, mem, pcs)
    decreases |pcs|
  {
    if pcs != [] {
      FetchIsTransparent(c, enabled, mem, pcs[0]);
      FetchRun(Fetch(c, enabled, mem, pcs[0]).cache, enabled, mem, pcs[1..]);
    }
  }

  /** A word that disagrees with memory is seen by the fetch of its own address. */
  lemma DisagreementIsSeen(c: Cache, mem: Store, l: nat, i: nat, b: nat)
    requires l < LINES && i < 4 && Holds(c, l, i, b) && c[l].words[i] != WordAt(mem, b)
    ensures CanFetch(b) && !FetchesRight(c, true, mem, [b])
  {
    PartsOfAddress(c[l].Tag(), l, i);
    TagBelowBit31(b);
  }

  /** Transparency is exactly what makes the cache unobservable: every run of fetches from
      KUSEG, KSEG0 and KSEG1 returns the words in memory if and only if the cache is
      transparent. */
  lemma TransparencyIsExact(c: Cache, mem: Store)
    ensures Transparent(c, mem) <==>
            forall pcs: seq<nat> :: (forall pc :: pc in pcs ==> CanFetch(pc)) ==> FetchesRight(c, true, mem, pcs)
  {
    if Transparent(c, mem) {
      forall pcs: seq<nat> | forall pc :: pc in pcs ==> CanFetch(pc) ensures FetchesRight(c, true, mem, pcs) {
        FetchRun(c, true, mem, pcs);
      }
    } else {
      var l: nat, i: nat :| l < LINES && i < 4 && !WordAgrees(c, mem, l, i);
      var b: nat :| Holds(c, l, i, b) && c[l].words[i] != WordAt(mem, b);
      DisagreementIsSeen(c, mem, l, i, b);
      assert forall pc :: pc in [b] ==> CanFetch(pc);
    }
  }

  /** The cache at power up: tag 0 and four valid NOPs in every line. It is transparent
      exactly when the first 4 KB of RAM are zero. */
  const POWER_UP: Cache := seq(LINES, _ => NEW_LINE)

  lemma PowerUpTransparent(mem: Store)
    ensures Transparent(POWER_UP, mem) <==> forall b: nat :: b < 0x1000 && b % 4 == 0 ==> WordAt(mem, b) == 0
  {
    if Transparent(POWER_UP, mem) {
      forall b: nat | b < 0x1000 && b % 4 == 0 ensures WordAt(mem, b) == 0 {
        PowerUpHolds(b);
        assert WordAgrees(POWER_UP, mem, LineOf(b), IndexOf(b));
      }
    }
    if forall b: nat :: b < 0x1000 && b % 4 == 0 ==> WordAt(mem, b) == 0 {
      forall l: nat, i: nat | l < LINES && i < 4 ensures WordAgrees(POWER_UP, mem, l, i) {
        PowerUpWord(l, i);
        assert WordAt(mem, AddressOf(0, l, i)) == 0;
      }
    }
  }

  lemma PowerUpHolds(b: nat)
    requires b < 0x1000 && b % 4 == 0
    ensures Holds(POWER_UP, LineOf(b), IndexOf(b), b) && POWER_UP[LineOf(b)].words[IndexOf(b)] == 0
  {
    AddressParts(b);
    DivModUnique(b, 0x1000, 0, b);
    var l, i := LineOf(b), IndexOf(b);
    PowerUpWord(l, i);
    assert Holds(POWER_UP, l, i, AddressOf(0, l, i));
  }

  lemma PowerUpWord(l: nat, i: nat)
    requires l < LINES && i < 4
    ensures AddressOf(0, l, i) < 0x1000 && AddressOf(0, l, i) % 4 == 0 && POWER_UP[l].words[i] == 0
    ensures forall b: nat :: Holds(POWER_UP, l, i, b) <==> b == AddressOf(0, l, i)
  {
    PartsOfAddress(0, l, i);
    assert POWER_UP[l] == NEW_LINE;
  }

  // ---- Everything that touches the cache or the memory behind it ----

  /** The cache, its control register and the memory. */
  datatype System = System(cache: Cache, enabled: bool, tagTest: bool, mem: Store)

  datatype Event =
    | FetchAt(pc: nat)
    | Control(enabled: bool, tagTest: bool)
    | StoreWord(b: nat, v: nat)
    | IsolatedStore(addr: nat, size: nat, v: nat)

  /** Events the CPU carries out; it gives up on the others. */
  predicate Allowed(s: System, e: Event) {
    match e
    case FetchAt(pc) => CanFetch(pc)
    case Control(_, _) => true
    case StoreWord(b, _) => b % 4 == 0 && Mapped(b)
    case IsolatedStore(_, size, v) => s.enabled && size == 4 && v == 0
  }

  function Maintain(c: Cache, tagTest: bool, addr: nat): Cache {
    var line := c[LineOf(addr)];
    c[LineOf(addr) := if tagTest then line.Invalidate() else line.SetInstruction(IndexOf(addr), 0)]
  }

  function Step(s: System, e: Event): System
    requires Allowed(s, e)
  {
    match e
    case FetchAt(pc) => s.(cache := Fetch(s.cache, s.enabled, s.mem, pc).cache)
    case Control(en, tt) => s.(enabled := en, tagTest := tt)
    case StoreWord(b, v) => s.(mem := Written(s.mem, b, v))
    case IsolatedStore(addr, _, _) => s.(cache := Maintain(s.cache, s.tagTest, addr))
  }

  function Written(mem: Store, b: nat, v: nat): Store {
    x => if x == StorageOf(b) then v else mem(x)
  }

  /** The events that cannot make the cache stale: a store must not change a word the cache
      holds under any of its addresses, and a zero written into the cache must not differ
      from the word it replaces. */
  ghost predicate Safe(s: System, e: Event) {
    match e
    case FetchAt(_) => true
    case Control(_, _) => true
    case StoreWord(b, v) => v == WordAt(s.mem, b) || !Cached(s.cache, StorageOf(b))
    case IsolatedStore(addr, _, _) =>
      s.tagTest || forall b: nat :: Holds(s.cache, LineOf(addr), IndexOf(addr), b) ==> WordAt(s.mem, b) == 0
  }

  /** Some valid word stands for this cell of storage. */
  ghost predicate Cached(c: Cache, x: nat) {
    exists l: nat, i: nat, b: nat :: l < LINES && i < 4 && Holds(c, l, i, b) && StorageOf(b) == x
  }

  lemma StoreKeepsTransparent(c: Cache, mem: Store, b: nat, v: nat)
    requires Transparent(c, mem)
    ensures Transparent(c, Written(mem, b, v)) <==> v == WordAt(mem, b) || !Cached(c, StorageOf(b))
  {
    var after := Written(mem, b, v);
    if v == WordAt(mem, b) || !Cached(c, StorageOf(b)) {
      forall l: nat, i: nat | l < LINES && i < 4 ensures WordAgrees(c, after, l, i) {
        assert WordAgrees(c, mem, l, i);
      }
    } else {
      var l: nat, i: nat, x: nat :| l < LINES && i < 4 && Holds(c, l, i, x) && StorageOf(x) == StorageOf(b);
      assert WordAgrees(c, mem, l, i);
      assert !WordAgrees(c, after, l, i);
    }
  }

  /** Invalidation loses words and adds none. */
  lemma InvalidateKeepsTransparent(c: Cache, mem: Store, addr: nat)
    requires Transparent(c, mem)
    ensures Transparent(Maintain(c, true, addr), mem)
  {
    InvalidatedIndex(c[LineOf(addr)]);
    forall l: nat, i: nat | l < LINES && i < 4 ensures WordAgrees(Maintain(c, true, addr), mem, l, i) {
      assert WordAgrees(c, mem, l, i);
    }
  }

  lemma ZeroKeepsTransparent(c: Cache, mem: Store, addr: nat)
    requires Transparent(c, mem)
    ensures Transparent(Maintain(c, false, addr), mem) <==>
            forall b: nat :: Holds(c, LineOf(addr), IndexOf(addr), b) ==> WordAt(mem, b) == 0
  {
    var c', n, k := Maintain(c, false, addr), LineOf(addr), IndexOf(addr);
    assert forall b: nat :: Holds(c', n, k, b) <==> Holds(c, n, k, b);
    assert c'[n].words[k] == 0;
    if Transparent(c', mem) {
      assert WordAgrees(c', mem, n, k);
    }
    if forall b: nat :: Holds(c, n, k, b) ==> WordAt(mem, b) == 0 {
      forall l: nat, i: nat | l < LINES && i < 4 ensures WordAgrees(c', mem, l, i) {
        assert WordAgrees(c, mem, l, i);
      }
    }
  }

  /** A tag test write drops one line and nothing else; another one sets a word and drops
      nothing. */
  lemma MaintainDrops(c: Cache, tagTest: bool, addr: nat, l: nat, i: nat, b: nat)
    requires l < LINES && i < 4
    ensures Holds(Maintain(c, tagTest, addr), l, i, b) <==> Holds(c, l, i, b) && (tagTest ==> l != LineOf(addr))
    ensures Maintain(c, tagTest, addr)[l].words[i] ==
      if !tagTest && l == addr / 16 % 256 && i == addr / 4 % 4 then 0 else c[l].words[i]
  {
    InvalidatedIndex(c[LineOf(addr)]);
  }

  /** Two bus addresses are the same word only for mirrors of RAM. */
  lemma SameStorage(a: nat, b: nat)
    requires Mapped(a) && Mapped(b)
    ensures StorageOf(a) == StorageOf(b)
      <==> a == b || (a < 0x80_0000 && b < 0x80_0000 && a % 0x20_0000 == b % 0x20_0000)
  {
  }

  /** The safe events are exactly those that keep the cache transparent. */
  lemma StepKeepsTransparent(s: System, e: Event)
    requires Transparent(s.cache, s.mem) && Allowed(s, e)
    ensures Transparent(Step(s, e).cache, Step(s, e).mem) <==> Safe(s, e)
  {
    match e
    case FetchAt(pc) => FetchIsTransparent(s.cache, s.enabled, s.mem, pc);
    case Control(_, _) =>
    case StoreWord(b, v) => StoreKeepsTransparent(s.cache, s.mem, b, v);
    case IsolatedStore(addr, _, _) =>
      InvalidateKeepsTransparent(s.cache, s.mem, addr);
      ZeroKeepsTransparent(s.cache, s.mem, addr);
  }

  // ---- Clearing the cache ----

  predicate Invalid(c: Cache, l: nat)
    requires l < LINES
  {
    c[l].ValidIndex() >= 4
  }

  predicate AllInvalid(c: Cache) {
    forall l: nat :: l < LINES ==> Invalid(c, l)
  }

  /** An empty cache is transparent whatever the memory holds. */
  lemma EmptyIsTransparent(c: Cache, mem: Store)
    requires AllInvalid(c)
    ensures Transparent(c, mem)
  {
    forall l: nat, i: nat | l < LINES && i < 4 ensures WordAgrees(c, mem, l, i) {
      assert Invalid(c, l);
    }
  }

  predicate CanRun(s: System, events: seq<Event>)
    decreases |events|
  {
    events == [] || (Allowed(s, events[0]) && CanRun(Step(s, events[0]), events[1..]))
  }

  function Run(s: System, events: seq<Event>): System
    requires CanRun(s, events)
    decreases |events|
  {
    if events == [] then s else Run(Step(s, events[0]), events[1..])
  }

  /** The event fills no line: a clearing program runs from KSEG1. */
  predicate Uncached(e: Event) {
    e.FetchAt? ==> e.pc >= 0xa000_0000
  }

  lemma InvalidAfterStep(s: System, e: Event, l: nat)
    requires Allowed(s, e) && Uncached(e) && l < LINES
    requires Invalid(s.cache, l) || (s.tagTest && e.IsolatedStore? && LineOf(e.addr) == l)
    ensures Invalid(Step(s, e).cache, l)
  {
    InvalidatedIndex(s.cache[l]);
  }

  lemma {:induction false} InvalidLineStays(s: System, events: seq<Event>, l: nat)
    requires CanRun(s, events) && l < LINES && Invalid(s.cache, l)
    requires forall e :: e in events ==> Uncached(e)
    ensures Invalid(Run(s, events).cache, l)
    decreases |events|
  {
    if events != [] {
      var e := events[0];
      InvalidAfterStep(s, e, l);
      InvalidLineStays(Step(s, e), events[1..], l);
    }
  }

  /** A write to line `l` in tag test mode comes up during the run. */
  predicate Clears(s: System, events: seq<Event>, l: nat)
    requires CanRun(s, events)
    decreases |events|
  {
    events != [] &&
    (|| (s.tagTest && events[0].IsolatedStore? && LineOf(events[0].addr) == l)
     || Clears(Step(s, events[0]), events[1..], l))
  }

  lemma {:induction false} ClearedLine(s: System, events: seq<Event>, l: nat)
    requires CanRun(s, events) && l < LINES && Clears(s, events, l)
    requires forall e :: e in events ==> Uncached(e)
    ensures Invalid(Run(s, events).cache, l)
    decreases |events|
  {
    var e := events[0];
    if s.tagTest && e.IsolatedStore? && LineOf(e.addr) == l {
      InvalidAfterStep(s, e, l);
      InvalidLineStays(Step(s, e), events[1..], l);
    } else {
      ClearedLine(Step(s, e), events[1..], l);
    }
  }

  /** However stale the cache was, a program outside the cached regions that writes each line
      once in tag test mode, between whatever else it does, makes it transparent: for the
      memory as it is then and for any other. */
  lemma ClearRestoresTransparency(s: System, events: seq<Event>, mem: Store)
    requires CanRun(s, events)
    requires forall e :: e in events ==> Uncached(e)
    requires forall l: nat :: l < LINES ==> Clears(s, events, l)
    ensures Transparent(Run(s, events).cache, mem)
  {
    forall l: nat | l < LINES ensures Invalid(Run(s, events).cache, l) {
      ClearedLine(s, events, l);
    }
    EmptyIsTransparent(Run(s, events).cache, mem);
  }

  predicate InvalidBelow(c: Cache, n: nat) {
    forall l: nat :: l < n && l < LINES ==> Invalid(c, l)
  }

  lemma InvalidateNext(c: Cache, n: nat)
    requires n < LINES && InvalidBelow(c, n)
    ensures LineOf(16 * n) == n && InvalidBelow(Maintain(c, true, 16 * n), n + 1)
  {
    InvalidatedIndex(c[n]);
    var c' := Maintain(c, true, 16 * n);
    forall l: nat | l < n + 1 && l < LINES ensures Invalid(c', l) {
      assert l < n ==> Invalid(c, l) && c'[l] == c[l];
    }
  }

  /** The words before the one for address `a` under tag 0 are zero. */
  predicate ZeroBelow(c: Cache, a: nat) {
    forall l: nat, i: nat :: l < LINES && i < 4 && AddressOf(0, l, i) < a ==> c[l].words[i] == 0
  }

  lemma ZeroNext(c: Cache, a: nat)
    requires a < 0x1000 && a % 4 == 0 && AllInvalid(c) && ZeroBelow(c, a)
    ensures AllInvalid(Maintain(c, false, a)) && ZeroBelow(Maintain(c, false, a), a + 4)
  {
    var c' := Maintain(c, false, a);
    AddressParts(a);
    DivModUnique(a, 0x1000, 0, a);
    assert AddressOf(0, LineOf(a), IndexOf(a)) == a;
    assert forall l: nat :: l < LINES ==> Invalid(c, l) && c'[l].tagValid == c[l].tagValid;
    forall l: nat, i: nat | l < LINES && i < 4 && AddressOf(0, l, i) < a + 4 ensures c'[l].words[i] == 0 {
    }
  }

  // ---- The device ----

  class FetchUnit {
    const lines: array<Line>
    var enabled: bool
    var tagTest: bool
    var mem: Store

    constructor (mem: Store)
      ensures fresh(lines) && lines.Length == LINES
      ensures View() == System(POWER_UP, false, false, mem)
    {
      lines := new Line[LINES](_ => NEW_LINE);
      enabled, tagTest, this.mem := false, false, mem;
    }

    ghost predicate Valid() {
      lines.Length == LINES
    }

    ghost function View(): System
      requires Valid()
      reads this, lines
    {
      System(lines[..], enabled, tagTest, mem)
    }

    /** Loads a line from word `index` on. */
    method FillLine(n: nat, pc: nat, index: nat) returns (cycles: nat)
      requires Valid() && n < LINES && index < 4 && pc + 4 * (4 - index) <= WORD_RANGE
      modifies lines
      ensures lines[..] == old(lines[..])[n := old(lines[n]).(words := Fill(old(lines[n]).words, mem, pc, index))]
      ensures cycles == 4 - index
    {
      cycles := 0;
      var cpc := pc;
      ghost var target := Fill(lines[n].words, mem, pc, index);
      for i := index to 4
        invariant forall k :: 0 <= k < LINES && k != n ==> lines[k] == old(lines[k])
        invariant lines[n].tagValid == old(lines[n]).tagValid
        invariant cpc == pc + 4 * (i - index) && cycles == i - index
        invariant Fill(lines[n].words, mem, cpc, i) == target
      {
        cycles := cycles + 1;
        lines[n] := lines[n].SetInstruction(i, WordAt(mem, MaskRegion(cpc)));
        cpc := cpc + 4;
      }
      assert lines[n].words == target;
    }

    method FetchInstruction(pc: nat) returns (word: nat, cycles: nat)
      requires Valid() && CanFetch(pc)
      modifies lines
      ensures View() == Step(old(View()), FetchAt(pc))
      ensures word == Fetch(old(View().cache), enabled, mem, pc).word
      ensures cycles == Fetch(old(View().cache), enabled, mem, pc).cycles
    {
      if pc < 0xa000_0000 && enabled {
        var tag, n, index := TagBits(pc), LineOf(pc), IndexOf(pc);
        cycles := 0;
        if lines[n].Tag() != tag || lines[n].ValidIndex() > index {
          var fill := FillLine(n, pc, index);
          cycles := 3 + fill;
          lines[n] := lines[n].SetTagValid(pc);
        }
        word := lines[n].words[index];
      } else {
        cycles, word := 4, WordAt(mem, MaskRegion(pc));
      }
    }

    method CacheMaintenance(addr: nat)
      requires Valid() && enabled
      modifies lines
      ensures View() == Step(old(View()), IsolatedStore(addr, 4, 0))
    {
      var n := LineOf(addr);
      if tagTest {
        lines[n] := lines[n].Invalidate();
      } else {
        lines[n] := lines[n].SetInstruction(IndexOf(addr), 0);
      }
    }

    method InvalidateLines()
      requires Valid() && enabled && tagTest
      modifies lines
      ensures AllInvalid(View().cache)
    {
      var addr := 0;
      while addr != 0x1000
        invariant 0 <= addr <= 0x1000 && addr % 16 == 0
        invariant InvalidBelow(lines[..], addr / 16)
        decreases 0x1000 - addr
      {
        InvalidateNext(lines[..], addr / 16);
        CacheMaintenance(addr);
        addr := addr + 16;
      }
    }

    method ZeroWords()
      requires Valid() && enabled && !tagTest && AllInvalid(View().cache)
      modifies lines
      ensures AllInvalid(View().cache)
      ensures ZeroBelow(View().cache, 0x1000)
    {
      var addr := 0;
      while addr != 0x1000
        invariant 0 <= addr <= 0x1000 && addr % 4 == 0
        invariant AllInvalid(lines[..]) && ZeroBelow(lines[..], addr)
        decreases 0x1000 - addr
      {
        ZeroNext(lines[..], addr);
        CacheMaintenance(addr);
        addr := addr + 4;
      }
    }

    /** The cache clearing program: a loop over the lines in tag test mode, then a loop over
        the words without it. The first loop is enough for transparency. */
    method ClearCache()
      requires Valid()
      modifies this, lines
      ensures mem == old(mem) && enabled && !tagTest
      ensures forall other :: Transparent(View().cache, other)
      ensures forall l: nat, i: nat :: l < LINES && i < 4 ==> View().cache[l].words[i] == 0
    {
      enabled, tagTest := true, true;
      InvalidateLines();
      tagTest := false;
      ZeroWords();
      forall other ensures Transparent(View().cache, other) {
        EmptyIsTransparent(lines[..], other);
      }
    }
  }
}
