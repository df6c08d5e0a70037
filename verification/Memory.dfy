/** Main RAM: little endian loads and stores of 1, 2 or 4 bytes (src/memory/ram.rs). */
module Memory {
  import opened Arithmetic

  type Byte = b: nat | b < 0x100

  const RAM_SIZE: nat := 0x20_0000

  const WORD_RANGE: nat := 0x1_0000_0000

  /** The bus address of a CPU address: KSEG0 and KSEG1 mirror the start of KUSEG. */
  function MaskRegion(addr: nat): nat
    requires addr < WORD_RANGE
  {
    if 0x8000_0000 <= addr < 0xa000_0000 then addr - 0x8000_0000
    else if 0xa000_0000 <= addr < 0xc000_0000 then addr - 0xa000_0000
    else addr
  }

  /** The table of region masks: all 32 bits in KUSEG and KSEG2, 31 in KSEG0, 29 in KSEG1. */
  lemma RegionMasks(addr: nat)
    requires addr < WORD_RANGE
    ensures MaskRegion(addr) ==
      if addr / 0x2000_0000 == 4 then addr % 0x8000_0000
      else if addr / 0x2000_0000 == 5 then addr % 0x2000_0000
      else addr
  {
  }

  function Pow256(n: nat): (p: nat)
    ensures p > 0
  {
    if n == 0 then 1 else 256 * Pow256(n - 1)
  }

  /** The value of a little endian byte string. */
  function FromBytes(bytes: seq<Byte>): nat {
    if bytes == [] then 0 else bytes[0] + 256 * FromBytes(bytes[1..])
  }

  /** The `n` low bytes of a value, lowest first. */
  function ToBytes(val: nat, n: nat): (bytes: seq<Byte>)
    ensures |bytes| == n
  {
    if n == 0 then [] else [val % 256] + ToBytes(val / 256, n - 1)
  }

  lemma {:induction false} BytesRoundTrip(val: nat, n: nat)
    requires val < Pow256(n)
    ensures FromBytes(ToBytes(val, n)) == val
  {
    if n == 0 {
    } else {
      BytesRoundTrip(val / 256, n - 1);
      assert ToBytes(val, n)[1..] == ToBytes(val / 256, n - 1);
    }
  }

  lemma {:induction false} FromBytesBound(bytes: seq<Byte>)
    ensures FromBytes(bytes) < Pow256(|bytes|)
  {
    if bytes == [] {
    } else {
      FromBytesBound(bytes[1..]);
    }
  }

  lemma {:induction false} FromBytesAppend(bytes: seq<Byte>, b: Byte)
    ensures FromBytes(bytes + [b]) == FromBytes(bytes) + b * Pow256(|bytes|)
  {
    if bytes == [] {
      assert ([] + [b])[1..] == [];
    } else {
      assert (bytes + [b])[1..] == bytes[1..] + [b];
      FromBytesAppend(bytes[1..], b);
      assert 256 * (b * Pow256(|bytes| - 1)) == b * Pow256(|bytes|);
    }
  }

  lemma {:induction false} ToBytesAt(val: nat, n: nat, i: nat)
    requires i < n
    ensures ToBytes(val, n)[i] == (val / Pow256(i)) % 256
  {
    if i == 0 {
    } else {
      ToBytesAt(val / 256, n - 1, i - 1);
      DivDiv(val, 256, Pow256(i - 1));
    }
  }

  // ---- Memory as a value ----

  /** The 2 MB are mirrored: only the low 21 bits of an address count. */
  function Offset(addr: nat): (o: nat)
    ensures o < RAM_SIZE
  {
    addr % RAM_SIZE
  }

  predicate IsRam(mem: seq<Byte>) {
    |mem| == RAM_SIZE
  }

  /** The whole access lies in one copy of the memory. Aligned accesses always do. */
  predicate Within(addr: nat, n: nat) {
    Offset(addr) + n <= RAM_SIZE
  }

  function Load(mem: seq<Byte>, addr: nat, n: nat): nat
    requires IsRam(mem) && Within(addr, n)
  {
    FromBytes(mem[Offset(addr)..Offset(addr) + n])
  }

  function Store(mem: seq<Byte>, addr: nat, n: nat, val: nat): (r: seq<Byte>)
    requires IsRam(mem) && Within(addr, n)
    ensures IsRam(r)
  {
    mem[..Offset(addr)] + ToBytes(val, n) + mem[Offset(addr) + n..]
  }

  /** The memory appears again after every 2 MB. */
  lemma Mirrored(mem: seq<Byte>, addr: nat, k: nat, n: nat, val: nat)
    requires IsRam(mem) && Within(addr, n)
    ensures Within(addr + 0x20_0000 * k, n)
    ensures Load(mem, addr + 0x20_0000 * k, n) == Load(mem, addr, n)
    ensures Store(mem, addr + 0x20_0000 * k, n, val) == Store(mem, addr, n, val)
  {
    DivModUnique(addr + 0x20_0000 * k, RAM_SIZE, addr / RAM_SIZE + k, addr % RAM_SIZE);
  }

  const WORD: nat := 4

  lemma WordFits()
    ensures Pow256(WORD) == 0x1_0000_0000
  {
    assert Pow256(4) == 256 * (256 * (256 * (256 * Pow256(0))));
  }

  /** A load returns what the last store to the same place left there. */
  lemma LoadAfterStore(mem: seq<Byte>, addr: nat, val: nat)
    requires IsRam(mem) && Within(addr, WORD) && val < 0x1_0000_0000
    ensures Load(Store(mem, addr, WORD, val), addr, WORD) == val
  {
    var o := Offset(addr);
    assert Store(mem, addr, WORD, val)[o..o + WORD] == ToBytes(val, WORD);
    WordFits();
    BytesRoundTrip(val, WORD);
  }

  /** A store leaves every word it does not overlap alone. */
  lemma LoadBesideStore(mem: seq<Byte>, addr: nat, val: nat, other: nat)
    requires IsRam(mem) && Within(addr, WORD) && Within(other, WORD)
    requires Offset(other) + WORD <= Offset(addr) || Offset(addr) + WORD <= Offset(other)
    ensures Load(Store(mem, addr, WORD, val), other, WORD) == Load(mem, other, WORD)
  {
    var o, after := Offset(other), Store(mem, addr, WORD, val);
    assert forall i :: o <= i < o + WORD ==> after[i] == mem[i];
    assert after[o..o + WORD] == mem[o..o + WORD];
  }

  // ---- Memory as words ----

  /** The number of words in RAM. */
  const WORDS: nat := 0x8_0000

  type Slot = s: nat | s < WORDS

  /** The word an address falls in: `(addr & 0x1ffffc) / 4`. */
  function SlotOf(addr: int): Slot {
    (addr / 4) % WORDS
  }

  predicate IsWords(w: seq<nat>) {
    |w| == WORDS
  }

  /** The aligned words of the memory. */
  function Words(mem: seq<Byte>): (w: seq<nat>)
    requires IsRam(mem)
    ensures |w| == WORDS
  {
    seq(WORDS, s requires 0 <= s < WORDS => Load(mem, 4 * s, WORD))
  }

  lemma WordsFit(mem: seq<Byte>, s: Slot)
    requires IsRam(mem)
    ensures Words(mem)[s] < 0x1_0000_0000
  {
    FromBytesBound(mem[4 * s..4 * s + WORD]);
    WordFits();
  }

  lemma WordsAfterStore(mem: seq<Byte>, addr: nat, val: nat)
    requires IsRam(mem) && addr % 4 == 0 && addr < RAM_SIZE && val < 0x1_0000_0000
    ensures Words(Store(mem, addr, WORD, val)) == Words(mem)[addr / 4 := val]
  {
    var slot := addr / 4;
    assert addr == 4 * slot;
    forall s | 0 <= s < WORDS
      ensures Load(Store(mem, addr, WORD, val), 4 * s, WORD) == if s == slot then val else Load(mem, 4 * s, WORD)
    {
      if s == slot {
        LoadAfterStore(mem, addr, val);
      } else {
        LoadBesideStore(mem, addr, val, 4 * s);
      }
    }
  }

  class Ram {
    const data: array<Byte>

    ghost predicate Valid()
      reads this, data
    {
      data.Length == RAM_SIZE
    }

    constructor ()
      ensures Valid() && fresh(data)
    {
      data := new Byte[RAM_SIZE](_ => 0xca);
    }

    method Read(addr: nat, n: nat) returns (v: nat)
      requires Valid() && Within(addr, n)
      ensures v == Load(data[..], addr, n)
    {
      var offset := addr % 0x20_0000;
      v := 0;
      var weight: nat := 1;
      for i := 0 to n
        invariant weight == Pow256(i)
        invariant v == FromBytes(data[offset..offset + i])
      {
        FromBytesAppend(data[offset..offset + i], data[offset + i]);
        assert data[offset..offset + i] + [data[offset + i]] == data[offset..offset + i + 1];
        v := v + data[offset + i] * weight;
        weight := weight * 256;
      }
      assert data[..][offset..offset + n] == data[offset..offset + n];
    }

    method Write(addr: nat, n: nat, val: nat)
      requires Valid() && Within(addr, n)
      modifies data
      ensures data[..] == Store(old(data[..]), addr, n, val)
    {
      var offset := addr % 0x20_0000;
      var weight: nat := 1;
      for i := 0 to n
        invariant weight == Pow256(i)
        invariant data[..offset] == old(data[..offset])
        invariant data[offset..offset + i] == ToBytes(val, n)[..i]
        invariant data[offset + i..] == old(data[offset + i..])
      {
        ToBytesAt(val, n, i);
        data[offset + i] := (val / weight) % 256;
        weight := weight * 256;
        assert data[offset..offset + i + 1] == data[offset..offset + i] + [data[offset + i]];
      }
      assert ToBytes(val, n)[..n] == ToBytes(val, n);
      assert data[..] == data[..offset] + data[offset..offset + n] + data[offset + n..];
      assert old(data[..])[..offset] == old(data[..offset]);
      assert old(data[..])[offset + n..] == old(data[offset + n..]);
    }

    method ReadWord(addr: nat) returns (v: nat)
      requires Valid() && addr % 4 == 0 && addr < RAM_SIZE
      ensures v == Words(data[..])[addr / 4]
    {
      v := Read(addr, 4);
    }

    method WriteWord(addr: nat, val: nat)
      requires Valid() && addr % 4 == 0 && addr < RAM_SIZE && val < 0x1_0000_0000
      modifies data
      ensures Words(data[..]) == Words(old(data[..]))[addr / 4 := val]
    {
      ghost var before := data[..];
      Write(addr, 4, val);
      WordsAfterStore(before, addr, val);
    }
  }
}
