/** The 16 byte ring buffers between the host and the CD-ROM sub-CPU (src/cdrom/mod.rs). */
module Fifos {

  type Byte = bv8

  const CAPACITY: nat := 16

  /** A position in the buffer and a carry bit. */
  type Index = i: nat | i < 32

  /** The low five bits of a sum of indexes. */
  function Wrap(i: nat): Index
    requires i < 64
  {
    if i < 32 then i else i - 32
  }

  /** The low four bits: the position. */
  function Cell(i: Index): (k: nat)
    ensures k < CAPACITY
  {
    if i < 16 then i else i - 16
  }

  datatype Fifo = Fifo(buffer: seq<Byte>, writeIdx: Index, readIdx: Index) {
    ghost predicate Valid() {
      |buffer| == CAPACITY
    }

    function IsEmpty(): bool {
      writeIdx == readIdx
    }

    /** The two indexes differ in the carry alone. */
    function IsFull(): bool {
      writeIdx == Wrap(readIdx + 16)
    }

    function Len(): Index {
      Wrap(writeIdx + (32 - readIdx))
    }

    function Push(v: Byte): Fifo
      requires Valid()
    {
      Fifo(buffer[Cell(writeIdx) := v], Wrap(writeIdx + 1), readIdx)
    }

    function Pop(): (Byte, Fifo)
      requires Valid()
    {
      (buffer[Cell(readIdx)], Fifo(buffer, writeIdx, Wrap(readIdx + 1)))
    }

    /** The bytes waiting in the buffer. */
    ghost function Contents(): seq<Byte>
      requires Valid()
    {
      seq(Len(), i requires 0 <= i < 32 => At(i))
    }

    ghost function At(i: nat): Byte
      requires Valid() && i < 32
    {
      buffer[Cell(Wrap(readIdx + i))]
    }

    /** A buffer that never held more than it has room for. */
    ghost predicate Sound() {
      Valid() && Len() <= CAPACITY
    }
  }

  function Empty(): (f: Fifo)
    ensures f.Sound() && f.Contents() == [] && f.Len() == 0
  {
    Fifo(seq(CAPACITY, _ => 0), 0, 0)
  }

  function PushSlice(f: Fifo, bytes: seq<Byte>): (r: Fifo)
    requires f.Valid()
    ensures r.Valid()
    decreases |bytes|
  {
    if bytes == [] then f else PushSlice(f.Push(bytes[0]), bytes[1..])
  }

  /** The flags read off the indexes say whether the queue is empty or full. */
  lemma FlagsAreExact(f: Fifo)
    requires f.Sound()
    ensures f.IsEmpty() <==> f.Contents() == []
    ensures f.IsFull() <==> |f.Contents()| == CAPACITY
    ensures f.Len() == |f.Contents()|
  {
  }

  /** Below its capacity the ring buffer is a queue. */
  lemma PushIsEnqueue(f: Fifo, v: Byte)
    requires f.Sound() && f.Len() < CAPACITY
    ensures f.Push(v).Sound() && f.Push(v).Contents() == f.Contents() + [v]
  {
    var g := f.Push(v);
    assert g.Len() == f.Len() + 1;
    forall i: nat | i < f.Len() ensures g.At(i) == f.At(i) {
      assert Cell(Wrap(f.readIdx + i)) != Cell(f.writeIdx);
    }
    assert g.At(f.Len()) == v by {
      assert Wrap(f.readIdx + f.Len()) == f.writeIdx;
    }
    assert |g.Contents()| == |f.Contents() + [v]|;
    assert forall i: nat :: i < f.Len() ==> g.Contents()[i] == g.At(i) == f.At(i) == f.Contents()[i];
    assert g.Contents()[f.Len()] == v;
  }

  lemma PopIsDequeue(f: Fifo)
    requires f.Sound() && f.Len() > 0
    ensures var (v, g) := f.Pop();
      g.Sound() && v == f.Contents()[0] && g.Contents() == f.Contents()[1..]
  {
    var (v, g) := f.Pop();
    assert g.Len() == f.Len() - 1;
    forall i: nat | i < g.Len() ensures g.Contents()[i] == f.Contents()[i + 1] {
      assert Wrap(g.readIdx + i) == Wrap(f.readIdx + (i + 1));
      assert g.At(i) == f.At(i + 1);
    }
    assert v == f.At(0);
  }

  // ---- Past its capacity ----

  lemma {:induction false} PushSliceIndexes(f: Fifo, bytes: seq<Byte>)
    requires f.Valid()
    ensures PushSlice(f, bytes).writeIdx == (f.writeIdx + |bytes|) % 32
    ensures PushSlice(f, bytes).readIdx == f.readIdx
    decreases |bytes|
  {
    if bytes != [] {
      PushSliceIndexes(f.Push(bytes[0]), bytes[1..]);
      NextIndex(f.writeIdx, |bytes|);
    }
  }

  lemma NextIndex(i: Index, n: nat)
    requires n > 0
    ensures (Wrap(i + 1) + (n - 1)) % 32 == (i + n) % 32
  {
  }

  lemma {:induction false} PushSliceSplit(f: Fifo, bytes: seq<Byte>, v: Byte)
    requires f.Valid()
    ensures PushSlice(f, bytes + [v]) == PushSlice(f, bytes).Push(v)
    decreases |bytes|
  {
    if bytes == [] {
      assert bytes + [v] == [v] && [v][1..] == [];
    } else {
      assert (bytes + [v])[1..] == bytes[1..] + [v];
      PushSliceSplit(f.Push(bytes[0]), bytes[1..], v);
    }
  }

  /** The count of a buffer that overflows is modulo 32, and whenever it comes out as one, as
      after 33 bytes, the byte delivered is the last one pushed. */
  lemma OverflowKeepsLast(bytes: seq<Byte>, v: Byte)
    ensures var f := PushSlice(Empty(), bytes + [v]);
      && f.Len() == (|bytes| + 1) % 32
      && (f.Len() == 1 ==> f.Pop().0 == v)
  {
    PushSliceSplit(Empty(), bytes, v);
    PushSliceIndexes(Empty(), bytes + [v]);
    PushSliceIndexes(Empty(), bytes);
    LenFromZero(PushSlice(Empty(), bytes + [v]));
    LastOfOverflow(PushSlice(Empty(), bytes), v);
  }

  lemma LastOfOverflow(f: Fifo, v: Byte)
    requires f.Valid() && f.readIdx == 0
    ensures f.Push(v).Len() == 1 ==> f.Push(v).Pop().0 == v
  {
  }

  lemma LenFromZero(f: Fifo)
    requires f.readIdx == 0
    ensures f.Len() == f.writeIdx
  {
  }
}
