/** DMA transfers that build an ordering table in RAM and that send a linked list of GPU
    packets (`do_dma_block` on the OTC port and `do_dma_linked_list`, src/memory/mod.rs).

    The DMA only ever accesses aligned words. Memory is the sequence of its words here, and a
    slot is the index of a word: the address divided by four. */
module Dma {
  import opened Arithmetic
  import opened Memory

  const END_OF_TABLE: nat := 0xff_ffff

  /** `addr & 0x1ffffc` */
  function Mask(addr: int): (a: nat)
    ensures a == 4 * SlotOf(addr)
  {
    addr % 0x20_0000 - addr % 4
  }

  // ---- Linked lists ----

  function PacketSize(header: nat): nat {
    header / 0x100_0000
  }

  predicate IsLast(header: nat) {
    (header / 0x80_0000) % 2 == 1
  }

  /** The first `n` words that follow the header in `slot`. */
  function Payload(w: seq<nat>, slot: Slot, n: nat): (words: seq<nat>)
    requires IsWords(w)
    ensures |words| == n
  {
    seq(n, k requires 0 <= k < n => w[(slot + k + 1) % WORDS])
  }

  function Packet(w: seq<nat>, slot: Slot): seq<nat>
    requires IsWords(w)
  {
    Payload(w, slot, PacketSize(w[slot]))
  }

  /** The headers met from `slot` are exactly `nodes`, and the last of them ends the list. */
  predicate Chain(w: seq<nat>, slot: Slot, nodes: seq<Slot>)
    requires IsWords(w)
    decreases |nodes|
  {
    && nodes != []
    && nodes[0] == slot
    && if IsLast(w[slot]) then |nodes| == 1 else Chain(w, SlotOf(w[slot]), nodes[1..])
  }

  ghost predicate Ends(w: seq<nat>, slot: Slot)
    requires IsWords(w)
  {
    exists nodes :: Chain(w, slot, nodes)
  }

  /** The concatenation of the packets of a list of headers. */
  function Packets(w: seq<nat>, nodes: seq<Slot>): seq<nat>
    requires IsWords(w)
  {
    if nodes == [] then [] else Packet(w, nodes[0]) + Packets(w, nodes[1..])
  }

  lemma {:induction false} ChainUnique(w: seq<nat>, slot: Slot, a: seq<Slot>, b: seq<Slot>)
    requires IsWords(w) && Chain(w, slot, a) && Chain(w, slot, b)
    ensures a == b
    decreases |a|
  {
    if !IsLast(w[slot]) {
      ChainUnique(w, SlotOf(w[slot]), a[1..], b[1..]);
      assert a == [a[0]] + a[1..] && b == [b[0]] + b[1..];
    }
  }

  /** From any of its headers on, a list is again a list. */
  lemma {:induction false} ChainSuffix(w: seq<nat>, slot: Slot, nodes: seq<Slot>, i: nat)
    requires IsWords(w) && Chain(w, slot, nodes) && i < |nodes|
    ensures Chain(w, nodes[i], nodes[i..])
    decreases |nodes|
  {
    if i > 0 {
      ChainSuffix(w, SlotOf(w[slot]), nodes[1..], i - 1);
      assert nodes[1..][i - 1..] == nodes[i..];
    }
  }

  /** A list that ends is acyclic: no header is met twice. */
  lemma ChainDistinct(w: seq<nat>, slot: Slot, nodes: seq<Slot>, i: nat, j: nat)
    requires IsWords(w) && Chain(w, slot, nodes) && i < j < |nodes|
    ensures nodes[i] != nodes[j]
  {
    assert |nodes[i..]| != |nodes[j..]|;
    ChainSuffix(w, slot, nodes, i);
    ChainSuffix(w, slot, nodes, j);
    if nodes[i] == nodes[j] {
      ChainUnique(w, nodes[i], nodes[i..], nodes[j..]);
    }
  }

  /** Distinct slots below `n` are at most `n`. */
  lemma {:induction false} DistinctSlots(nodes: seq<Slot>, slots: set<nat>)
    requires forall i, j :: 0 <= i < j < |nodes| ==> nodes[i] != nodes[j]
    requires forall i :: 0 <= i < |nodes| ==> nodes[i] in slots
    ensures |nodes| <= |slots|
  {
    if nodes == [] {
    } else {
      DistinctSlots(nodes[1..], slots - {nodes[0]});
    }
  }

  /** The slots below `n`. */
  function Below(n: nat): (s: set<nat>)
    ensures |s| == n && forall x: nat :: x in s <==> x < n
  {
    if n == 0 then {} else Below(n - 1) + {n - 1}
  }

  /** So a list that ends does so within as many headers as there are words in RAM. */
  lemma ChainLength(w: seq<nat>, slot: Slot, nodes: seq<Slot>)
    requires IsWords(w) && Chain(w, slot, nodes)
    ensures |nodes| <= WORDS
  {
    forall i, j | 0 <= i < j < |nodes| ensures nodes[i] != nodes[j] {
      ChainDistinct(w, slot, nodes, i, j);
    }
    DistinctSlots(nodes, Below(WORDS));
  }

  /** The walk that gives up after `limit` headers. */
  predicate EndsWithin(w: seq<nat>, slot: Slot, limit: nat)
    requires IsWords(w)
    decreases limit
  {
    limit > 0 && (IsLast(w[slot]) || EndsWithin(w, SlotOf(w[slot]), limit - 1))
  }

  lemma {:induction false} ChainEndsWithin(w: seq<nat>, slot: Slot, nodes: seq<Slot>, limit: nat)
    requires IsWords(w) && Chain(w, slot, nodes) && |nodes| <= limit
    ensures EndsWithin(w, slot, limit)
    decreases limit
  {
    if !IsLast(w[slot]) {
      ChainEndsWithin(w, SlotOf(w[slot]), nodes[1..], limit - 1);
    }
  }

  lemma {:induction false} EndsWithinChain(w: seq<nat>, slot: Slot, limit: nat) returns (nodes: seq<Slot>)
    requires IsWords(w) && EndsWithin(w, slot, limit)
    ensures Chain(w, slot, nodes)
    decreases limit
  {
    if IsLast(w[slot]) {
      nodes := [slot];
    } else {
      var rest := EndsWithinChain(w, SlotOf(w[slot]), limit - 1);
      nodes := [slot] + rest;
      assert nodes[1..] == rest;
    }
  }

  /** The transfer terminates exactly when the list ends within the words of RAM. */
  lemma TerminationDecidable(w: seq<nat>, slot: Slot)
    requires IsWords(w)
    ensures Ends(w, slot) <==> EndsWithin(w, slot, WORDS)
  {
    if Ends(w, slot) {
      var nodes :| Chain(w, slot, nodes);
      ChainLength(w, slot, nodes);
      ChainEndsWithin(w, slot, nodes, WORDS);
    }
    if EndsWithin(w, slot, WORDS) {
      var nodes := EndsWithinChain(w, slot, WORDS);
    }
  }

  method ReadSlot(ram: Ram, addr: nat, ghost slot: Slot) returns (v: nat)
    requires ram.Valid() && addr == 4 * slot
    ensures v == Words(ram.data[..])[slot]
  {
    v := ram.ReadWord(addr);
  }

  /** The inner loop: the words that follow a header. */
  method SendPacket(ram: Ram, header: nat, size: nat, ghost slot: Slot) returns (words: seq<nat>)
    requires ram.Valid() && header == 4 * slot
    ensures words == Payload(Words(ram.data[..]), slot, size)
  {
    words := [];
    var addr: nat := header;
    for k := 0 to size
      invariant addr == 4 * ((slot + k) % WORDS)
      invariant words == Payload(Words(ram.data[..]), slot, k)
    {
      addr := Mask(addr + 4);
      assert addr == 4 * ((slot + k + 1) % WORDS);
      var command := ReadSlot(ram, addr, (slot + k + 1) % WORDS);
      words := words + [command];
    }
  }

  /** Sends a list of packets to the GPU: exactly the concatenation of their payloads. The
      words sent are collected in `sent`. */
  method DoDmaLinkedList(ram: Ram, base: nat) returns (sent: seq<nat>)
    requires ram.Valid() && Ends(Words(ram.data[..]), SlotOf(base))
    ensures exists nodes ::
      Chain(Words(ram.data[..]), SlotOf(base), nodes) && sent == Packets(Words(ram.data[..]), nodes)
  {
    ghost var w := Words(ram.data[..]);
    ghost var all: seq<Slot> :| Chain(w, SlotOf(base), all);
    ghost var rest, slot := all, SlotOf(base);
    sent := [];
    var addr: nat := Mask(base);
    while true
      invariant addr == 4 * (slot as int) && Chain(w, slot, rest)
      invariant sent + Packets(w, rest) == Packets(w, all)
      decreases |rest|
    {
      var header := ReadSlot(ram, addr, slot);
      var words := SendPacket(ram, addr, header / 0x100_0000, slot);
      SendStep(w, slot, rest, sent, words);
      sent := sent + words;
      if (header / 0x80_0000) % 2 == 1 {
        break;
      }
      addr := Mask(header);
      slot, rest := SlotOf(header), rest[1..];
    }
    assert Chain(w, SlotOf(base), all) && sent == Packets(w, all);
  }

  /** One packet more is sent and one header less is left. */
  lemma SendStep(w: seq<nat>, slot: Slot, rest: seq<Slot>, sent: seq<nat>, words: seq<nat>)
    requires IsWords(w) && Chain(w, slot, rest) && words == Packet(w, slot)
    ensures (sent + words) + Packets(w, rest[1..]) == sent + Packets(w, rest)
    ensures if IsLast(w[slot]) then Packets(w, rest[1..]) == [] else Chain(w, SlotOf(w[slot]), rest[1..])
  {
    assert sent + (words + Packets(w, rest[1..])) == (sent + words) + Packets(w, rest[1..]);
  }

  // ---- Lists laid out in memory ----

  /** A packet as a program lays it out: a header in a slot, and words after it. */
  datatype Laid = Laid(slot: Slot, words: seq<nat>)

  /** The header: the number of words in the top byte, the address of the next one below. */
  lemma HeaderFields(size: nat, next: nat)
    requires next < 0x100_0000
    ensures var header := size * 0x100_0000 + next;
      && PacketSize(header) == size
      && (IsLast(header) <==> next >= 0x80_0000)
      && SlotOf(header) == SlotOf(next)
  {
    var header, bit := size * 0x100_0000 + next, next / 0x80_0000;
    DivModUnique(header, 0x100_0000, size, next);
    DivModUnique(header, 0x80_0000, 2 * size + bit, next % 0x80_0000);
    DivModUnique(2 * size + bit, 2, size, bit);
    DivModUnique(header, 4, 0x40_0000 * size + next / 4, next % 4);
    ModShift(header / 4, 8 * size, WORDS);
  }

  /** The packet is in memory, and its header points to `next`. */
  ghost predicate LaidAt(w: seq<nat>, l: Laid, next: nat)
    requires IsWords(w)
  {
    && w[l.slot] == |l.words| * 0x100_0000 + next
    && forall k :: 0 <= k < |l.words| ==> l.words[k] == w[(l.slot + k + 1) % WORDS]
  }

  /** Each packet of the list is in memory, its header points to the next one, and the last
      one ends the list. */
  ghost predicate LaidOut(w: seq<nat>, list: seq<Laid>)
    requires IsWords(w)
  {
    && list != []
    && if |list| == 1 then LaidAt(w, list[0], 0xff_ffff)
       else LaidAt(w, list[0], 4 * list[1].slot) && LaidOut(w, list[1..])
  }

  function Slots(list: seq<Laid>): (s: seq<Slot>)
    ensures |s| == |list| && forall i :: 0 <= i < |list| ==> s[i] == list[i].slot
  {
    if list == [] then [] else [list[0].slot] + Slots(list[1..])
  }

  function AllWords(list: seq<Laid>): seq<nat> {
    if list == [] then [] else list[0].words + AllWords(list[1..])
  }

  lemma LaidPacket(w: seq<nat>, l: Laid, next: nat)
    requires IsWords(w) && next < 0x100_0000 && LaidAt(w, l, next)
    ensures Packet(w, l.slot) == l.words
    ensures IsLast(w[l.slot]) <==> next >= 0x80_0000
    ensures SlotOf(w[l.slot]) == SlotOf(next)
  {
    HeaderFields(|l.words|, next);
  }

  lemma SlotOfAddress(slot: Slot)
    ensures SlotOf(4 * slot) == slot
  {
  }

  /** A list is sent as it was laid out: the words of its packets, in its order, whatever lies
      where in memory. */
  lemma {:induction false} LaidOutIsSent(w: seq<nat>, list: seq<Laid>)
    requires IsWords(w) && LaidOut(w, list)
    ensures Chain(w, list[0].slot, Slots(list)) && Packets(w, Slots(list)) == AllWords(list)
    decreases |list|
  {
    var nodes := Slots(list);
    assert nodes == [list[0].slot] + Slots(list[1..]) && nodes[1..] == Slots(list[1..]);
    if |list| == 1 {
      LaidPacket(w, list[0], 0xff_ffff);
    } else {
      LaidOutIsSent(w, list[1..]);
      LaidPacket(w, list[0], 4 * list[1].slot);
      SlotOfAddress(list[1].slot);
    }
  }

  // ---- The ordering table ----

  /** The slot of entry `k` of a table built backwards from word `b`. */
  function Entry(b: nat, k: nat): Slot {
    (b - k) % WORDS
  }

  /** What entry `k` holds: a pointer to the next entry, or the end of table marker. */
  function EntryValue(base: nat, k: nat, last: bool): (v: nat)
    ensures v < 0x100_0000
  {
    if last then END_OF_TABLE else (base - 4 * (k + 1)) % 0x20_0000
  }

  /** The memory holds the first `n` entries of a table at `base`, `done` saying whether they
      are all of them. A longer table than RAM wraps onto itself. */
  ghost predicate TableAt(w: seq<nat>, base: nat, n: nat, done: bool)
    requires IsWords(w)
  {
    forall k {:trigger Entry(base / 4, k)} :: 0 <= k < n && k < WORDS ==>
      w[Entry(base / 4, k)] == EntryValue(base, k, done && k == (n - 1) % WORDS)
  }

  /** Every word the table does not occupy is as it was. */
  ghost predicate RestKept(before: seq<nat>, after: seq<nat>, base: nat, n: nat)
    requires IsWords(before) && IsWords(after)
  {
    forall s :: 0 <= s < WORDS && before[s] != after[s] ==>
      exists k :: 0 <= k < n && k < WORDS && s == Entry(base / 4, k)
  }

  lemma EntryDistinct(b: nat, j: nat, k: nat)
    requires j < WORDS && k < WORDS
    ensures Entry(b, j) == Entry(b, k) <==> j == k
  {
  }

  /** One more entry, replacing the one it falls on when the table is longer than RAM. */
  lemma TableStep(w: seq<nat>, base: nat, i: nat, m: nat, last: bool)
    requires IsWords(w) && TableAt(w, base, i, false) && m == i % WORDS
    ensures TableAt(w[Entry(base / 4, m) := EntryValue(base, m, last)], base, i + 1, last)
  {
    forall k {:trigger Entry(base / 4, k)} | 0 <= k < i + 1 && k < WORDS
      ensures w[Entry(base / 4, m) := EntryValue(base, m, last)][Entry(base / 4, k)]
        == EntryValue(base, k, last && k == m)
    {
      EntryDistinct(base / 4, m, k);
    }
  }

  lemma RestStep(before: seq<nat>, w: seq<nat>, base: nat, i: nat, m: nat, v: nat)
    requires IsWords(before) && IsWords(w) && RestKept(before, w, base, i) && m == i % WORDS
    ensures RestKept(before, w[Entry(base / 4, m) := v], base, i + 1)
  {
    var after := w[Entry(base / 4, m) := v];
    forall s | 0 <= s < WORDS && before[s] != after[s]
      ensures exists k :: 0 <= k < i + 1 && k < WORDS && s == Entry(base / 4, k)
    {
      if s == Entry(base / 4, m) {
        assert 0 <= m < i + 1 && m < WORDS;
      } else {
        var k :| 0 <= k < i && k < WORDS && s == Entry(base / 4, k);
      }
    }
  }

  /** The address and the word of the loop's next step. */
  lemma OtcStep(base: nat, i: nat, m: nat, addr: nat)
    requires m == i % WORDS && addr == (base - 4 * i) % 0x1_0000_0000
    ensures addr % 0x20_0000 - addr % 4 == 4 * Entry(base / 4, m)
    ensures ((addr - 4) % 0x1_0000_0000) % 0x20_0000 == (base - 4 * (m + 1)) % 0x20_0000
    ensures (addr - 4) % 0x1_0000_0000 == (base - 4 * (i + 1)) % 0x1_0000_0000
  {
    var x, y := base - 4 * i, base - 4 * (i + 1);
    var q, p, r := x / 0x1_0000_0000, y / 0x1_0000_0000, i / WORDS;
    assert Mask(addr) == 4 * SlotOf(addr);
    assert addr / 4 == base / 4 - i - q * 0x4000_0000 == base / 4 - m - (r + 0x800 * q) * WORDS;
    ModShift(base / 4 - m, r + 0x800 * q, WORDS);
    ModShift(y, q, 0x1_0000_0000);
    assert y % 0x1_0000_0000 == base - 4 * (m + 1) - (r + 0x800 * p) * 0x20_0000;
    ModShift(base - 4 * (m + 1), r + 0x800 * p, 0x20_0000);
  }

  /** One step of the loop: entry `i` of the table is written at `addr`. */
  method WriteEntry(ram: Ram, addr: nat, last: bool, ghost base: nat, ghost i: nat) returns (next: nat)
    requires ram.Valid() && addr == (base - 4 * i) % 0x1_0000_0000
    modifies ram.data
    ensures Words(ram.data[..])
      == Words(old(ram.data[..]))[Entry(base / 4, i % WORDS) := EntryValue(base, i % WORDS, last)]
    ensures next == (base - 4 * (i + 1)) % 0x1_0000_0000
  {
    OtcStep(base, i, i % WORDS, addr);
    var curAddr := Mask(addr);
    var word := if last then 0xff_ffff else ((addr - 4) % 0x1_0000_0000) % 0x20_0000;
    ram.WriteWord(curAddr, word);
    next := (addr - 4) % 0x1_0000_0000;
  }

  /** Clears an ordering table of `n` entries backwards from `base`, on the OTC port. */
  method DoDmaOtc(ram: Ram, base: nat, n: nat)
    requires ram.Valid() && base < 0x100_0000
    modifies ram.data
    ensures TableAt(Words(ram.data[..]), base, n, true)
    ensures RestKept(Words(old(ram.data[..])), Words(ram.data[..]), base, n)
  {
    var addr: nat := base;
    var remsz := n;
    ghost var before := Words(ram.data[..]);
    ghost var w := before;
    while remsz > 0
      invariant 0 <= remsz <= n
      invariant addr == (base - 4 * (n - remsz)) % 0x1_0000_0000
      invariant w == Words(ram.data[..]) && TableAt(w, base, n - remsz, remsz == 0)
      invariant RestKept(before, w, base, n - remsz)
    {
      ghost var i := n - remsz;
      ghost var m := i % WORDS;
      TableStep(w, base, i, m, remsz == 1);
      RestStep(before, w, base, i, m, EntryValue(base, m, remsz == 1));
      addr := WriteEntry(ram, addr, remsz == 1, base, i);
      w := w[Entry(base / 4, m) := EntryValue(base, m, remsz == 1)];
      remsz := remsz - 1;
    }
  }

  /** `count` entries of the table, in the order the list visits them. */
  function Entries(b: nat, from: nat, count: nat): (s: seq<Slot>)
    ensures |s| == count
    decreases count
  {
    if count == 0 then [] else [Entry(b, from)] + Entries(b, from + 1, count - 1)
  }

  lemma PointerLeadsOn(base: nat, k: nat)
    ensures PacketSize(EntryValue(base, k, false)) == 0 && !IsLast(EntryValue(base, k, false))
    ensures SlotOf(EntryValue(base, k, false)) == Entry(base / 4, k + 1)
  {
    var x, r := base / 4 - (k + 1), base % 4;
    var q, m := x / WORDS, x % WORDS;
    var v := EntryValue(base, k, false);
    assert base - 4 * (k + 1) == q * 0x20_0000 + (4 * m + r);
    DivModUnique(base - 4 * (k + 1), 0x20_0000, q, 4 * m + r);
    DivModUnique(v, 4, m, r);
    DivModUnique(m, WORDS, 0, m);
  }

  lemma {:induction false} TableIsChain(w: seq<nat>, base: nat, m: nat, k: nat)
    requires IsWords(w) && k <= m < WORDS
    requires forall j {:trigger Entry(base / 4, j)} :: 0 <= j <= m ==>
      w[Entry(base / 4, j)] == EntryValue(base, j, j == m)
    ensures Chain(w, Entry(base / 4, k), Entries(base / 4, k, m + 1 - k))
    ensures Packets(w, Entries(base / 4, k, m + 1 - k)) == []
    decreases m - k
  {
    var nodes := Entries(base / 4, k, m + 1 - k);
    assert nodes[1..] == Entries(base / 4, k + 1, m - k);
    if k < m {
      TableIsChain(w, base, m, k + 1);
      PointerLeadsOn(base, k);
    }
    assert Packet(w, Entry(base / 4, k)) == [];
  }

  lemma TableVisited(w: seq<nat>, base: nat, m: nat)
    requires IsWords(w) && m < WORDS
    requires forall j {:trigger Entry(base / 4, j)} :: 0 <= j <= m ==>
      w[Entry(base / 4, j)] == EntryValue(base, j, j == m)
    ensures Chain(w, SlotOf(base), Entries(base / 4, 0, m + 1))
    ensures forall nodes :: Chain(w, SlotOf(base), nodes) ==>
      nodes == Entries(base / 4, 0, m + 1) && Packets(w, nodes) == []
  {
    var visited := Entries(base / 4, 0, m + 1);
    TableIsChain(w, base, m, 0);
    forall nodes | Chain(w, SlotOf(base), nodes)
      ensures nodes == visited
    {
      ChainUnique(w, SlotOf(base), nodes, visited);
    }
  }

  /** The round trip: the list starting at the table's base ends, visits the entries in order
      and sends nothing. It visits all `n` of them exactly when the table fits in RAM. */
  lemma OrderingTableRoundTrip(w: seq<nat>, base: nat, n: nat)
    requires IsWords(w) && n > 0 && TableAt(w, base, n, true)
    ensures Ends(w, SlotOf(base))
    ensures forall nodes :: Chain(w, SlotOf(base), nodes) ==>
      nodes == Entries(base / 4, 0, (n - 1) % WORDS + 1) && Packets(w, nodes) == []
    ensures |Entries(base / 4, 0, (n - 1) % WORDS + 1)| == n <==> n <= WORDS
  {
    TableVisited(w, base, (n - 1) % WORDS);
  }
}
