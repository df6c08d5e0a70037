/** A linked list transfer and the GPU at the other end of it: what drawing a list of packets in
    RAM means (src/memory/mod.rs, src/gpu/mod.rs). */
module DmaToGpu {
  import opened Arithmetic
  import opened Memory
  import opened Dma
  import opened Gp0
  import opened Gp0Stream
  import opened Gp0Device

  lemma PayloadFits(mem: seq<Byte>, slot: Slot, n: nat)
    requires IsRam(mem)
    ensures forall k :: 0 <= k < n ==> Payload(Words(mem), slot, n)[k] < 0x1_0000_0000
  {
    forall k | 0 <= k < n ensures Payload(Words(mem), slot, n)[k] < 0x1_0000_0000 {
      WordsFit(mem, (slot + k + 1) % WORDS);
    }
  }

  lemma {:induction false} PacketsFit(mem: seq<Byte>, nodes: seq<Slot>)
    requires IsRam(mem)
    ensures forall k :: 0 <= k < |Packets(Words(mem), nodes)| ==> Packets(Words(mem), nodes)[k] < 0x1_0000_0000
  {
    if nodes != [] {
      PayloadFits(mem, nodes[0], PacketSize(Words(mem)[nodes[0]]));
      PacketsFit(mem, nodes[1..]);
    }
  }

  /** The GP0 words of a list of packets. */
  function Stream(mem: seq<Byte>, nodes: seq<Slot>): (words: seq<Word>)
    requires IsRam(mem)
  {
    PacketsFit(mem, nodes);
    Packets(Words(mem), nodes)
  }

  /** The GP0 words behind one header, from the `k`th on. */
  function PacketFrom(mem: seq<Byte>, slot: Slot, n: nat, k: nat): (words: seq<Word>)
    requires IsRam(mem) && k <= n
  {
    PayloadFits(mem, slot, n);
    Payload(Words(mem), slot, n)[k..]
  }

  lemma FeedNext(p: Port, words: seq<Word>, w: Word, rest: seq<Word>)
    requires p.Valid() && words == [w] + rest
    ensures Step(p, w).Valid() && Feed(Running(p), words) == Feed(Step(p, w), rest)
  {
    StepKeepsValid(p, w);
    assert words[0] == w && words[1..] == rest;
  }

  /** Reads the next word of a packet and sends it; `goal` is what the packet leads to. */
  method SendWord(ram: Ram, gpu: Gpu, addr: nat, ghost slot: Slot, ghost w: Word, ghost rest: seq<Word>, ghost goal: Machine)
    returns (ok: bool)
    requires ram.Valid() && addr == 4 * slot && gpu.Valid() && ram.data as object !in gpu.Repr()
    requires w == Words(ram.data[..])[slot] && Feed(Running(gpu.View()), [w] + rest) == goal
    modifies gpu.Repr()
    ensures ok ==> gpu.Valid() && Feed(Running(gpu.View()), rest) == goal
    ensures !ok ==> goal.Panicked?
  {
    FeedNext(gpu.View(), [w] + rest, w, rest);
    var command := ReadSlot(ram, addr, slot);
    ok := gpu.HandleWord(command);
  }

  /** The slot `k` words after another one. */
  function After(slot: Slot, k: nat): Slot {
    (slot + k) % WORDS
  }

  lemma PacketNext(mem: seq<Byte>, slot: Slot, n: nat, k: nat, left: seq<Word>) returns (w: Word, rest: seq<Word>)
    requires IsRam(mem) && k < n && left == PacketFrom(mem, slot, n, k)
    ensures w == Words(mem)[After(slot, k + 1)] && left == [w] + rest && rest == PacketFrom(mem, slot, n, k + 1)
  {
    WordsFit(mem, After(slot, k + 1));
    w, rest := Words(mem)[After(slot, k + 1)], PacketFrom(mem, slot, n, k + 1);
  }

  lemma NextAddress(slot: Slot, k: nat, addr: nat)
    requires addr == 4 * After(slot, k)
    ensures Mask(addr + 4) == 4 * After(slot, k + 1)
  {
    var x := slot + k;
    var q, r := x / WORDS, x % WORDS;
    if r + 1 < WORDS {
      DivModUnique(x + 1, WORDS, q, r + 1);
    } else {
      DivModUnique(x + 1, WORDS, q + 1, 0);
    }
  }

  /** The inner loop: each word goes to the GPU as soon as it is read. */
  method SendPacketTo(ram: Ram, gpu: Gpu, header: nat, size: nat, ghost slot: Slot) returns (ok: bool)
    requires ram.Valid() && header == 4 * slot && gpu.Valid() && ram.data as object !in gpu.Repr()
    modifies gpu.Repr()
    ensures gpu.Follows(Feed(Running(old(gpu.View())), PacketFrom(ram.data[..], slot, size, 0)), ok)
    ensures ok ==> gpu.Valid()
  {
    ghost var mem := ram.data[..];
    ghost var left := PacketFrom(mem, slot, size, 0);
    ghost var goal := Feed(Running(gpu.View()), left);
    var addr: nat := header;
    for k := 0 to size
      invariant ram.data[..] == mem && gpu.Valid() && addr == 4 * After(slot, k)
      invariant left == PacketFrom(mem, slot, size, k) && Feed(Running(gpu.View()), left) == goal
    {
      ghost var w, rest := PacketNext(mem, slot, size, k, left);
      NextAddress(slot, k, addr);
      addr := Mask(addr + 4);
      left := rest;
      ok := SendWord(ram, gpu, addr, After(slot, k + 1), w, rest, goal);
      if !ok {
        return;
      }
    }
    ok := true;
  }

  lemma StreamNext(mem: seq<Byte>, slot: Slot, nodes: seq<Slot>)
    requires IsRam(mem) && Chain(Words(mem), slot, nodes)
    ensures Stream(mem, nodes) == PacketFrom(mem, slot, PacketSize(Words(mem)[slot]), 0) + Stream(mem, nodes[1..])
    ensures if IsLast(Words(mem)[slot]) then Stream(mem, nodes[1..]) == []
            else Chain(Words(mem), SlotOf(Words(mem)[slot]), nodes[1..])
  {
  }

  /** Sends a list of packets to the GPU. */
  method SendListTo(ram: Ram, gpu: Gpu, base: nat, ghost nodes: seq<Slot>) returns (ok: bool)
    requires ram.Valid() && gpu.Valid() && ram.data as object !in gpu.Repr()
    requires Chain(Words(ram.data[..]), SlotOf(base), nodes)
    modifies gpu.Repr()
    ensures gpu.Follows(Feed(Running(old(gpu.View())), Stream(ram.data[..], nodes)), ok)
    ensures ok ==> gpu.Valid()
  {
    ghost var mem := ram.data[..];
    ghost var goal := Feed(Running(gpu.View()), Stream(mem, nodes));
    ghost var rest, slot := nodes, SlotOf(base);
    var addr: nat := Mask(base);
    while true
      invariant ram.data[..] == mem && gpu.Valid()
      invariant addr == 4 * (slot as int) && Chain(Words(mem), slot, rest)
      invariant Feed(Running(gpu.View()), Stream(mem, rest)) == goal
      decreases |rest|
    {
      var header := ReadSlot(ram, addr, slot);
      StreamNext(mem, slot, rest);
      ghost var first := PacketFrom(mem, slot, PacketSize(header), 0);
      FeedAppend(Running(gpu.View()), first, Stream(mem, rest[1..]));
      ok := SendPacketTo(ram, gpu, addr, header / 0x100_0000, slot);
      if !ok {
        return;
      }
      if (header / 0x80_0000) % 2 == 1 {
        return;
      }
      addr := Mask(header);
      slot, rest := SlotOf(header), rest[1..];
    }
  }

  /** Drawing a list: the renderer is told what the packets of the list mean, in the order of
      the list, and the GPU stops if and only if their words stop it. */
  method DrawList(ram: Ram, gpu: Gpu, base: nat) returns (ok: bool)
    requires ram.Valid() && gpu.Valid() && gpu.handler.Command? && ram.data as object !in gpu.Repr()
    requires Ends(Words(ram.data[..]), SlotOf(base))
    modifies gpu.Repr()
    ensures exists nodes: seq<Slot> ::
      && Chain(Words(ram.data[..]), SlotOf(base), nodes)
      && ok == !Parse(old(gpu.drawMode), Stream(ram.data[..], nodes)).stuck
      && (ok ==> gpu.log == old(gpu.log) + Parse(old(gpu.drawMode), Stream(ram.data[..], nodes)).log)
    ensures ok ==> gpu.Valid()
  {
    ghost var nodes: seq<Slot> :| Chain(Words(ram.data[..]), SlotOf(base), nodes);
    StreamAgrees(gpu.View(), Stream(ram.data[..], nodes));
    ok := SendListTo(ram, gpu, base, nodes);
  }

  /** An ordering table that was only cleared draws nothing, and leaves the GPU as it is. */
  lemma ClearedTableDrawsNothing(mem: seq<Byte>, base: nat, n: nat, nodes: seq<Slot>, p: Port)
    requires IsRam(mem) && n > 0 && TableAt(Words(mem), base, n, true) && Chain(Words(mem), SlotOf(base), nodes)
    requires p.Valid()
    ensures Stream(mem, nodes) == [] && Feed(Running(p), Stream(mem, nodes)) == Running(p)
  {
    OrderingTableRoundTrip(Words(mem), base, n);
  }

  /** Clearing a table and drawing it: the GPU and its renderer see nothing. */
  method ClearAndDraw(ram: Ram, gpu: Gpu, base: nat, n: nat) returns (ok: bool)
    requires ram.Valid() && gpu.Valid() && ram.data as object !in gpu.Repr() && base < 0x100_0000 && n > 0
    modifies ram.data, gpu.Repr()
    ensures ok && gpu.Valid() && gpu.View() == old(gpu.View())
  {
    DoDmaOtc(ram, base, n);
    OrderingTableRoundTrip(Words(ram.data[..]), base, n);
    ghost var nodes: seq<Slot> :| Chain(Words(ram.data[..]), SlotOf(base), nodes);
    ClearedTableDrawsNothing(ram.data[..], base, n, nodes, gpu.View());
    ok := SendListTo(ram, gpu, base, nodes);
  }
}
