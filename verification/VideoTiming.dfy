/** The GPU's video clock: lines, fields and the vertical blanking interrupt, advanced lazily
    in batches of CPU cycles (`sync`, `predict_next_sync` and `in_vblank` in src/gpu/mod.rs). */
module VideoTiming {
  import opened Arithmetic
  import opened Batching
  import opened TimeKeeping
  import opened Interrupts

  datatype VMode = Ntsc | Pal {
    function TicksPerLine(): nat {
      match this case Ntsc => 3412 case Pal => 3404
    }

    function LinesPerFrame(): nat {
      match this case Ntsc => 263 case Pal => 314
    }
  }

  /** The video clock, with the VBlank bit of the interrupt controller and the frame counter.
      `ratio` is the GPU to CPU clock ratio in 16.16 fixed point, `phase` the fraction of a
      GPU tick left over, `field` 1 for the top field and 0 for the bottom one. */
  datatype Video = Video(
    vmode: VMode,
    ratio: nat,
    lineStart: nat,
    lineEnd: nat,
    interlaced: bool,
    field: nat,
    phase: nat,
    line: nat,
    tick: nat,
    vblank: bool,
    irqStatus: bool,
    frames: nat
  ) {
    function TicksPerLine(): nat {
      vmode.TicksPerLine()
    }

    function LinesPerFrame(): nat {
      vmode.LinesPerFrame()
    }

    /** What any sync establishes. The line may equal the number of lines per frame: it is
        then the first line of the next frame under another name. */
    ghost predicate Valid() {
      && 0 < ratio < 0x20000
      && field <= 1
      && phase < ONE_CYCLE
      && tick < TicksPerLine()
      && line <= LinesPerFrame()
      && vblank == InVBlank()
    }

    predicate InVBlank() {
      line < lineStart || line >= lineEnd
    }

    /** GPU ticks completed when `delta` more CPU cycles have gone by. */
    function GpuTicks(delta: nat): nat {
      (phase + delta * ratio) / ONE_CYCLE
    }

    function LinesCrossed(delta: nat): nat {
      (tick + GpuTicks(delta)) / TicksPerLine()
    }

    /** How far the GPU is into its tick, and the beam into its line, by then. */
    function PhaseAfter(delta: nat): nat {
      (phase + delta * ratio) % ONE_CYCLE
    }

    function TickAfter(delta: nat): nat {
      (tick + GpuTicks(delta)) % TicksPerLine()
    }

    /** The beam is found on another line: the edges of the blanking signal are noticed. */
    function BeamAt(newLine: nat, newField: nat): Video {
      var next := this.(line := newLine, field := newField);
      var now := next.InVBlank();
      next.(vblank := now,
            irqStatus := irqStatus || (!vblank && now),
            frames := if vblank && !now then (frames + 1) % 0x1_0000_0000 else frames)
    }

    /** The effect of `lines` line ends arriving in one batch. */
    function Scan(lines: nat): Video {
      var l := line + lines;
      if l > LinesPerFrame()
      then BeamAt(l % LinesPerFrame(), if interlaced then (l / LinesPerFrame() + field) % 2 else field)
      else BeamAt(l, field)
    }

    /** One `sync` that finds `delta` elapsed CPU cycles. */
    function Sync(delta: nat): Video {
      Scan(LinesCrossed(delta)).(
        phase := PhaseAfter(delta), tick := TickAfter(delta))
    }

    /** The reference for one line end. The last line of the picture ends with an interrupt,
        and its first line starts with a new frame. After the last line comes line 1 of the
        other field. */
    function NextLine(): Video {
      var last := line == LinesPerFrame();
      var next := this.(line := if last then 1 else line + 1,
                        field := if last && interlaced then (field + 1) % 2 else field);
      if line + 1 == lineEnd then next.(vblank := true, irqStatus := true)
      else if next.line == lineStart then next.(vblank := false, frames := (frames + 1) % 0x1_0000_0000)
      else next
    }

    /** False when the prediction subtracts one from a display start of zero. */
    predicate CanPredict() {
      line >= lineEnd ==> lineStart >= 1
    }

    /** Line ends until the blanking starts or stops, as the program counts them. */
    function LinesAhead(): int {
      if line >= lineEnd then 1 + (LinesPerFrame() - line) + (lineStart - 1)
      else if line < lineStart then 1 + (lineStart - 1 - line)
      else 1 + (lineEnd - 1 - line)
    }

    /** The first CPU cycle at which `lines` line ends have been seen. */
    function CyclesTo(lines: int): int
      requires ratio > 0
    {
      CeilDiv((lines * TicksPerLine() - tick) * ONE_CYCLE - phase, ratio)
    }

    /** The delay the GPU asks the scheduler for. */
    function Predict(): int
      requires ratio > 0
    {
      CyclesTo(LinesAhead())
    }

    /** The display ranges for which every prediction is exact. */
    predicate GoodRange() {
      && 1 <= lineStart < lineEnd
      && (lineEnd <= LinesPerFrame() || (lineEnd == LinesPerFrame() + 1 && lineStart >= 2))
    }
  }

  const STEP: Video -> Video := (v: Video) => v.Sync(1)
  const SYNC: (Video, nat) -> Video := (v: Video, delta: nat) => v.Sync(delta)

  /** The reference: synchronise on every single CPU cycle. */
  function StepEach(v: Video, n: nat): Video {
    Iterate(STEP, v, n)
  }

  // ---- Counting line ends ----

  /** `CyclesTo` is the least delay that crosses the given number of lines, and lands on it. */
  lemma CyclesToExact(v: Video, lines: nat, d: nat)
    requires v.Valid() && lines >= 1
    ensures v.CyclesTo(lines) > 0
    ensures v.LinesCrossed(d) >= lines <==> d >= v.CyclesTo(lines)
    ensures d == v.CyclesTo(lines) ==> v.LinesCrossed(d) == lines
  {
    CrossedIff(v, lines, d);
    var x := (lines * v.TicksPerLine() - v.tick) * ONE_CYCLE - v.phase;
    assert x > 0 by { assert lines * v.TicksPerLine() >= v.TicksPerLine(); }
    CeilDivLeast(x, v.ratio, 0);
    if d == v.CyclesTo(lines) {
      CrossedIff(v, lines + 1, d);
      CeilDivLeast(x, v.ratio, d - 1);
      assert (d - 1) * v.ratio == d * v.ratio - v.ratio;
      assert (lines + 1) * v.TicksPerLine() == lines * v.TicksPerLine() + v.TicksPerLine();
    }
  }

  lemma CrossedIff(v: Video, lines: nat, d: nat)
    requires v.Valid()
    ensures v.LinesCrossed(d) >= lines
      <==> v.phase + d * v.ratio >= (lines * v.TicksPerLine() - v.tick) * ONE_CYCLE
    ensures v.LinesCrossed(d) >= lines <==> d >= v.CyclesTo(lines)
  {
    var need := lines * v.TicksPerLine() - v.tick;
    DivAtLeast(v.tick + v.GpuTicks(d), v.TicksPerLine(), lines);
    DivAtLeast(v.phase + d * v.ratio, ONE_CYCLE, need);
    CeilDivLeast(need * ONE_CYCLE - v.phase, v.ratio, d);
  }

  /** Line ends and leftovers of two consecutive batches add up. */
  lemma SplitLines(v: Video, w: Video, a: nat, b: nat)
    requires v.Valid()
    requires w.phase == v.Sync(a).phase && w.tick == v.Sync(a).tick
    requires w.ratio == v.ratio && w.vmode == v.vmode
    ensures v.LinesCrossed(a + b) == v.LinesCrossed(a) + w.LinesCrossed(b)
    ensures v.Sync(a + b).phase == w.Sync(b).phase
    ensures v.Sync(a + b).tick == w.Sync(b).tick
  {
    assert v.phase + (a + b) * v.ratio == (v.phase + a * v.ratio) + b * v.ratio;
    SplitDivMod(v.phase + a * v.ratio, b * v.ratio, ONE_CYCLE);
    SplitDivMod(v.tick + v.GpuTicks(a), w.GpuTicks(b), v.TicksPerLine());
  }

  /** Cycles already elapsed come off every delay. */
  lemma CyclesToShift(v: Video, w: Video, a: nat, lines: int)
    requires v.Valid()
    requires w.phase == v.Sync(a).phase && w.tick == v.Sync(a).tick
    requires w.ratio == v.ratio && w.vmode == v.vmode
    ensures w.CyclesTo(lines - v.LinesCrossed(a)) == v.CyclesTo(lines) - a
  {
    var t, q, g := v.TicksPerLine(), v.LinesCrossed(a), v.GpuTicks(a);
    assert (lines - q) * t == lines * t - q * t;
    assert v.tick + g == q * t + w.tick;
    assert v.phase + a * v.ratio == g * ONE_CYCLE + w.phase;
    CeilDivShift((lines * t - v.tick) * ONE_CYCLE - v.phase, v.ratio, a);
  }

  // ---- Lines and blanking ----

  /** Before the predicted line end nothing visible happens and the same line is awaited;
      at it the blanking state flips. */
  lemma ScanToEvent(v: Video, q: nat)
    requires v.Valid() && v.GoodRange()
    ensures v.LinesAhead() >= 1
    ensures q < v.LinesAhead() ==>
      v.Scan(q).InVBlank() == v.InVBlank() && v.Scan(q).LinesAhead() == v.LinesAhead() - q
    ensures q == v.LinesAhead() ==> v.Scan(q).InVBlank() != v.InVBlank()
  {
    if q <= v.LinesAhead() {
      ScanOnce(v, q);
      BeamToEvent(v, q, LineAfter(v, q), FieldAfter(v, q));
    }
  }

  lemma BeamToEvent(v: Video, q: nat, line: nat, field: nat)
    requires v.Valid() && v.GoodRange() && q <= v.LinesAhead() && line == LineAfter(v, q)
    ensures var w := v.BeamAt(line, field);
      && (q < v.LinesAhead() ==> w.InVBlank() == v.InVBlank() && w.LinesAhead() == v.LinesAhead() - q)
      && (q == v.LinesAhead() ==> w.InVBlank() != v.InVBlank())
  {
  }

  lemma SyncIsValid(v: Video, d: nat)
    requires 0 < v.ratio < 0x20000 && v.field <= 1
    ensures v.Sync(d).Valid() && SameRange(v, v.Sync(d)) && v.Sync(d).GoodRange() == v.GoodRange()
  {
  }

  /** The blanking interrupt is predicted exactly: a sync at the predicted delay flips the
      blanking state, no shorter one does, and an early sync predicts the same date. */
  ghost predicate ExactAt(v: Video)
    requires v.Valid()
  {
    && v.CanPredict()
    && v.Predict() > 0
    && v.Sync(v.Predict()).InVBlank() != v.InVBlank()
    && forall d: nat :: d < v.Predict() ==>
         v.Sync(d).InVBlank() == v.InVBlank() && d + v.Sync(d).Predict() == v.Predict()
  }

  lemma EarlySync(v: Video, d: nat)
    requires v.Valid() && v.GoodRange() && d < v.Predict()
    ensures v.LinesCrossed(d) < v.LinesAhead()
    ensures v.Sync(d).InVBlank() == v.InVBlank() && d + v.Sync(d).Predict() == v.Predict()
  {
    ScanToEvent(v, 0);
    CyclesToExact(v, v.LinesAhead(), d);
    var q := v.LinesCrossed(d);
    ScanToEvent(v, q);
    LinesAheadOfSync(v, d);
    CyclesToShift(v, v.Sync(d), d, v.LinesAhead());
  }

  lemma LinesAheadOfSync(v: Video, d: nat)
    ensures v.Sync(d).LinesAhead() == v.Scan(v.LinesCrossed(d)).LinesAhead()
    ensures v.Sync(d).InVBlank() == v.Scan(v.LinesCrossed(d)).InVBlank()
  {
  }

  lemma EventSync(v: Video)
    requires v.Valid() && v.GoodRange()
    ensures v.Predict() > 0 && v.LinesCrossed(v.Predict()) == v.LinesAhead()
    ensures v.Sync(v.Predict()).InVBlank() != v.InVBlank()
  {
    ScanToEvent(v, 0);
    CyclesToExact(v, v.LinesAhead(), 0);
    CyclesToExact(v, v.LinesAhead(), v.Predict());
    ScanToEvent(v, v.LinesAhead());
    LinesAheadOfSync(v, v.Predict());
  }

  lemma VBlankPredictionExact(v: Video)
    requires v.Valid() && v.GoodRange()
    ensures ExactAt(v)
  {
    EventSync(v);
    forall d: nat | d < v.Predict()
      ensures v.Sync(d).InVBlank() == v.InVBlank() && d + v.Sync(d).Predict() == v.Predict()
    {
      EarlySync(v, d);
    }
  }

  // ---- Exactly which display ranges are predicted exactly ----

  predicate SameRange(v: Video, r: Video) {
    v.vmode == r.vmode && v.ratio == r.ratio && v.lineStart == r.lineStart && v.lineEnd == r.lineEnd
  }

  /** Every video state with this display range is predicted exactly. */
  ghost predicate AlwaysExact(r: Video) {
    forall v: Video | v.Valid() && SameRange(v, r) :: ExactAt(v)
  }

  /** The state at the very start of a line. */
  function AtLine(r: Video, line: nat): Video {
    var v := r.(line := line, tick := 0, phase := 0, field := 0);
    v.(vblank := v.InVBlank())
  }

  /** Ranges that never change the blanking state, or never start it. */
  lemma NeverFlips(v: Video, d: nat)
    requires v.Valid()
    requires v.lineStart >= v.lineEnd || v.lineStart > v.LinesPerFrame()
      || (v.lineStart == 0 && v.lineEnd > v.LinesPerFrame())
    ensures v.Sync(d).InVBlank() == v.InVBlank()
  {
    SyncIsValid(v, d);
  }

  /** From the last line, a range that ends beyond the frame wraps before it ends. */
  lemma WrapsBeforeEnd(v: Video)
    requires v.Valid() && v == AtLine(v, v.LinesPerFrame())
    requires 1 <= v.lineStart <= v.LinesPerFrame() < v.lineEnd
    requires !v.GoodRange()
    ensures !ExactAt(v)
  {
    var d := v.CyclesTo(1);
    CyclesToExact(v, 1, 0);
    CyclesToExact(v, 1, d);
    LinesAheadOfSync(v, d);
    assert v.Sync(d).line == 1 && v.LinesAhead() == v.lineEnd - v.LinesPerFrame();
    if v.lineEnd > v.LinesPerFrame() + 1 {
      CyclesToExact(v, v.LinesAhead(), d);
      assert d < v.Predict();
      if v.lineStart == 1 {
        SyncIsValid(v, d);
        CyclesToShift(v, v.Sync(d), d, v.LinesAhead());
        CyclesToGrows(v.Sync(d), v.LinesAhead() - 1, v.Sync(d).LinesAhead());
      }
    }
  }

  lemma CyclesToGrows(v: Video, a: nat, b: nat)
    requires v.Valid() && 1 <= a < b
    ensures v.CyclesTo(a) < v.CyclesTo(b)
  {
    CyclesToExact(v, a, v.CyclesTo(a) as int);
    CyclesToExact(v, a, 0);
    CyclesToExact(v, b, v.CyclesTo(a));
  }

  /** The prediction is exact in every state exactly for the good display ranges. */
  lemma ExactRanges(r: Video)
    requires 0 < r.ratio < 0x20000
    ensures AlwaysExact(r) <==> r.GoodRange()
  {
    if r.GoodRange() {
      forall v: Video | v.Valid() && SameRange(v, r)
        ensures ExactAt(v)
      {
        VBlankPredictionExact(v);
      }
    } else {
      var v := AtLine(r, r.LinesPerFrame());
      assert v.Valid();
      if r.lineStart == 0 && r.lineEnd <= r.LinesPerFrame() {
        assert !v.CanPredict();
      } else if 1 <= r.lineStart <= r.LinesPerFrame() < r.lineEnd {
        WrapsBeforeEnd(v);
      } else if v.Predict() > 0 {
        NeverFlips(v, v.Predict());
      }
      assert !ExactAt(v);
    }
  }

  // ---- Batches ----

  /** The date of the second event from now. */
  function Horizon(v: Video): int
    requires v.ratio > 0
  {
    v.Predict() + if v.Predict() >= 0 then v.Sync(v.Predict()).Predict() else 0
  }

  /** The line and the field after `lines` line ends that wrap the frame at most once. */
  function LineAfter(v: Video, lines: nat): nat {
    if v.line + lines > v.LinesPerFrame() then v.line + lines - v.LinesPerFrame() else v.line + lines
  }

  function FieldAfter(v: Video, lines: nat): int {
    if v.line + lines > v.LinesPerFrame() && v.interlaced then 1 - v.field else v.field
  }

  lemma ScanOnce(v: Video, lines: nat)
    requires v.Valid() && v.line + lines < 2 * v.LinesPerFrame()
    ensures v.Scan(lines) == v.BeamAt(LineAfter(v, lines), FieldAfter(v, lines))
  {
    var l, f := v.line + lines, v.LinesPerFrame();
    if l > f {
      DivModUnique(l, f, 1, l - f);
    }
  }

  lemma BeamAtTwice(v: Video, w: Video, i: nat, f: nat, j: nat, g: nat)
    requires w == v.BeamAt(i, f).(phase := w.phase, tick := w.tick) && v.vblank == v.InVBlank()
    requires w.vblank == v.vblank || w.vblank == v.BeamAt(j, g).vblank
    ensures w.BeamAt(j, g) == v.BeamAt(j, g).(phase := w.phase, tick := w.tick)
  {
  }

  predicate InTime(v: Video, delta: nat) {
    v.ratio > 0 && delta < Horizon(v)
  }

  /** Two batches of lines are one, when the frame wraps at most once and the blanking state
      changes at most once. */
  lemma SplitScan(v: Video, w: Video, i: nat, j: nat)
    requires v.Valid() && v.line + i + j < 2 * v.LinesPerFrame()
    requires w.Valid() && w == v.Scan(i).(phase := w.phase, tick := w.tick)
    requires w.vblank == v.vblank || w.vblank == v.Scan(i + j).vblank
    ensures w.Scan(j) == v.Scan(i + j).(phase := w.phase, tick := w.tick)
  {
    ScanOnce(v, i);
    ScanOnce(v, i + j);
    ScanOnce(w, j);
    BeamAtTwice(v, w, LineAfter(v, i), FieldAfter(v, i), LineAfter(v, i + j), FieldAfter(v, i + j));
    assert LineAfter(w, j) == LineAfter(v, i + j) && FieldAfter(w, j) == FieldAfter(v, i + j);
  }

  /** A batch cut in two, taken apart into line ends and leftovers. */
  lemma CutSync(v: Video, a: nat, b: nat) returns (i: nat, j: nat, p: nat, t: nat)
    requires v.Valid()
    ensures v.Sync(a) == v.Scan(i).(phase := v.Sync(a).phase, tick := v.Sync(a).tick)
    ensures v.Sync(a).Sync(b) == v.Sync(a).Scan(j).(phase := p, tick := t)
    ensures v.Sync(a + b) == v.Scan(i + j).(phase := p, tick := t)
    ensures i == v.LinesCrossed(a) && j == v.Sync(a).LinesCrossed(b) && i + j == v.LinesCrossed(a + b)
  {
    SplitLines(v, v.Sync(a), a, b);
    i, j := v.LinesCrossed(a), v.Sync(a).LinesCrossed(b);
    p, t := v.Sync(a + b).phase, v.Sync(a + b).tick;
  }

  /** A batch that ends before the second event, cut in two. */
  lemma SplitSync(v: Video, a: nat, b: nat)
    requires v.Valid() && v.GoodRange() && a + b < Horizon(v)
    ensures v.Sync(a).Sync(b) == v.Sync(a + b)
  {
    AtMostOneFlip(v, a, b);
    var i, j, p, t := CutSync(v, a, b);
    SplitScan(v, v.Sync(a), i, j);
  }

  lemma AtMostOneFlip(v: Video, a: nat, b: nat)
    requires v.Valid() && v.GoodRange() && a + b < Horizon(v)
    ensures v.line + v.LinesCrossed(a + b) < 2 * v.LinesPerFrame() && v.Sync(a).Valid()
    ensures v.Sync(a).vblank == v.vblank || v.Sync(a).vblank == v.Sync(a + b).vblank
  {
    BlankingBeforeHorizon(v, a);
    BlankingBeforeHorizon(v, a + b);
    SyncIsValid(v, a);
    SyncIsValid(v, a + b);
  }

  /** Line ends until the second event. */
  function LinesToSecond(v: Video): int {
    v.LinesAhead() + if v.LinesAhead() >= 0 then v.Scan(v.LinesAhead()).LinesAhead() else 0
  }

  lemma SecondEvent(v: Video)
    requires v.Valid() && v.GoodRange()
    ensures Horizon(v) == v.CyclesTo(LinesToSecond(v))
  {
    EventSync(v);
    LinesAheadOfSync(v, v.Predict());
    CyclesToShift(v, v.Sync(v.Predict()), v.Predict(), LinesToSecond(v));
  }

  lemma ScanToSecond(v: Video, q: nat)
    requires v.Valid() && v.GoodRange() && q < LinesToSecond(v)
    ensures v.line + q < 2 * v.LinesPerFrame()
    ensures v.Scan(q).InVBlank() == (v.InVBlank() == (q < v.LinesAhead()))
  {
    ScanToEvent(v, 0);
    assert v.line + v.LinesAhead() < 2 * v.LinesPerFrame();
    ScanOnce(v, v.LinesAhead());
    assert v.line + q < 2 * v.LinesPerFrame();
    ScanOnce(v, q);
  }

  /** Before the second event the frame wraps at most once, and the blanking state is the
      original one up to the first event and the opposite from it on. */
  lemma BlankingBeforeHorizon(v: Video, d: nat)
    requires v.Valid() && v.GoodRange() && d < Horizon(v)
    ensures v.line + v.LinesCrossed(d) < 2 * v.LinesPerFrame()
    ensures v.Sync(d).InVBlank() == (v.InVBlank() == (d < v.Predict()))
  {
    ScanToEvent(v, 0);
    SecondEvent(v);
    EventSync(v);
    SyncIsValid(v, v.Predict());
    ScanToEvent(v.Sync(v.Predict()), 0);
    LinesAheadOfSync(v, v.Predict());
    CyclesToExact(v, v.LinesAhead(), d);
    CyclesToExact(v, LinesToSecond(v), d);
    ScanToSecond(v, v.LinesCrossed(d));
    LinesAheadOfSync(v, d);
  }

  /** A batch that ends before the second event is what stepping every cycle does: same line,
      field, phase, interrupt and frame count. */
  lemma {:induction false} BatchRefinesStepping(v: Video, n: nat)
    requires v.Valid() && v.GoodRange() && n < Horizon(v)
    ensures StepEach(v, n) == v.Sync(n)
  {
    if n == 0 {
      SyncZero(v);
    } else {
      BatchRefinesStepping(v, n - 1);
      SplitSync(v, n - 1, 1);
    }
  }

  /** The interrupt comes with the blanking: before the second event a sync raises it if and
      only if the picture was being shown and the predicted delay has gone by. */
  lemma InterruptAtBlanking(v: Video, d: nat)
    requires v.Valid() && v.GoodRange() && d < Horizon(v)
    ensures v.Sync(d).irqStatus <==> v.irqStatus || (!v.vblank && d >= v.Predict())
  {
    BlankingBeforeHorizon(v, d);
    SyncIsValid(v, d);
    EdgeOfSync(v, d);
  }

  // ---- The beam, line by line ----

  const LINE: Video -> Video := (v: Video) => v.NextLine()

  lemma NextLineIsGood(v: Video)
    requires v.Valid() && v.GoodRange()
    ensures v.NextLine().Valid() && v.NextLine().GoodRange()
    ensures v.Scan(1) == v.NextLine()
  {
    ScanOnce(v, 1);
  }

  /** A CPU cycle is shorter than a line. */
  lemma OneCycle(v: Video, k: nat, p: nat, t: nat)
    requires v.Valid() && v.GoodRange()
    requires k == v.LinesCrossed(1) && p == v.Sync(1).phase && t == v.Sync(1).tick
    ensures k <= 1
    ensures v.Sync(1) == (if k == 0 then v else v.NextLine()).(phase := p, tick := t)
  {
    DivAtLeast(v.phase + v.ratio, ONE_CYCLE, 3);
    DivAtLeast(v.tick + v.GpuTicks(1), v.TicksPerLine(), 2);
    NextLineIsGood(v);
    ScanOnce(v, 0);
  }

  /** Stepping every CPU cycle takes the beam through the lines one by one: each line ends
      after exactly its GPU ticks, and the interrupt, the frame counter and the field change
      with the lines that the reference says. */
  lemma {:induction false} SteppingFollowsBeam(v: Video, n: nat)
    requires v.Valid() && v.GoodRange()
    ensures FollowsBeam(v, n, Iterate(LINE, v, v.LinesCrossed(n)))
  {
    if n == 0 {
      BeamAtRest(v);
    } else {
      SteppingFollowsBeam(v, n - 1);
      var q := v.LinesCrossed(n - 1);
      var beam, next := BeamNext(v, q);
      BeamStep(v, n, beam);
    }
  }

  ghost predicate FollowsBeam(v: Video, n: nat, beam: Video) {
    && beam.Valid() && beam.GoodRange()
    && StepEach(v, n) == beam.(phase := v.PhaseAfter(n), tick := v.TickAfter(n))
  }

  lemma BeamAtRest(v: Video)
    requires v.Valid() && v.GoodRange()
    ensures v.LinesCrossed(0) == 0 && FollowsBeam(v, 0, v)
  {
    SyncZero(v);
    ScanOnce(v, 0);
  }

  /** The GPU clock over one more cycle, from any state that is as far in its line. */
  lemma ClockStep(v: Video, n: nat, r: Video) returns (k: nat, p: nat, t: nat)
    requires v.Valid() && n > 0 && r.ratio == v.ratio && r.vmode == v.vmode
    requires r.phase == v.PhaseAfter(n - 1) && r.tick == v.TickAfter(n - 1)
    ensures k == r.LinesCrossed(1) && v.LinesCrossed(n) == v.LinesCrossed(n - 1) + k
    ensures p == v.PhaseAfter(n) == r.Sync(1).phase && t == v.TickAfter(n) == r.Sync(1).tick
  {
    SplitLines(v, r, n - 1, 1);
    k, p, t := r.LinesCrossed(1), v.PhaseAfter(n), v.TickAfter(n);
  }

  lemma BeamStep(v: Video, n: nat, beam: Video)
    requires v.Valid() && n > 0 && beam.ratio == v.ratio && beam.vmode == v.vmode
    requires FollowsBeam(v, n - 1, beam)
    ensures v.LinesCrossed(n - 1) <= v.LinesCrossed(n) <= v.LinesCrossed(n - 1) + 1
    ensures FollowsBeam(v, n, if v.LinesCrossed(n) == v.LinesCrossed(n - 1) then beam else beam.NextLine())
  {
    var r := StepEach(v, n - 1);
    var k, p, t := ClockStep(v, n, r);
    assert StepEach(v, n) == r.Sync(1);
    OneCycle(r, k, p, t);
    NextLineIsGood(beam);
    MoveInLine(beam, r.phase, r.tick);
  }

  lemma MoveInLine(v: Video, p: nat, t: nat)
    ensures v.(phase := p, tick := t).NextLine() == v.NextLine().(phase := p, tick := t)
  {
  }

  lemma BeamNext(v: Video, q: nat) returns (beam: Video, next: Video)
    ensures beam == Iterate(LINE, v, q) && beam.vmode == v.vmode && beam.ratio == v.ratio
    ensures next == Iterate(LINE, v, q + 1) == beam.NextLine()
  {
    SettingsKept(v, q);
    beam := Iterate(LINE, v, q);
    next := beam.NextLine();
  }

  lemma {:induction false} SettingsKept(v: Video, q: nat)
    ensures var beam := Iterate(LINE, v, q);
      beam.vmode == v.vmode && beam.ratio == v.ratio
  {
    if q > 0 {
      SettingsKept(v, q - 1);
    }
  }

  // ---- Any number of frames ----

  /** How often a point of a circle of `size` steps is passed on `count` steps from `start`. */
  function Passes(start: int, count: nat, point: int, size: nat): int
    requires size > 0
  {
    (start + count - point) / size - (start - point) / size
  }

  lemma PassesNext(start: int, count: nat, point: int, size: nat)
    requires size > 0
    ensures Passes(start, count + 1, point, size)
      == Passes(start, count, point, size) + if (start + count + 1 - point) % size == 0 then 1 else 0
  {
    NextDivMod(start + count - point, size);
  }

  lemma SamePoint(x: int, point: nat, size: nat)
    requires point < size
    ensures (x - point) % size == 0 <==> x % size == point
  {
    var q, r := x / size, x % size;
    assert x == q * size + r;
    if r >= point {
      DivModUnique(x - point, size, q, r - point);
    } else {
      assert (q - 1) * size == q * size - size;
      DivModUnique(x - point, size, q - 1, size + r - point);
    }
  }

  /** The beam `q` lines on: it goes around the lines, every round is another field, every time
      the picture is passed on the way is a frame, and the first time raises the interrupt. */
  ghost predicate Located(v: Video, q: nat, size: nat, beam: Video)
    requires size > 0
  {
    && beam.vblank == beam.InVBlank()
    && beam.line == (v.line - 1 + q) % size + 1
    && beam.field == (if v.interlaced then (v.field + (v.line - 1 + q) / size) % 2 else v.field)
    && Seen(v, beam, Passes(v.line, q, v.lineStart, size), Passes(v.line, q, v.lineEnd, size))
  }

  ghost predicate Seen(v: Video, beam: Video, starts: int, ends: int) {
    && starts >= 0 && ends >= 0
    && beam.frames == Counted(v.frames, starts)
    && (beam.irqStatus <==> v.irqStatus || ends >= 1)
  }

  /** The same clock further on, with the same settings. */
  predicate SameSettings(v: Video, beam: Video) {
    beam == v.(line := beam.line, field := beam.field, frames := beam.frames,
               irqStatus := beam.irqStatus, vblank := beam.vblank)
  }

  /** Which line ends show the end and the start of the picture. */
  lemma EndPassed(start: nat, q: nat, size: nat, line: nat, end: nat)
    requires 2 <= end <= size + 1 && line == (start - 1 + q) % size + 1
    ensures Passes(start, q + 1, end, size) == Passes(start, q, end, size) + if line + 1 == end then 1 else 0
  {
    PassesNext(start, q, end, size);
    SamePoint(start - 1 + q, end - 2, size);
  }

  lemma StartPassed(start: nat, q: nat, size: nat, next: nat, first: nat)
    requires 1 <= first <= size && next == (start + q) % size + 1
    ensures Passes(start, q + 1, first, size) == Passes(start, q, first, size) + if next == first then 1 else 0
  {
    PassesNext(start, q, first, size);
    SamePoint(start + q, first - 1, size);
  }

  lemma SeenNext(v: Video, beam: Video, starts: int, ends: int, next: Video)
    requires beam.Valid() && beam.GoodRange() && Seen(v, beam, starts, ends) && next == beam.NextLine()
    ensures Seen(v, next, starts + (if next.line == beam.lineStart then 1 else 0),
                 ends + if beam.line + 1 == beam.lineEnd then 1 else 0)
  {
    CountedNext(v.frames, starts, 1);
  }

  /** The next line and its field. */
  lemma PlaceNext(x: nat, size: nat, field: nat, line: nat)
    requires size > 0 && line == x % size + 1
    ensures (x + 1) % size + 1 == if line == size then 1 else line + 1
    ensures (field + (x + 1) / size) % 2
      == if line == size then ((field + x / size) % 2 + 1) % 2 else (field + x / size) % 2
  {
    NextDivMod(x, size);
  }

  lemma LocatedNext(v: Video, q: nat, size: nat, beam: Video)
    requires v.Valid() && v.GoodRange() && v.line >= 1 && size == v.LinesPerFrame()
    requires beam.Valid() && beam.GoodRange() && SameSettings(v, beam) && Located(v, q, size, beam)
    ensures Located(v, q + 1, size, beam.NextLine())
  {
    var next := beam.NextLine();
    NextLineIsGood(beam);
    PlaceNext(v.line - 1 + q, size, v.field, beam.line);
    EndPassed(v.line, q, size, beam.line, v.lineEnd);
    StartPassed(v.line, q, size, next.line, v.lineStart);
    SeenNext(v, beam, Passes(v.line, q, v.lineStart, size), Passes(v.line, q, v.lineEnd, size), next);
  }

  lemma LocatedHere(v: Video, size: nat)
    requires v.Valid() && v.line >= 1 && size == v.LinesPerFrame()
    ensures Located(v, 0, size, v)
  {
    DivModUnique(v.line - 1, size, 0, v.line - 1);
  }

  lemma {:induction false} BeamLocated(v: Video, q: nat, size: nat)
    requires v.Valid() && v.GoodRange() && v.line >= 1 && size == v.LinesPerFrame()
    ensures Located(v, q, size, Iterate(LINE, v, q))
  {
    if q == 0 {
      LocatedHere(v, size);
    } else {
      BeamLocated(v, q - 1, size);
      BeamKept(v, q - 1);
      var beam, next := BeamNext(v, q - 1);
      LocatedNext(v, q - 1, size, beam);
    }
  }

  lemma {:induction false} BeamKept(v: Video, q: nat)
    requires v.Valid() && v.GoodRange()
    ensures var beam := Iterate(LINE, v, q);
      && beam.Valid() && beam.GoodRange()
      && SameSettings(v, beam)
  {
    if q > 0 {
      BeamKept(v, q - 1);
      NextLineIsGood(Iterate(LINE, v, q - 1));
    }
  }

  /** What stepping does, in closed form, for any number of cycles: NTSC has 263 lines of 3412
      GPU ticks, PAL 314 of 3404. */
  lemma SteppingInClosedForm(v: Video, n: nat)
    requires v.Valid() && v.GoodRange() && v.line >= 1
    ensures var (size, length) := if v.vmode.Ntsc? then (263, 3412) else (314, 3404);
      var ticks := v.tick + (v.phase + n * v.ratio) / ONE_CYCLE;
      && Located(v, ticks / length, size, StepEach(v, n))
      && StepEach(v, n).tick == ticks % length
      && StepEach(v, n).phase == (v.phase + n * v.ratio) % ONE_CYCLE
  {
    SteppingFollowsBeam(v, n);
    BeamLocated(v, v.LinesCrossed(n), v.LinesPerFrame());
    LocatedInLine(v, v.LinesCrossed(n), v.LinesPerFrame(), Iterate(LINE, v, v.LinesCrossed(n)),
                  v.PhaseAfter(n), v.TickAfter(n));
  }

  lemma LocatedInLine(v: Video, q: nat, size: nat, beam: Video, p: nat, t: nat)
    requires size > 0 && Located(v, q, size, beam)
    ensures Located(v, q, size, beam.(phase := p, tick := t))
  {
  }

  // ---- Batches that are too long ----

  /** The times the display starts, and ends, in `n` cycles stepped one by one. */
  ghost function Starts(v: Video, n: nat): nat {
    if n == 0 then 0
    else Starts(v, n - 1) + if StepEach(v, n - 1).vblank && !StepEach(v, n).vblank then 1 else 0
  }

  ghost function Ends(v: Video, n: nat): nat {
    if n == 0 then 0
    else Ends(v, n - 1) + if !StepEach(v, n - 1).vblank && StepEach(v, n).vblank then 1 else 0
  }

  function Counted(frames: nat, k: nat): nat {
    if k == 0 then frames else (frames + k) % 0x1_0000_0000
  }

  lemma CountedNext(frames: nat, k: nat, j: nat)
    requires j <= 1
    ensures Counted(Counted(frames, k), j) == Counted(frames, k + j)
  {
    if k > 0 {
      SplitDivMod(frames + k, 1, 0x1_0000_0000);
    }
  }

  /** A sync notices at most one edge. */
  lemma EdgeOfSync(v: Video, d: nat)
    ensures v.Sync(d).frames == Counted(v.frames, if v.vblank && !v.Sync(d).vblank then 1 else 0)
    ensures v.Sync(d).irqStatus <==> v.irqStatus || (!v.vblank && v.Sync(d).vblank)
  {
  }

  lemma EdgeOfStep(v: Video, n: nat) returns (r: Video, s: Video, j: nat)
    requires n > 0
    ensures r == StepEach(v, n - 1) && s == StepEach(v, n)
    ensures Starts(v, n) == Starts(v, n - 1) + j
    ensures j <= 1 && s.frames == Counted(r.frames, j)
    ensures s.irqStatus <==> r.irqStatus || (!r.vblank && s.vblank)
  {
    r := StepEach(v, n - 1);
    EdgeOfSync(r, 1);
    s := r.Sync(1);
    j := if r.vblank && !s.vblank then 1 else 0;
  }

  /** Starts and ends alternate. */
  lemma {:induction false} EdgesAlternate(v: Video, n: nat)
    ensures StepEach(v, n).vblank == v.vblank <==> Starts(v, n) == Ends(v, n)
    ensures Starts(v, n) != Ends(v, n) ==> Starts(v, n) == if v.vblank then Ends(v, n) + 1 else Ends(v, n) - 1
  {
    if n > 0 {
      EdgesAlternate(v, n - 1);
    }
  }

  /** The frame counter counts the starts. */
  lemma {:induction false} FramesCountStarts(v: Video, n: nat)
    ensures StepEach(v, n).frames == Counted(v.frames, Starts(v, n))
  {
    if n > 0 {
      FramesCountStarts(v, n - 1);
      FramesCounted(v, n, Starts(v, n - 1));
    }
  }

  lemma FramesCounted(v: Video, n: nat, k: nat)
    requires n > 0 && k == Starts(v, n - 1) && StepEach(v, n - 1).frames == Counted(v.frames, k)
    ensures StepEach(v, n).frames == Counted(v.frames, Starts(v, n))
  {
    var r, s, j := EdgeOfStep(v, n);
    CountedNext(v.frames, k, j);
  }

  /** The interrupt is up from the first end of the picture on. */
  lemma {:induction false} InterruptMeansEnd(v: Video, n: nat)
    ensures StepEach(v, n).irqStatus <==> v.irqStatus || Ends(v, n) >= 1
  {
    if n > 0 {
      InterruptMeansEnd(v, n - 1);
      var r, s, j := EdgeOfStep(v, n);
    }
  }

  lemma {:induction false} EdgesGrow(v: Video, a: nat, b: nat)
    requires a <= b
    ensures Starts(v, a) <= Starts(v, b) && Ends(v, a) <= Ends(v, b)
    decreases b
  {
    if a < b {
      EdgesGrow(v, a, b - 1);
    }
  }

  /** Stepping to the first event flips the blanking state. */
  lemma Flips(v: Video) returns (p: nat, u: Video)
    requires v.Valid() && v.GoodRange()
    ensures p == v.Predict() > 0 && u == v.Sync(p) == StepEach(v, p)
    ensures u.Valid() && u.GoodRange() && u.vblank != v.vblank && Horizon(v) == p + u.Predict() > p
  {
    EventSync(v);
    p := v.Predict();
    u := v.Sync(p);
    SyncIsValid(v, p);
    EventSync(u);
    BatchRefinesStepping(v, p);
  }

  /** Stepping to the second event flips it back. */
  lemma TwoFlips(v: Video)
    requires v.Valid() && v.GoodRange()
    ensures 0 < v.Predict() < Horizon(v)
    ensures StepEach(v, v.Predict()).vblank != v.vblank && StepEach(v, Horizon(v)).vblank == v.vblank
  {
    var p, u := Flips(v);
    var q, w := Flips(u);
    IterateAdd(STEP, v, p, q);
  }

  lemma BothEdgesSeen(v: Video, n: nat)
    requires v.Valid() && v.GoodRange() && n >= Horizon(v)
    ensures Starts(v, n) >= 1 && Ends(v, n) >= 1
  {
    TwoFlips(v);
    EdgesAlternate(v, v.Predict());
    EdgesAlternate(v, Horizon(v));
    EdgesGrow(v, v.Predict(), Horizon(v));
    EdgesGrow(v, Horizon(v), n);
  }

  lemma CountsDiffer(frames: nat, j: nat, k: nat)
    requires j < k && k - j < 0x1_0000_0000 && j <= 1
    ensures Counted(frames, j) != Counted(frames, k)
  {
    var m := 0x1_0000_0000;
    if j == 0 && frames >= m {
    } else {
      var x := Counted(frames, j);
      SplitDivMod(frames + j, k - j, m);
      if x + (k - j) >= m {
        DivModUnique(x + (k - j), m, 1, x + (k - j) - m);
      } else {
        DivModUnique(x + (k - j), m, 0, x + (k - j));
      }
      if j == 0 {
        DivModUnique(frames, m, 0, frames);
      }
    }
  }

  /** The bound is exact. Until the 32 bit frame counter has come around, a batch does what
      stepping does if and only if it ends before the second event. */
  lemma BatchExactness(v: Video, n: nat)
    requires v.Valid() && v.GoodRange() && Starts(v, n) < 0x1_0000_0000
    ensures StepEach(v, n) == v.Sync(n) <==> n < Horizon(v)
  {
    if n < Horizon(v) {
      BatchRefinesStepping(v, n);
    } else {
      BothEdgesSeen(v, n);
      EdgesAlternate(v, n);
      FramesCountStarts(v, n);
      EdgeOfSync(v, n);
      var j := if v.vblank && !v.Sync(n).vblank then 1 else 0;
      if j < Starts(v, n) {
        CountsDiffer(v.frames, j, Starts(v, n));
      }
    }
  }

  lemma SyncZero(v: Video)
    requires v.Valid()
    ensures v.Sync(0) == v
  {
    assert v.phase + 0 * v.ratio == v.phase;
  }

  /** Over a whole run of syncs, each before the second event predicted at the time, lazy
      emulation is cycle by cycle emulation. */
  lemma LazyRunIsExact(v: Video, deltas: seq<nat>)
    requires v.Valid() && v.GoodRange() && Timely(SYNC, InTime, v, deltas)
    ensures SyncAll(SYNC, v, deltas) == StepEach(v, Sum(deltas))
  {
    var good := (x: Video) => x.Valid() && x.GoodRange();
    forall x: Video, d: nat | good(x) && InTime(x, d)
      ensures SYNC(x, d) == StepEach(x, d) && good(SYNC(x, d))
    {
      BatchRefinesStepping(x, d);
      SyncIsValid(x, d);
    }
    RunIsExact(STEP, SYNC, InTime, good, v, deltas);
  }

  lemma PredictPositive(v: Video)
    requires v.Valid() && v.CanPredict()
    ensures v.Predict() > 0
  {
    assert v.LinesAhead() >= 1;
    CyclesToExact(v, v.LinesAhead(), 0);
  }

  // ---- The device ----

  lemma ScanLeavesRest(v: Video, lines: nat, p: nat, t: nat)
    ensures v.(phase := p, tick := t).Scan(lines) == v.Scan(lines).(phase := p, tick := t)
  {
  }

  lemma SyncInParts(v: Video, d: nat, p: nat, t: nat, lines: nat)
    requires p == v.PhaseAfter(d) && t == v.TickAfter(d) && lines == v.LinesCrossed(d)
    ensures v.(phase := p, tick := t).Scan(lines) == v.Sync(d)
  {
    ScanLeavesRest(v, lines, p, t);
  }

  class VideoClock {
    var vmode: VMode
    var ratio: nat
    var displayLineStart: nat
    var displayLineEnd: nat
    var interlaced: bool
    var field: nat
    var gpuClockPhase: nat
    var displayLine: nat
    var displayLineTick: nat
    var vblankInterrupt: bool
    var frames: nat

    ghost function View(irq: InterruptState): Video
      reads this, irq
    {
      Video(vmode, ratio, displayLineStart, displayLineEnd, interlaced, field, gpuClockPhase,
            displayLine, displayLineTick, vblankInterrupt, Interrupt.VBlank in irq.status, frames)
    }

    method PredictNextSync(tk: TimeKeeper, ghost irq: InterruptState)
      requires View(irq).Valid() && View(irq).CanPredict() && tk.View().Valid()
      requires tk.View().now + View(irq).Predict() <= U64_MAX
      modifies tk
      ensures View(irq).Predict() > 0
      ensures tk.View() == Apply(old(tk.View()), SetNextSyncDelta(Peripheral.Gpu, View(irq).Predict()))
    {
      PredictPositive(View(irq));
      var ticksPerLine, linesPerFrame := vmode.TicksPerLine(), vmode.LinesPerFrame();
      var delta := ticksPerLine - displayLineTick;
      if displayLine >= displayLineEnd {
        delta := delta + (linesPerFrame - displayLine) * ticksPerLine;
        delta := delta + (displayLineStart - 1) * ticksPerLine;
      } else if displayLine < displayLineStart {
        delta := delta + (displayLineStart - 1 - displayLine) * ticksPerLine;
      } else {
        delta := delta + (displayLineEnd - 1 - displayLine) * ticksPerLine;
      }
      delta := delta * ONE_CYCLE;
      delta := delta - gpuClockPhase;
      delta := (delta + ratio - 1) / ratio;
      assert delta == View(irq).Predict();
      tk.SetNextSyncDelta(Peripheral.Gpu, delta);
    }

    /** Brings the video clock up to the current date and schedules the next blanking edge. */
    method Sync(tk: TimeKeeper, irq: InterruptState)
      requires 0 < ratio < 0x20000 && field <= 1 && tk.View().Valid()
      requires var v := View(irq).Sync(tk.View().Unseen(Peripheral.Gpu));
        v.CanPredict() && tk.View().now + v.Predict() <= U64_MAX
      modifies this, tk, irq
      ensures View(irq) == old(View(irq)).Sync(old(tk.View()).Unseen(Peripheral.Gpu))
      ensures View(irq).Valid() && View(irq).Predict() > 0
      ensures irq.status - {Interrupt.VBlank} == old(irq.status) - {Interrupt.VBlank}
      ensures var synced := Apply(old(tk.View()), Op.Sync(Peripheral.Gpu));
        tk.View() == Apply(synced, SetNextSyncDelta(Peripheral.Gpu, View(irq).Predict()))
    {
      var elapsed := tk.Sync(Peripheral.Gpu);
      SyncIsValid(View(irq), elapsed);
      Elapse(elapsed, irq);
      PredictNextSync(tk, irq);
    }

    /** The part of `sync` between asking the clock and predicting. */
    method Elapse(elapsed: nat, irq: InterruptState)
      requires 0 < ratio < 0x20000 && field <= 1
      modifies this, irq
      ensures View(irq) == old(View(irq)).Sync(elapsed)
      ensures irq.status - {Interrupt.VBlank} == old(irq.status) - {Interrupt.VBlank}
    {
      ghost var before := View(irq);
      var delta := gpuClockPhase + elapsed * ratio;
      gpuClockPhase := delta % 0x10000;
      delta := delta / 0x10000;
      var ticksPerLine, linesPerFrame := vmode.TicksPerLine(), vmode.LinesPerFrame();
      var lineTick := displayLineTick + delta;
      var line := displayLine + lineTick / ticksPerLine;
      displayLineTick := lineTick % ticksPerLine;
      SyncInParts(before, elapsed, gpuClockPhase, displayLineTick, line - displayLine);
      MoveBeam(line, linesPerFrame, irq);
    }

    /** The part of `sync` that follows the conversion from cycles to lines. */
    method MoveBeam(line: nat, linesPerFrame: nat, irq: InterruptState)
      requires line >= displayLine && linesPerFrame == View(irq).LinesPerFrame() && field <= 1
      modifies this, irq
      ensures View(irq) == old(View(irq)).Scan(line - old(displayLine))
      ensures irq.status - {Interrupt.VBlank} == old(irq.status) - {Interrupt.VBlank}
    {
      if line > linesPerFrame {
        if interlaced {
          var nframes := line / linesPerFrame;
          field := if (nframes + field) % 2 != 0 then 1 else 0;
        }
        displayLine := line % linesPerFrame;
      } else {
        displayLine := line;
      }
      var vblank := displayLine < displayLineStart || displayLine >= displayLineEnd;
      if !vblankInterrupt && vblank {
        irq.Assert(Interrupt.VBlank);
      }
      if vblankInterrupt && !vblank {
        frames := (frames + 1) % 0x1_0000_0000;
      }
      vblankInterrupt := vblank;
    }
  }
}
