/** What MVMVA and RTPS leave in every register and in every bit of the flag register, stated
    from the registers before (src/cpu/gte/mod.rs). */
module GteResults {
  import opened GteArithmetic
  import opened Divider
  import opened Gte

  predicate Outside(x: int, lo: int, hi: int) {
    x < lo || x > hi
  }

  /** `r` is what is left of `x` in a register that holds `lo` to `hi`. */
  predicate Saturated(x: int, lo: int, hi: int, r: int) {
    (x < lo ==> r == lo) && (x > hi ==> r == hi) && (lo <= x <= hi ==> r == x)
  }

  /** The least value of IR: negative numbers are kept or not, as the command says. */
  function LeastIr(cfg: Config): int {
    if cfg.clampNegative then 0 else -0x8000
  }

  // ---- Rows ----

  /** A row is the control vector's component, with 12 fractional bits, and the product of the
      matrix row and the vector. */
  lemma RowFormula(g: Regs, mat: nat, vec: nat, crv: nat)
    requires g.Valid() && mat < 3 && vec < 4 && crv < 4
    ensures var m, v, c := g.matrices[mat], g.v[vec], g.control[crv];
      && ExactRow(g, mat, vec, crv, 0) == c.x * 4096 + (m.r0.x * v.x + m.r0.y * v.y + m.r0.z * v.z)
      && ExactRow(g, mat, vec, crv, 1) == c.y * 4096 + (m.r1.x * v.x + m.r1.y * v.y + m.r1.z * v.z)
      && ExactRow(g, mat, vec, crv, 2) == c.z * 4096 + (m.r2.x * v.x + m.r2.y * v.y + m.r2.z * v.z)
  {
    var m, v := g.matrices[mat], g.v[vec];
    SumOfThree(v.x * m.r0.x, v.y * m.r0.y, v.z * m.r0.z, Products(v, m.r0));
    SumOfThree(v.x * m.r1.x, v.y * m.r1.y, v.z * m.r1.z, Products(v, m.r1));
    SumOfThree(v.x * m.r2.x, v.y * m.r2.y, v.z * m.r2.z, Products(v, m.r2));
  }

  /** RTPS transforms vector 0 by matrix 0, the rotation, and control vector 0, the
      translation. */
  lemma CameraFormula(g: Regs)
    requires g.Valid()
    ensures var m, v, c := g.matrices[0], g.v[0], g.control[0];
      && ExactRow(g, ROTATION, 0, TRANSLATION, 0) == c.x * 4096 + (m.r0.x * v.x + m.r0.y * v.y + m.r0.z * v.z)
      && ExactRow(g, ROTATION, 0, TRANSLATION, 1) == c.y * 4096 + (m.r1.x * v.x + m.r1.y * v.y + m.r1.z * v.z)
      && ExactRow(g, ROTATION, 0, TRANSLATION, 2) == c.z * 4096 + (m.r2.x * v.x + m.r2.y * v.y + m.r2.z * v.z)
  {
    RowFormula(g, ROTATION, 0, TRANSLATION);
  }

  lemma SumOfThree(a: int, b: int, c: int, xs: seq<int>)
    requires xs == [a, b, c]
    ensures Sum(xs) == a + b + c
  {
    var two, one := [a, b], [a];
    assert xs[..2] == two && two[..1] == one && one[..0] == [];
    assert Sum(one) == a && Sum(two) == Sum(one) + b && Sum(xs) == Sum(two) + c;
  }

  /** MAC holds a row cut to 44 bits, shifted, and cut to 32 bits. */
  function Mac(g: Regs, shift: bool, mat: nat, vec: nat, crv: nat, r: nat): int
    requires g.Valid() && mat < 3 && vec < 4 && crv < 4 && r < 3
  {
    var row := Wrap44(ExactRow(g, mat, vec, crv, r));
    ToI32(if shift then row / 4096 else row)
  }

  lemma RowWraps(g: Regs, byColumn: bool, mat: nat, vec: nat, crv: nat, r: nat)
    requires g.Valid() && mat < 3 && vec < 4 && crv < 4 && r < 3
    ensures Row(g, byColumn, mat, vec, crv, r).0 == Wrap44(ExactRow(g, mat, vec, crv, r))
  {
    ControlFits(g, crv, r);
    AccumulateWrapsOnce(g.control[crv].At(r) * 4096, Products(g.v[vec], g.matrices[mat].Row(r)), r, byColumn);
  }

  lemma RowsHold(g: Regs, shift: bool, byColumn: bool, mat: nat, vec: nat, crv: nat)
    requires g.Valid() && mat < 3 && vec < 4 && crv < 4
    ensures var d := RowsDone(g, shift, byColumn, mat, vec, crv);
      && d.mac == [g.mac[0], Mac(g, shift, mat, vec, crv, 0), Mac(g, shift, mat, vec, crv, 1), Mac(g, shift, mat, vec, crv, 2)]
      && d == g.(mac := d.mac, flags := d.flags)
      && g.flags <= d.flags <= g.flags + ACCUMULATOR_FLAGS
  {
    RowWraps(g, byColumn, mat, vec, crv, 0);
    RowWraps(g, byColumn, mat, vec, crv, 1);
    RowWraps(g, byColumn, mat, vec, crv, 2);
  }

  // ---- The accumulators' flags ----

  /** The value that product `n` gives the accumulator before it is cut. */
  function Partial(start: int, products: seq<int>, n: nat): int
    requires n < |products|
  {
    Wrap44(start + Sum(products[..n])) + products[n]
  }

  /** Product `n` takes the accumulator past its largest value, or past its smallest. */
  ghost predicate Overflows(start: int, products: seq<int>, n: nat, high: bool)
    requires n < |products|
  {
    if high then Partial(start, products, n) > I44_MAX else Partial(start, products, n) < I44_MIN
  }

  lemma AccumulatorFlag(f: nat, x: int, i: nat, high: bool)
    requires f <= 2 && i <= 2
    ensures (if high then 30 - i else 27 - i) in AccumulatorFlags(f, x)
      <==> i == f && if high then x > I44_MAX else x < I44_MIN
  {
  }

  lemma FlagsOfNext(start: int, products: seq<int>, row: nat, byColumn: bool, n: nat)
    requires row <= 2 && n < |products| <= 3 && FitsI44(start)
    ensures Accumulate(start, products[..n + 1], row, byColumn).1
      == Accumulate(start, products[..n], row, byColumn).1
         + AccumulatorFlags(if byColumn then n else row, Partial(start, products, n))
  {
    assert products[..n + 1][..n] == products[..n];
    AccumulateWrapsOnce(start, products[..n], row, byColumn);
  }

  lemma FlagOfNext(start: int, products: seq<int>, row: nat, byColumn: bool, i: nat, high: bool, n: nat)
    requires row <= 2 && n < |products| <= 3 && FitsI44(start) && i <= 2
    ensures var k := if high then 30 - i else 27 - i;
      k in Accumulate(start, products[..n + 1], row, byColumn).1
      <==> || k in Accumulate(start, products[..n], row, byColumn).1
           || (i == (if byColumn then n else row) && Overflows(start, products, n, high))
  {
    FlagsOfNext(start, products, row, byColumn, n);
    AccumulatorFlag(if byColumn then n else row, Partial(start, products, n), i, high);
  }

  lemma {:induction false} FlagsOfPrefix(
      start: int, products: seq<int>, row: nat, byColumn: bool, i: nat, high: bool, len: nat)
    requires row <= 2 && len <= |products| <= 3 && FitsI44(start) && i <= 2
    ensures (if high then 30 - i else 27 - i) in Accumulate(start, products[..len], row, byColumn).1
      <==> exists n :: 0 <= n < len && i == (if byColumn then n else row) && Overflows(start, products, n, high)
  {
    if len > 0 {
      FlagsOfPrefix(start, products, row, byColumn, i, high, len - 1);
      FlagOfNext(start, products, row, byColumn, i, high, len - 1);
    }
  }

  /** Flags 30 to 28 say that an accumulator went past its largest value, 27 to 25 its
      smallest: those of row `i` for MVMVA, those of column `i` for RTPS. */
  lemma AccumulatorFlagBits(start: int, products: seq<int>, row: nat, byColumn: bool, i: nat, high: bool)
    requires row <= 2 && |products| == 3 && FitsI44(start) && i <= 2
    ensures (if high then 30 - i else 27 - i) in Accumulate(start, products, row, byColumn).1
      <==> exists n :: 0 <= n < 3 && i == (if byColumn then n else row) && Overflows(start, products, n, high)
  {
    FlagsOfPrefix(start, products, row, byColumn, i, high, 3);
    assert products[..3] == products;
  }

  // ---- MVMVA ----

  /** The registers that MVMVA starts from: the fourth vector is IR. */
  function WithIr(g: Regs): (r: Regs)
    requires g.Valid()
    ensures r.Valid()
  {
    g.(flags := {}, v := g.v[3 := Vec3(g.ir[1], g.ir[2], g.ir[3])])
  }

  /** The flags that say that some result is wrong. */
  predicate IsError(k: nat) {
    23 <= k <= 30 || 13 <= k <= 18
  }

  lemma SummaryBit(g: Regs)
    requires 31 !in g.flags
    ensures Summarise(g) == g.(flags := Summarise(g).flags)
    ensures forall k :: k != 31 ==> (k in Summarise(g).flags <==> k in g.flags)
    ensures 31 in Summarise(g).flags <==> exists k :: k in g.flags && IsError(k)
  {
    if g.flags * ERROR_FLAGS != {} {
      var k :| k in g.flags * ERROR_FLAGS;
      assert IsError(k);
    } else {
      forall k | k in g.flags ensures !IsError(k) {
        assert IsError(k) ==> k in g.flags * ERROR_FLAGS;
      }
    }
  }

  lemma IrHolds(d: Regs, cfg: Config)
    requires d.Valid()
    ensures var r := MacToIr(d, cfg);
      && r == d.(ir := r.ir, flags := r.flags) && r.ir[0] == d.ir[0]
      && (forall k :: 1 <= k < 4 ==> Saturated(d.mac[k], LeastIr(cfg), 0x7fff, r.ir[k]))
      && (forall k :: k in r.flags <==>
            || k in d.flags
            || (k == 24 && Outside(d.mac[1], LeastIr(cfg), 0x7fff))
            || (k == 23 && Outside(d.mac[2], LeastIr(cfg), 0x7fff))
            || (k == 22 && Outside(d.mac[3], LeastIr(cfg), 0x7fff)))
  {
  }

  /** IR `k` against MAC, and the flag for it. */
  predicate IrAgrees(r: Regs, cfg: Config, k: nat)
    requires 1 <= k < 4 && |r.mac| == 4 && |r.ir| == 4
  {
    && Saturated(r.mac[k], LeastIr(cfg), 0x7fff, r.ir[k])
    && (25 - k in r.flags <==> Outside(r.mac[k], LeastIr(cfg), 0x7fff))
  }

  lemma MvmvaStages(d: Regs, cfg: Config, r: Regs)
    requires d.Valid() && d.flags <= ACCUMULATOR_FLAGS && r == Summarise(MacToIr(d, cfg))
    ensures |r.ir| == 4 && r.ir[0] == d.ir[0] && r == d.(ir := r.ir, flags := r.flags)
    ensures IrAgrees(r, cfg, 1) && IrAgrees(r, cfg, 2) && IrAgrees(r, cfg, 3)
    ensures forall k :: k in ACCUMULATOR_FLAGS ==> (k in r.flags <==> k in d.flags)
    ensures 31 in r.flags <==> exists k :: k in r.flags && IsError(k)
  {
    IrHolds(d, cfg);
    SummaryBit(MacToIr(d, cfg));
  }

  /** MVMVA: MAC holds the rows, IR the same numbers saturated, and a flag for each of them
      says if and only if it had to be. The summary bit is up if and only if an error flag is.
      No other register changes. */
  lemma MvmvaResult(g: Regs, cfg: Config)
    requires g.Valid() && cfg.matrix < 3 && cfg.vectorMul < 4 && cfg.vectorAdd < 4
    ensures var r := Mvmva(g, cfg);
      && r == WithIr(g).(mac := r.mac, ir := r.ir, flags := r.flags)
      && |r.mac| == 4 && r.mac[0] == g.mac[0]
      && |r.ir| == 4 && r.ir[0] == g.ir[0]
      && r.mac[1] == Mac(WithIr(g), cfg.shift, cfg.matrix, cfg.vectorMul, cfg.vectorAdd, 0)
      && r.mac[2] == Mac(WithIr(g), cfg.shift, cfg.matrix, cfg.vectorMul, cfg.vectorAdd, 1)
      && r.mac[3] == Mac(WithIr(g), cfg.shift, cfg.matrix, cfg.vectorMul, cfg.vectorAdd, 2)
      && IrAgrees(r, cfg, 1) && IrAgrees(r, cfg, 2) && IrAgrees(r, cfg, 3)
      && (31 in r.flags <==> exists k :: k in r.flags && IsError(k))
  {
    RowsHold(WithIr(g), cfg.shift, false, cfg.matrix, cfg.vectorMul, cfg.vectorAdd);
    MvmvaStages(RowsDone(WithIr(g), cfg.shift, false, cfg.matrix, cfg.vectorMul, cfg.vectorAdd), cfg, Mvmva(g, cfg));
  }

  // ---- RTPS ----

  /** The depth, shifted whatever the command says, and cut to 32 bits. */
  function Depth(g: Regs): int
    requires g.Valid()
  {
    ToI32(Wrap44(ExactRow(g, ROTATION, 0, TRANSLATION, 2)) / 4096)
  }

  /** The projection distance `h` over the depth `z`, or the largest factor for a depth of at most
      half the distance. */
  function Factor(h: nat, z: nat): int
    requires h <= 0xffff && z <= 0xffff
  {
    if h < 2 * z then Divide(h, z) else 0x1ffff
  }

  /** The stages of RTPS: camera coordinates `t` from rows `d` ... */
  ghost predicate CameraDone(d: Regs, cfg: Config, z: int, t: Regs) {
    && d.Valid() && t.Valid()
    && t == d.(ir := t.ir, zFifo := t.zFifo, flags := t.flags) && t.ir[0] == d.ir[0]
    && (forall k :: 1 <= k < 4 ==> Saturated(d.mac[k], LeastIr(cfg), 0x7fff, t.ir[k]))
    && t.zFifo[..3] == d.zFifo[1..] && Saturated(z, 0, 0xffff, t.zFifo[3])
  }

  ghost predicate CameraFlags(d: Regs, cfg: Config, z: int, flags: set<nat>)
    requires d.Valid()
  {
    forall k :: k in flags <==>
      || k in d.flags
      || (k == 24 && Outside(d.mac[1], LeastIr(cfg), 0x7fff))
      || (k == 23 && Outside(d.mac[2], LeastIr(cfg), 0x7fff))
      || (k == 22 && Outside(z, -0x8000, 0x7fff))
      || (k == 18 && Outside(z, 0, 0xffff))
  }

  lemma CameraHolds(d: Regs, cfg: Config, z: int)
    requires d.Valid()
    ensures var t := PushDepth(CameraToIr(d, cfg, z), z);
      CameraDone(d, cfg, z, t) && CameraFlags(d, cfg, z, t.flags)
  {
  }

  lemma FactorHolds(t: Regs)
    requires t.Valid() && t.zFifo[3] <= 0xffff
    ensures ProjectionFactor(t) == Factor(t.h, t.zFifo[3])
    ensures forall k :: k in ClipFlag(t) <==> k == 17 && t.h >= 2 * t.zFifo[3]
  {
  }

  /** Where the projection puts a coordinate, in 1/65536 pixels. */
  function Screen(x: int, factor: int, offset: int): int {
    x * factor + offset
  }

  predicate TooLarge(x: int) {
    x > 0x7fff_ffff
  }

  predicate TooSmall(x: int) {
    x < -0x8000_0000
  }

  /** ... a screen position from them ... */
  ghost predicate ScreenDone(t: Regs, x: int, y: int, p: Regs) {
    && t.Valid() && p.Valid()
    && p == t.(xyFifo := p.xyFifo, flags := p.flags)
    && p.xyFifo[..2] == t.xyFifo[1..3] && p.xyFifo[2] == p.xyFifo[3]
    && Saturated(ToI32(x / 65536), -0x400, 0x3ff, p.xyFifo[2].0)
    && Saturated(ToI32(y / 65536), -0x400, 0x3ff, p.xyFifo[2].1)
  }

  ghost predicate ScreenFlags(before: set<nat>, x: int, y: int, clip: bool, flags: set<nat>) {
    forall k :: k in flags <==>
      || k in before
      || (k == 17 && clip)
      || (k == 16 && (TooLarge(x) || TooLarge(y)))
      || (k == 15 && (TooSmall(x) || TooSmall(y)))
      || (k == 14 && Outside(ToI32(x / 65536), -0x400, 0x3ff))
      || (k == 13 && Outside(ToI32(y / 65536), -0x400, 0x3ff))
  }

  lemma ScreenHolds(t: Regs, factor: int, x: int, y: int)
    requires t.Valid() && x == Screen(t.ir[1], factor, t.ofx) && y == Screen(t.ir[2], factor, t.ofy)
    ensures var p := PushScreen(t.(flags := t.flags + ClipFlag(t)), factor);
      ScreenDone(t, x, y, p) && ScreenFlags(t.flags, x, y, t.h >= 2 * t.zFifo[3], p.flags)
  {
  }

  /** ... and the numbers for depth queuing. */
  ghost predicate QueuingDone(p: Regs, depth: int, q: Regs) {
    && p.Valid() && q.Valid()
    && q == p.(mac := p.mac[0 := ToI32(depth)], ir := q.ir, flags := q.flags)
    && q.ir[1..] == p.ir[1..] && Saturated(depth / 4096, 0, 4096, q.ir[0])
  }

  ghost predicate QueuingFlags(before: set<nat>, depth: int, flags: set<nat>) {
    forall k :: k in flags <==>
      || k in before
      || (k == 16 && TooLarge(depth))
      || (k == 15 && TooSmall(depth))
      || (k == 12 && Outside(depth / 4096, 0, 4096))
  }

  lemma QueuingHolds(p: Regs, factor: int, depth: int)
    requires p.Valid() && depth == p.dqb + p.dqa * factor
    ensures var q := DepthQueuing(p, factor);
      QueuingDone(p, depth, q) && QueuingFlags(p.flags, depth, q.flags)
  {
  }

  /** The rows of RTPS. */
  ghost predicate RowsHeld(g: Regs, cfg: Config, d: Regs) {
    && g.Valid() && d.Valid() && d == g.(mac := d.mac, flags := d.flags) && d.flags <= ACCUMULATOR_FLAGS
    && d.mac[0] == g.mac[0]
    && d.mac[1] == Mac(g, cfg.shift, ROTATION, 0, TRANSLATION, 0)
    && d.mac[2] == Mac(g, cfg.shift, ROTATION, 0, TRANSLATION, 1)
    && d.mac[3] == Mac(g, cfg.shift, ROTATION, 0, TRANSLATION, 2)
  }

  lemma RtpsRowsHeld(g: Regs, cfg: Config)
    requires g.Valid()
    ensures RowsHeld(g, cfg, RtpsRows(g, cfg)) && ZShifted(g.(flags := {}), 0) == Depth(g)
  {
    var g0 := g.(flags := {});
    RowsHold(g0, cfg.shift, true, ROTATION, 0, TRANSLATION);
    SameExactRow(g, g0, 0);
    SameExactRow(g, g0, 1);
    SameExactRow(g, g0, 2);
    RowWraps(g0, true, ROTATION, 0, TRANSLATION, 2);
  }

  lemma CameraStage(g: Regs, cfg: Config) returns (d: Regs, t: Regs)
    requires g.Valid()
    ensures d == RtpsRows(g, cfg) && t == RtpsCamera(g, cfg)
    ensures RowsHeld(g, cfg, d) && CameraDone(d, cfg, Depth(g), t) && CameraFlags(d, cfg, Depth(g), t.flags)
  {
    d, t := RtpsRows(g, cfg), RtpsCamera(g, cfg);
    RtpsRowsHeld(g, cfg);
    CameraHolds(d, cfg, Depth(g));
  }

  lemma ScreenStage(g: Regs, cfg: Config, t: Regs) returns (f: int, x: int, y: int, p: Regs)
    requires g.Valid() && t == RtpsCamera(g, cfg)
    ensures p == RtpsScreen(g, cfg) && f == ProjectionFactor(t) == Factor(t.h, t.zFifo[3])
    ensures x == Screen(t.ir[1], f, t.ofx) && y == Screen(t.ir[2], f, t.ofy)
    ensures ScreenDone(t, x, y, p) && ScreenFlags(t.flags, x, y, t.h >= 2 * t.zFifo[3], p.flags)
  {
    FactorHolds(t);
    f := ProjectionFactor(t);
    x, y := Screen(t.ir[1], f, t.ofx), Screen(t.ir[2], f, t.ofy);
    ScreenHolds(t, f, x, y);
    p := RtpsScreen(g, cfg);
  }

  lemma QueuingStage(p: Regs, f: int, r: Regs) returns (q: Regs)
    requires p.Valid() && r == Summarise(DepthQueuing(p, f))
    ensures QueuingDone(p, p.dqb + p.dqa * f, q) && QueuingFlags(p.flags, p.dqb + p.dqa * f, q.flags)
    ensures r == Summarise(q)
  {
    q := DepthQueuing(p, f);
    QueuingHolds(p, f, p.dqb + p.dqa * f);
  }

  lemma LastStage(g: Regs, cfg: Config, f: int)
    requires g.Valid() && f == ProjectionFactor(RtpsCamera(g, cfg))
    ensures Rtps(g, cfg) == Summarise(DepthQueuing(RtpsScreen(g, cfg), f))
  {
  }

  lemma LaterStages(g: Regs, cfg: Config, t: Regs) returns (f: int, x: int, y: int, p: Regs, q: Regs)
    requires g.Valid() && t == RtpsCamera(g, cfg)
    ensures Later(t, f, x, y, p, q, Rtps(g, cfg)) && LaterFlags(t, f, x, y, p, q)
    ensures f == Factor(t.h, t.zFifo[3])
  {
    f, x, y, p := ScreenStage(g, cfg, t);
    LastStage(g, cfg, f);
    q := QueuingStage(p, f, Rtps(g, cfg));
  }

  ghost predicate Later(t: Regs, f: int, x: int, y: int, p: Regs, q: Regs, r: Regs) {
    && t.Valid() && t.zFifo[3] <= 0xffff
    && x == Screen(t.ir[1], f, t.ofx) && y == Screen(t.ir[2], f, t.ofy)
    && ScreenDone(t, x, y, p) && QueuingDone(p, p.dqb + p.dqa * f, q)
    && r == Summarise(q)
  }

  ghost predicate LaterFlags(t: Regs, f: int, x: int, y: int, p: Regs, q: Regs)
    requires t.Valid()
  {
    && ScreenFlags(t.flags, x, y, t.h >= 2 * t.zFifo[3], p.flags)
    && QueuingFlags(p.flags, p.dqb + p.dqa * f, q.flags)
  }

  /** All the stages at once. */
  ghost predicate Staged(
      g: Regs, cfg: Config, d: Regs, t: Regs, p: Regs, q: Regs, f: int, x: int, y: int, r: Regs)
  {
    RowsHeld(g, cfg, d) && CameraDone(d, cfg, Depth(g), t) && Later(t, f, x, y, p, q, r)
  }

  ghost predicate StagedFlags(g: Regs, cfg: Config, d: Regs, t: Regs, p: Regs, q: Regs, f: int, x: int, y: int)
    requires g.Valid() && d.Valid() && t.Valid()
  {
    d.flags <= ACCUMULATOR_FLAGS && CameraFlags(d, cfg, Depth(g), t.flags) && LaterFlags(t, f, x, y, p, q)
  }

  lemma RtpsStages(g: Regs, cfg: Config)
    returns (d: Regs, t: Regs, p: Regs, q: Regs, f: int, x: int, y: int, r: Regs)
    requires g.Valid()
    ensures r == Rtps(g, cfg) && Staged(g, cfg, d, t, p, q, f, x, y, r)
    ensures StagedFlags(g, cfg, d, t, p, q, f, x, y) && f == Factor(t.h, t.zFifo[3])
  {
    d, t := CameraStage(g, cfg);
    f, x, y, p, q := LaterStages(g, cfg, t);
    r := Rtps(g, cfg);
  }

  /** What RTPS leaves in the registers. */
  ghost predicate RtpsDone(g: Regs, cfg: Config, r: Regs)
    requires g.Valid()
  {
    && r.Valid() && r == g.(mac := r.mac, ir := r.ir, zFifo := r.zFifo, xyFifo := r.xyFifo, flags := r.flags)
    && r.mac[1] == Mac(g, cfg.shift, ROTATION, 0, TRANSLATION, 0)
    && r.mac[2] == Mac(g, cfg.shift, ROTATION, 0, TRANSLATION, 1)
    && r.mac[3] == Mac(g, cfg.shift, ROTATION, 0, TRANSLATION, 2)
    && (forall k :: 1 <= k < 4 ==> Saturated(r.mac[k], LeastIr(cfg), 0x7fff, r.ir[k]))
    && r.zFifo[..3] == g.zFifo[1..]
    && Saturated(Depth(g), 0, 0xffff, r.zFifo[3])
    && r.xyFifo[..2] == g.xyFifo[1..3] && r.xyFifo[2] == r.xyFifo[3]
  }

  /** What it derives from the projection factor. */
  ghost predicate Derived(g: Regs, r: Regs, f: int)
    requires g.Valid() && r.Valid()
  {
    && Saturated(ToI32(Screen(r.ir[1], f, g.ofx) / 65536), -0x400, 0x3ff, r.xyFifo[2].0)
    && Saturated(ToI32(Screen(r.ir[2], f, g.ofy) / 65536), -0x400, 0x3ff, r.xyFifo[2].1)
    && r.mac[0] == ToI32(g.dqb + g.dqa * f)
    && Saturated((g.dqb + g.dqa * f) / 4096, 0, 4096, r.ir[0])
  }

  lemma NoSummaryYet(g: Regs, cfg: Config, d: Regs, t: Regs, p: Regs, q: Regs, f: int, x: int, y: int)
    requires g.Valid() && d.Valid() && t.Valid() && StagedFlags(g, cfg, d, t, p, q, f, x, y)
    ensures 31 !in q.flags && q.flags <= ACCUMULATOR_FLAGS + LATER_FLAGS
  {
    assert t.flags <= ACCUMULATOR_FLAGS + LATER_FLAGS && 31 !in t.flags;
    assert p.flags <= ACCUMULATOR_FLAGS + LATER_FLAGS && 31 !in p.flags;
  }

  lemma StagesDone(g: Regs, cfg: Config, d: Regs, t: Regs, p: Regs, q: Regs, f: int, x: int, y: int)
    requires RowsHeld(g, cfg, d) && CameraDone(d, cfg, Depth(g), t) && ScreenDone(t, x, y, p)
    requires QueuingDone(p, p.dqb + p.dqa * f, q)
    requires x == Screen(t.ir[1], f, t.ofx) && y == Screen(t.ir[2], f, t.ofy)
    ensures RtpsDone(g, cfg, q) && q.zFifo == t.zFifo && Derived(g, q, f)
  {
    assert q.ir[1] == p.ir[1] && q.ir[2] == p.ir[2] && q.ir[3] == p.ir[3];
  }

  lemma SummaryIsFlag(q: Regs)
    ensures Summarise(q) == q.(flags := Summarise(q).flags)
  {
  }

  lemma OtherFlags(g: Regs, cfg: Config, q: Regs, r: Regs, f: int)
    requires g.Valid() && RtpsDone(g, cfg, q) && Derived(g, q, f) && r == q.(flags := r.flags)
    ensures RtpsDone(g, cfg, r) && Derived(g, r, f)
  {
  }

  lemma StagesResult(g: Regs, cfg: Config, d: Regs, t: Regs, p: Regs, q: Regs, f: int, x: int, y: int, r: Regs)
    requires Staged(g, cfg, d, t, p, q, f, x, y, r)
    ensures RtpsDone(g, cfg, r) && r.zFifo[3] <= 0xffff && Derived(g, r, f)
  {
    StagesDone(g, cfg, d, t, p, q, f, x, y);
    SummaryIsFlag(q);
    OtherFlags(g, cfg, q, r, f);
  }

  /** RTPS, for every input: MAC holds the rows and IR the same numbers saturated, the queues
      of depths and positions move on by one, and the new position, MAC0 and IR0 come from the
      projection factor. No other register changes. */
  lemma RtpsResult(g: Regs, cfg: Config)
    requires g.Valid()
    ensures var r := Rtps(g, cfg);
      RtpsDone(g, cfg, r) && r.zFifo[3] <= 0xffff && Derived(g, r, Factor(g.h, r.zFifo[3]))
  {
    var d, t, p, q, f, x, y, r := RtpsStages(g, cfg);
    StagesResult(g, cfg, d, t, p, q, f, x, y, r);
    StagesKeep(g, cfg, d, t, p, q, f, x, y, r);
  }

  /** The flags that RTPS raises after the rows, from the numbers that it computes. */
  ghost predicate RtpsFlagged(
      flags: set<nat>, mac1: int, mac2: int, lo: int, z: int, clip: bool, x: int, y: int, depth: int)
  {
    && (24 in flags <==> Outside(mac1, lo, 0x7fff))
    && (23 in flags <==> Outside(mac2, lo, 0x7fff))
    && (22 in flags <==> Outside(z, -0x8000, 0x7fff))
    && (18 in flags <==> Outside(z, 0, 0xffff))
    && (17 in flags <==> clip)
    && (16 in flags <==> TooLarge(x) || TooLarge(y) || TooLarge(depth))
    && (15 in flags <==> TooSmall(x) || TooSmall(y) || TooSmall(depth))
    && (14 in flags <==> Outside(ToI32(x / 65536), -0x400, 0x3ff))
    && (13 in flags <==> Outside(ToI32(y / 65536), -0x400, 0x3ff))
    && (12 in flags <==> Outside(depth / 4096, 0, 4096))
  }

  lemma FlagsTogether(
      d: Regs, cfg: Config, z: int, a: set<nat>, x: int, y: int, clip: bool, b: set<nat>, depth: int, flags: set<nat>)
    requires d.Valid() && d.flags <= ACCUMULATOR_FLAGS && CameraFlags(d, cfg, z, a)
    requires ScreenFlags(a, x, y, clip, b) && QueuingFlags(b, depth, flags)
    ensures RtpsFlagged(flags, d.mac[1], d.mac[2], LeastIr(cfg), z, clip, x, y, depth)
  {
  }

  lemma StagesFlagged(g: Regs, cfg: Config, d: Regs, t: Regs, p: Regs, q: Regs, f: int, x: int, y: int, r: Regs)
    requires g.Valid() && d.Valid() && t.Valid() && StagedFlags(g, cfg, d, t, p, q, f, x, y)
    requires r == Summarise(q)
    ensures RtpsFlagged(r.flags, d.mac[1], d.mac[2], LeastIr(cfg), Depth(g), t.h >= 2 * t.zFifo[3], x, y, p.dqb + p.dqa * f)
    ensures 31 in r.flags <==> exists k :: k in r.flags && IsError(k)
  {
    var depth := p.dqb + p.dqa * f;
    FlagsTogether(d, cfg, Depth(g), t.flags, x, y, t.h >= 2 * t.zFifo[3], p.flags, depth, q.flags);
    NoSummaryYet(g, cfg, d, t, p, q, f, x, y);
    SummaryBit(q);
    SameFlagged(q.flags, r.flags, d.mac[1], d.mac[2], LeastIr(cfg), Depth(g), t.h >= 2 * t.zFifo[3], x, y, depth);
  }

  lemma SameFlagged(
      before: set<nat>, flags: set<nat>, mac1: int, mac2: int, lo: int, z: int, clip: bool, x: int, y: int, depth: int)
    requires RtpsFlagged(before, mac1, mac2, lo, z, clip, x, y, depth)
    requires forall k :: k != 31 ==> (k in flags <==> k in before)
    ensures RtpsFlagged(flags, mac1, mac2, lo, z, clip, x, y, depth)
  {
  }

  lemma StagesKeep(g: Regs, cfg: Config, d: Regs, t: Regs, p: Regs, q: Regs, f: int, x: int, y: int, r: Regs)
    requires Staged(g, cfg, d, t, p, q, f, x, y, r)
    ensures r.Valid() && r.zFifo == t.zFifo && t.h == g.h && t.ofx == g.ofx && t.ofy == g.ofy
    ensures r.ir[1] == t.ir[1] && r.ir[2] == t.ir[2] && r.mac[1] == d.mac[1] && r.mac[2] == d.mac[2]
    ensures p.dqa == g.dqa && p.dqb == g.dqb
  {
    assert q.ir[1] == q.ir[1..][0] && q.ir[2] == q.ir[1..][1];
  }

  /** The flag register, bit by bit, for every input. */
  lemma RtpsFlagBits(g: Regs, cfg: Config)
    requires g.Valid()
    ensures var r := Rtps(g, cfg);
      r.Valid() && r.zFifo[3] <= 0xffff &&
      var f := Factor(g.h, r.zFifo[3]);
      && RtpsFlagged(r.flags, r.mac[1], r.mac[2], LeastIr(cfg), Depth(g), g.h >= 2 * r.zFifo[3],
                     Screen(r.ir[1], f, g.ofx), Screen(r.ir[2], f, g.ofy), g.dqb + g.dqa * f)
      && (31 in r.flags <==> exists k :: k in r.flags && IsError(k))
  {
    var d, t, p, q, f, x, y, r := RtpsStages(g, cfg);
    StagesKeep(g, cfg, d, t, p, q, f, x, y, r);
    StagesFlagged(g, cfg, d, t, p, q, f, x, y, r);
  }

  // ---- The accumulators' flags of whole commands ----

  /** Product `n` of row `r` takes the accumulator past its range. */
  ghost predicate RowOverflows(g: Regs, mat: nat, vec: nat, crv: nat, r: nat, n: nat, high: bool)
    requires g.Valid() && mat < 3 && vec < 4 && crv < 4 && r < 3 && n < 3
  {
    Overflows(g.control[crv].At(r) * 4096, Products(g.v[vec], g.matrices[mat].Row(r)), n, high)
  }

  lemma OneRowFlag(g: Regs, byColumn: bool, mat: nat, vec: nat, crv: nat, r: nat, i: nat, high: bool)
    requires g.Valid() && mat < 3 && vec < 4 && crv < 4 && r < 3 && i < 3
    ensures (if high then 30 - i else 27 - i) in Row(g, byColumn, mat, vec, crv, r).1
      <==> exists n :: 0 <= n < 3 && i == (if byColumn then n else r) && RowOverflows(g, mat, vec, crv, r, n, high)
  {
    ControlFits(g, crv, r);
    var start, products := g.control[crv].At(r) * 4096, Products(g.v[vec], g.matrices[mat].Row(r));
    AccumulatorFlagBits(start, products, r, byColumn, i, high);
    forall n | 0 <= n < 3 ensures RowOverflows(g, mat, vec, crv, r, n, high) == Overflows(start, products, n, high) {
    }
  }

  /** The number of the flag for accumulator `i`. */
  function OverflowFlag(i: nat, high: bool): nat
    requires i < 3
  {
    if high then 30 - i else 27 - i
  }

  lemma RowFlagOf(g: Regs, shift: bool, byColumn: bool, mat: nat, vec: nat, crv: nat, k: nat)
    requires g.Valid() && g.flags == {} && mat < 3 && vec < 4 && crv < 4
    ensures k in RowsDone(g, shift, byColumn, mat, vec, crv).flags
      <==> exists r :: 0 <= r < 3 && k in Row(g, byColumn, mat, vec, crv, r).1
  {
    var flags := RowsDone(g, shift, byColumn, mat, vec, crv).flags;
    assert k in flags <==>
      || k in Row(g, byColumn, mat, vec, crv, 0).1
      || k in Row(g, byColumn, mat, vec, crv, 1).1
      || k in Row(g, byColumn, mat, vec, crv, 2).1;
  }

  /** For MVMVA the flag of accumulator `i` is up if and only if row `i` went past its range. */
  lemma MvmvaOverflowBits(g: Regs, cfg: Config, i: nat, high: bool)
    requires g.Valid() && cfg.matrix < 3 && cfg.vectorMul < 4 && cfg.vectorAdd < 4 && i < 3
    ensures OverflowFlag(i, high) in Mvmva(g, cfg).flags
      <==> exists n :: 0 <= n < 3 && RowOverflows(WithIr(g), cfg.matrix, cfg.vectorMul, cfg.vectorAdd, i, n, high)
  {
    var w, m, v, c, k := WithIr(g), cfg.matrix, cfg.vectorMul, cfg.vectorAdd, OverflowFlag(i, high);
    RowsHold(w, cfg.shift, false, m, v, c);
    MvmvaStages(RowsDone(w, cfg.shift, false, m, v, c), cfg, Mvmva(g, cfg));
    RowFlagOf(w, cfg.shift, false, m, v, c, k);
    forall r | 0 <= r < 3
      ensures k in Row(w, false, m, v, c, r).1
        <==> exists n :: 0 <= n < 3 && i == r && RowOverflows(w, m, v, c, r, n, high)
    {
      OneRowFlag(w, false, m, v, c, r, i, high);
    }
  }

  /** For RTPS it is up if and only if product `i` of some row did. */
  lemma RtpsOverflowBits(g: Regs, cfg: Config, i: nat, high: bool)
    requires g.Valid() && i < 3
    ensures OverflowFlag(i, high) in Rtps(g, cfg).flags
      <==> exists r :: 0 <= r < 3 && RowOverflows(g.(flags := {}), ROTATION, 0, TRANSLATION, r, i, high)
  {
    var w, k := g.(flags := {}), OverflowFlag(i, high);
    RtpsKeepsAccumulatorFlag(g, cfg, k);
    RowFlagOf(w, cfg.shift, true, ROTATION, 0, TRANSLATION, k);
    forall r | 0 <= r < 3
      ensures k in Row(w, true, ROTATION, 0, TRANSLATION, r).1
        <==> RowOverflows(w, ROTATION, 0, TRANSLATION, r, i, high)
    {
      OneRowFlag(w, true, ROTATION, 0, TRANSLATION, r, i, high);
    }
  }

  lemma RtpsKeepsAccumulatorFlag(g: Regs, cfg: Config, k: nat)
    requires g.Valid() && k in ACCUMULATOR_FLAGS
    ensures k in Rtps(g, cfg).flags <==> k in RtpsRows(g, cfg).flags
  {
    RtpsFlags(g, cfg);
    AddedLater(RtpsRows(g, cfg).flags, RtpsCamera(g, cfg).flags, k);
    AddedLater(RtpsCamera(g, cfg).flags, RtpsScreen(g, cfg).flags, k);
    AddedLater(RtpsScreen(g, cfg).flags, Rtps(g, cfg).flags, k);
  }

  lemma AddedLater(a: set<nat>, b: set<nat>, k: nat)
    requires Adds(a, b) && k in ACCUMULATOR_FLAGS
    ensures k in b <==> k in a
  {
    assert k !in LATER_FLAGS;
  }
}
