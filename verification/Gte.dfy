/** The Geometry Transform Engine commands that multiply a matrix by a vector (MVMVA) and that
    project a vertex onto the screen (RTPS), from src/cpu/gte/mod.rs. */
module Gte {
  import opened GteArithmetic
  import opened Divider

  /** Decoded command fields. `shift` says whether results are shifted right by 12. */
  datatype Config = Config(shift: bool, clampNegative: bool, matrix: nat, vectorMul: nat, vectorAdd: nat) {
    function IrMin(): (m: int)
      ensures m <= 0
    {
      if clampNegative then 0 else -0x8000
    }
  }

  const ROTATION: nat := 0
  const TRANSLATION: nat := 0
  const FAR_COLOR: nat := 2

  predicate IsI16(x: int) {
    -0x8000 <= x <= 0x7fff
  }

  predicate IsI32(x: int) {
    -0x8000_0000 <= x <= 0x7fff_ffff
  }

  datatype Vec3 = Vec3(x: int, y: int, z: int) {
    function At(i: nat): int
      requires i < 3
    {
      if i == 0 then x else if i == 1 then y else z
    }

    predicate AllI16() {
      IsI16(x) && IsI16(y) && IsI16(z)
    }

    predicate AllI32() {
      IsI32(x) && IsI32(y) && IsI32(z)
    }
  }

  datatype Mat3 = Mat3(r0: Vec3, r1: Vec3, r2: Vec3) {
    function Row(i: nat): Vec3
      requires i < 3
    {
      if i == 0 then r0 else if i == 1 then r1 else r2
    }

    predicate AllI16() {
      r0.AllI16() && r1.AllI16() && r2.AllI16()
    }
  }

  /** The registers the modelled commands use. */
  datatype Regs = Regs(
    matrices: seq<Mat3>,
    control: seq<Vec3>,
    v: seq<Vec3>,
    h: nat,
    ofx: int,
    ofy: int,
    dqa: int,
    dqb: int,
    mac: seq<int>,
    ir: seq<int>,
    zFifo: seq<nat>,
    xyFifo: seq<(int, int)>,
    flags: set<nat>
  ) {
    ghost predicate Valid() {
      && |matrices| == 3 && (forall m :: 0 <= m < 3 ==> matrices[m].AllI16())
      && |control| == 4 && (forall k :: 0 <= k < 4 ==> control[k].AllI32())
      && |v| == 4 && (forall k :: 0 <= k < 4 ==> v[k].AllI16())
      && h <= 0xffff && IsI32(ofx) && IsI32(ofy) && IsI16(dqa) && IsI32(dqb)
      && |mac| == 4
      && |ir| == 4 && (forall k :: 0 <= k < 4 ==> IsI16(ir[k]))
      && |zFifo| == 4 && |xyFifo| == 4
    }
  }

  function Products(v: Vec3, m: Vec3): (p: seq<int>)
    ensures |p| == 3
  {
    [v.x * m.x, v.y * m.y, v.z * m.z]
  }

  /** The exact value of a row, with 12 fractional bits. */
  function ExactRow(g: Regs, mat: nat, vec: nat, crv: nat, r: nat): int
    requires g.Valid() && mat < 3 && vec < 4 && crv < 4 && r < 3
  {
    g.control[crv].At(r) * 4096 + Sum(Products(g.v[vec], g.matrices[mat].Row(r)))
  }

  /** The accumulator and flags of a row. */
  function Row(g: Regs, byColumn: bool, mat: nat, vec: nat, crv: nat, r: nat): (int, set<nat>)
    requires g.Valid() && mat < 3 && vec < 4 && crv < 4 && r < 3
  {
    Accumulate(g.control[crv].At(r) * 4096, Products(g.v[vec], g.matrices[mat].Row(r)), r, byColumn)
  }

  /** The flags raised by the first `n` rows. */
  function RowFlags(g: Regs, byColumn: bool, mat: nat, vec: nat, crv: nat, n: nat): (f: set<nat>)
    requires g.Valid() && mat < 3 && vec < 4 && crv < 4 && n <= 3
    ensures f <= ACCUMULATOR_FLAGS
  {
    (if n > 0 then Row(g, byColumn, mat, vec, crv, 0).1 else {})
    + (if n > 1 then Row(g, byColumn, mat, vec, crv, 1).1 else {})
    + (if n > 2 then Row(g, byColumn, mat, vec, crv, 2).1 else {})
  }

  function RowMac(g: Regs, shift: bool, byColumn: bool, mat: nat, vec: nat, crv: nat, r: nat): int
    requires g.Valid() && mat < 3 && vec < 4 && crv < 4 && r < 3
  {
    ToI32(Shift(Row(g, byColumn, mat, vec, crv, r).0, shift))
  }

  /** The registers once the three rows have been accumulated. */
  function RowsDone(g: Regs, shift: bool, byColumn: bool, mat: nat, vec: nat, crv: nat): (r: Regs)
    requires g.Valid() && mat < 3 && vec < 4 && crv < 4
    ensures r.Valid()
  {
    g.(mac := [g.mac[0], RowMac(g, shift, byColumn, mat, vec, crv, 0),
               RowMac(g, shift, byColumn, mat, vec, crv, 1), RowMac(g, shift, byColumn, mat, vec, crv, 2)],
       flags := g.flags + RowFlags(g, byColumn, mat, vec, crv, 3))
  }

  function MacToIr(g: Regs, cfg: Config): (r: Regs)
    requires g.Valid()
    ensures r.Valid()
  {
    var lo := cfg.IrMin();
    g.(ir := [g.ir[0], Clamp(g.mac[1], lo, 0x7fff), Clamp(g.mac[2], lo, 0x7fff), Clamp(g.mac[3], lo, 0x7fff)],
       flags := g.flags + ClampFlag(g.mac[1], lo, 0x7fff, 24) + ClampFlag(g.mac[2], lo, 0x7fff, 23)
         + ClampFlag(g.mac[3], lo, 0x7fff, 22))
  }

  function Multiply(g: Regs, cfg: Config, mat: nat, vec: nat, crv: nat): (r: Regs)
    requires g.Valid() && mat < 3 && vec < 4 && crv < 4
    ensures r.Valid()
  {
    MacToIr(RowsDone(g, cfg.shift, false, mat, vec, crv), cfg)
  }

  /** The flag register's summary bit: some error flag in [30:23] or [18:13] is raised. */
  const ERROR_FLAGS: set<nat> := {30, 29, 28, 27, 26, 25, 24, 23, 18, 17, 16, 15, 14, 13}

  function Summarise(g: Regs): Regs {
    if g.flags * ERROR_FLAGS != {} then g.(flags := g.flags + {31}) else g
  }

  /** Step two of the projection: camera coordinates to IR, with the depth's own overflow test. */
  function CameraToIr(g: Regs, cfg: Config, zShifted: int): (r: Regs)
    requires g.Valid()
    ensures r.Valid()
  {
    var lo := cfg.IrMin();
    g.(ir := [g.ir[0], Clamp(g.mac[1], lo, 0x7fff), Clamp(g.mac[2], lo, 0x7fff), Clamp(g.mac[3], lo, 0x7fff)],
       flags := g.flags + ClampFlag(g.mac[1], lo, 0x7fff, 24) + ClampFlag(g.mac[2], lo, 0x7fff, 23)
         + ClampFlag(zShifted, -0x8000, 0x7fff, 22))
  }

  /** Step three: push the depth, as an unsigned halfword. */
  function PushDepth(g: Regs, zShifted: int): (r: Regs)
    requires g.Valid()
    ensures r.Valid()
  {
    g.(zFifo := [g.zFifo[1], g.zFifo[2], g.zFifo[3], Clamp(zShifted, 0, 0xffff)],
       flags := g.flags + ClampFlag(zShifted, 0, 0xffff, 18))
  }

  function ProjectionFactor(g: Regs): (f: int)
    requires g.Valid() && g.zFifo[3] <= 0xffff
  {
    if g.zFifo[3] > g.h / 2 then Divide(g.h, g.zFifo[3]) else 0x1ffff
  }

  function ClipFlag(g: Regs): set<nat>
    requires g.Valid()
  {
    if g.zFifo[3] > g.h / 2 then {} else {17}
  }

  /** Step four: project onto the screen plane. */
  function PushScreen(g: Regs, factor: int): (r: Regs)
    requires g.Valid()
    ensures r.Valid()
  {
    var x, y := g.ir[1] * factor + g.ofx, g.ir[2] * factor + g.ofy;
    var sx, sy := ToI32(x / 65536), ToI32(y / 65536);
    var p := (Clamp(sx, -0x400, 0x3ff), Clamp(sy, -0x400, 0x3ff));
    g.(xyFifo := [g.xyFifo[1], g.xyFifo[2], p, p],
       flags := g.flags + MacOverflowFlag(x) + MacOverflowFlag(y)
         + ClampFlag(sx, -0x400, 0x3ff, 14) + ClampFlag(sy, -0x400, 0x3ff, 13))
  }

  function ZShifted(g: Regs, vec: nat): int
    requires g.Valid() && vec < 4
  {
    ToI32(Row(g, true, ROTATION, vec, TRANSLATION, 2).0 / 4096)
  }

  /** Steps one to three of the projection of vector `vec`. */
  function Transform(g: Regs, cfg: Config, vec: nat): (r: Regs)
    requires g.Valid() && vec < 4
    ensures r.Valid() && r.zFifo[3] <= 0xffff
  {
    var z := ZShifted(g, vec);
    PushDepth(CameraToIr(RowsDone(g, cfg.shift, true, ROTATION, vec, TRANSLATION), cfg, z), z)
  }

  function DoRtp(g: Regs, cfg: Config, vec: nat): (r: Regs)
    requires g.Valid() && vec < 4
    ensures r.Valid() && r.zFifo[3] <= 0xffff
  {
    var t := Transform(g, cfg, vec);
    PushScreen(t.(flags := t.flags + ClipFlag(t)), ProjectionFactor(t))
  }

  function DepthQueuing(g: Regs, factor: int): (r: Regs)
    requires g.Valid()
    ensures r.Valid()
  {
    var depth := g.dqb + g.dqa * factor;
    g.(mac := g.mac[0 := ToI32(depth)],
       ir := g.ir[0 := Clamp(depth / 4096, 0, 4096)],
       flags := g.flags + MacOverflowFlag(depth) + ClampFlag(depth / 4096, 0, 4096, 12))
  }

  /** The RTPS command: flags are cleared, vector 0 is projected, the flags are summarised. */
  function Rtps(g: Regs, cfg: Config): Regs
    requires g.Valid()
  {
    var g0 := g.(flags := {});
    Summarise(DepthQueuing(DoRtp(g0, cfg, 0), ProjectionFactor(Transform(g0, cfg, 0))))
  }

  /** The MVMVA command; the fourth vector holds IR. */
  function Mvmva(g: Regs, cfg: Config): Regs
    requires g.Valid() && cfg.matrix < 3 && cfg.vectorMul < 4 && cfg.vectorAdd < 4
  {
    var g' := g.(flags := {}, v := g.v[3 := Vec3(g.ir[1], g.ir[2], g.ir[3])]);
    Summarise(Multiply(g', cfg, cfg.matrix, cfg.vectorMul, cfg.vectorAdd))
  }

  // ---- What the commands compute ----

  lemma ControlFits(g: Regs, crv: nat, r: nat)
    requires g.Valid() && crv < 4 && r < 3
    ensures FitsI44(g.control[crv].At(r) * 4096)
  {
    assert g.control[crv].AllI32();
  }

  /** If no accumulator flag is up at the end then the row was exact, and MAC is its floor. */
  lemma CleanRow(g: Regs, shift: bool, byColumn: bool, mat: nat, vec: nat, crv: nat, r: nat)
    requires g.Valid() && mat < 3 && vec < 4 && crv < 4 && r < 3
    requires RowFlags(g, byColumn, mat, vec, crv, 3) == {}
    ensures FitsI44(ExactRow(g, mat, vec, crv, r))
    ensures Row(g, byColumn, mat, vec, crv, r).0 == ExactRow(g, mat, vec, crv, r)
    ensures RowMac(g, shift, byColumn, mat, vec, crv, r)
      == if shift then ExactRow(g, mat, vec, crv, r) / 4096 else ToI32(ExactRow(g, mat, vec, crv, r))
  {
    var flags := Row(g, byColumn, mat, vec, crv, r).1;
    assert flags <= RowFlags(g, byColumn, mat, vec, crv, 3);
    ControlFits(g, crv, r);
    CleanIsExact(g.control[crv].At(r) * 4096, Products(g.v[vec], g.matrices[mat].Row(r)), r, byColumn);
  }

  /** A MVMVA that ends without accumulator flags computed every row exactly; with the shift,
      MAC holds their floor division by 4096. */
  lemma MvmvaExact(g: Regs, cfg: Config, r: nat)
    requires g.Valid() && cfg.matrix < 3 && cfg.vectorMul < 4 && cfg.vectorAdd < 4 && r < 3
    requires Mvmva(g, cfg).flags * ACCUMULATOR_FLAGS == {}
    ensures var g' := g.(v := g.v[3 := Vec3(g.ir[1], g.ir[2], g.ir[3])]);
      var exact := ExactRow(g', cfg.matrix, cfg.vectorMul, cfg.vectorAdd, r);
      && FitsI44(exact)
      && Mvmva(g, cfg).mac[r + 1] == if cfg.shift then exact / 4096 else ToI32(exact)
  {
    var g' := g.(flags := {}, v := g.v[3 := Vec3(g.ir[1], g.ir[2], g.ir[3])]);
    AccumulatorFlagsKept(RowsDone(g', cfg.shift, false, cfg.matrix, cfg.vectorMul, cfg.vectorAdd), cfg);
    RowFlagsEmpty(g', cfg.shift, false, cfg.matrix, cfg.vectorMul, cfg.vectorAdd);
    ExactRowMac(g', cfg.shift, false, cfg.matrix, cfg.vectorMul, cfg.vectorAdd, r);
  }

  lemma RowFlagsEmpty(g: Regs, shift: bool, byColumn: bool, mat: nat, vec: nat, crv: nat)
    requires g.Valid() && g.flags == {} && mat < 3 && vec < 4 && crv < 4
    requires RowsDone(g, shift, byColumn, mat, vec, crv).flags * ACCUMULATOR_FLAGS == {}
    ensures RowFlags(g, byColumn, mat, vec, crv, 3) == {}
  {
    var f := RowFlags(g, byColumn, mat, vec, crv, 3);
    assert {} + f == f && f * ACCUMULATOR_FLAGS == f;
  }

  lemma ExactRowMac(g: Regs, shift: bool, byColumn: bool, mat: nat, vec: nat, crv: nat, r: nat)
    requires g.Valid() && mat < 3 && vec < 4 && crv < 4 && r < 3
    requires RowFlags(g, byColumn, mat, vec, crv, 3) == {}
    ensures var exact := ExactRow(g, mat, vec, crv, r);
      && FitsI44(exact)
      && RowsDone(g, shift, byColumn, mat, vec, crv).mac[r + 1] == (if shift then exact / 4096 else ToI32(exact))
  {
    CleanRow(g, shift, byColumn, mat, vec, crv, r);
  }

  lemma RowReportsOverflow(g: Regs, byColumn: bool, mat: nat, vec: nat, crv: nat, r: nat)
    requires g.Valid() && mat < 3 && vec < 4 && crv < 4 && r < 3
    ensures Row(g, byColumn, mat, vec, crv, r).1 <= ACCUMULATOR_FLAGS
    ensures Row(g, byColumn, mat, vec, crv, r).1 == {}
      <==> PrefixesFit(g.control[crv].At(r) * 4096, Products(g.v[vec], g.matrices[mat].Row(r)))
  {
    ControlFits(g, crv, r);
    FlagsReportOverflow(g.control[crv].At(r) * 4096, Products(g.v[vec], g.matrices[mat].Row(r)), r, byColumn);
  }

  /** Later stages raise no accumulator flag. */
  lemma AccumulatorFlagsKept(g: Regs, cfg: Config)
    requires g.Valid()
    ensures Summarise(MacToIr(g, cfg)).flags * ACCUMULATOR_FLAGS == g.flags * ACCUMULATOR_FLAGS
  {
  }

  /** Row `r`, summed product by product, never leaves the 44 bit range. */
  ghost predicate RowFits(g: Regs, mat: nat, vec: nat, crv: nat, r: nat)
    requires g.Valid() && mat < 3 && vec < 4 && crv < 4 && r < 3
  {
    PrefixesFit(g.control[crv].At(r) * 4096, Products(g.v[vec], g.matrices[mat].Row(r)))
  }

  lemma RowsReportOverflow(g: Regs, shift: bool, byColumn: bool, mat: nat, vec: nat, crv: nat)
    requires g.Valid() && mat < 3 && vec < 4 && crv < 4 && g.flags == {}
    ensures RowsDone(g, shift, byColumn, mat, vec, crv).flags * ACCUMULATOR_FLAGS == {}
      <==> RowFits(g, mat, vec, crv, 0) && RowFits(g, mat, vec, crv, 1) && RowFits(g, mat, vec, crv, 2)
  {
    RowReportsOverflow(g, byColumn, mat, vec, crv, 0);
    RowReportsOverflow(g, byColumn, mat, vec, crv, 1);
    RowReportsOverflow(g, byColumn, mat, vec, crv, 2);
    UnionEmpty(Row(g, byColumn, mat, vec, crv, 0).1, Row(g, byColumn, mat, vec, crv, 1).1,
               Row(g, byColumn, mat, vec, crv, 2).1);
  }

  lemma UnionEmpty(a: set<nat>, b: set<nat>, c: set<nat>)
    requires a <= ACCUMULATOR_FLAGS && b <= ACCUMULATOR_FLAGS && c <= ACCUMULATOR_FLAGS
    ensures ({} + a + b + c) * ACCUMULATOR_FLAGS == {} <==> a == {} && b == {} && c == {}
  {
    assert ({} + a + b + c) * ACCUMULATOR_FLAGS == a + b + c;
  }

  /** A MVMVA ends without accumulator flags exactly when every row, summed product by
      product, stays in the 44 bit range. */
  lemma MvmvaReportsOverflow(g: Regs, cfg: Config)
    requires g.Valid() && cfg.matrix < 3 && cfg.vectorMul < 4 && cfg.vectorAdd < 4
    ensures var g' := g.(flags := {}, v := g.v[3 := Vec3(g.ir[1], g.ir[2], g.ir[3])]);
      Mvmva(g, cfg).flags * ACCUMULATOR_FLAGS == {}
      <==> && RowFits(g', cfg.matrix, cfg.vectorMul, cfg.vectorAdd, 0)
           && RowFits(g', cfg.matrix, cfg.vectorMul, cfg.vectorAdd, 1)
           && RowFits(g', cfg.matrix, cfg.vectorMul, cfg.vectorAdd, 2)
  {
    var g' := g.(flags := {}, v := g.v[3 := Vec3(g.ir[1], g.ir[2], g.ir[3])]);
    RowsReportOverflow(g', cfg.shift, false, cfg.matrix, cfg.vectorMul, cfg.vectorAdd);
    AccumulatorFlagsKept(RowsDone(g', cfg.shift, false, cfg.matrix, cfg.vectorMul, cfg.vectorAdd), cfg);
  }

  // ---- The perspective projection ----

  /** The distance, in 1/65536ths of a pixel times the depth, between a screen coordinate and
      the exact perspective projection of `x` at depth `z`. */
  function ScreenError(x: int, h: int, z: int, offset: int, screen: int): int {
    65536 * (z * screen) - (65536 * (x * h) + z * offset)
  }

  lemma ScreenErrorIdentity(x: int, h: int, z: int, offset: int, screen: int, factor: int, e: int, rho: int)
    requires factor * z == 65536 * h + e && x * factor + offset == 65536 * screen + rho
    ensures ScreenError(x, h, z, offset, screen) == e * x - rho * z
  {
    calc {
      65536 * (z * screen);
      z * (65536 * screen);
      z * (x * factor + offset - rho);
      x * (factor * z) + z * offset - rho * z;
      x * (65536 * h + e) + z * offset - rho * z;
      65536 * (x * h) + e * x + z * offset - rho * z;
    }
  }

  /** A projection factor within the division's error bound puts the pixel within four. */
  lemma ScreenErrorBound(x: int, h: int, z: int, offset: int, screen: int, factor: int)
    requires IsI16(x) && 0 < z && -6 * z < factor * z - 65536 * h < 4 * z
    requires screen == (x * factor + offset) / 65536
    ensures -4 * 65536 * z < ScreenError(x, h, z, offset, screen) < 4 * 65536 * z
  {
    var e, rho := factor * z - 65536 * h, x * factor + offset - 65536 * screen;
    ScreenErrorIdentity(x, h, z, offset, screen, factor, e, rho);
    assert 0 <= rho * z <= 65535 * z by { MulMono(0, rho, z); MulMono(rho, 65535, z); }
    assert -6 * 0x8000 * z <= e * x <= 6 * 0x8000 * z by {
      if x >= 0 {
        MulMono(-6 * z, e, x);
        MulMono(e, 6 * z, x);
        MulMono(x, 0x8000, 6 * z);
      } else {
        MulMono(-6 * z, e, 0 - x);
        MulMono(e, 6 * z, 0 - x);
        MulMono(0 - x, 0x8000, 6 * z);
        assert e * x == 0 - e * (0 - x);
      }
    }
  }

  /** The registers at the stages of RTPS: the rows, the camera coordinates, the screen. */
  function RtpsRows(g: Regs, cfg: Config): (d: Regs)
    requires g.Valid()
    ensures d.Valid()
  {
    RowsDone(g.(flags := {}), cfg.shift, true, ROTATION, 0, TRANSLATION)
  }

  function RtpsCamera(g: Regs, cfg: Config): (t: Regs)
    requires g.Valid()
    ensures t.Valid() && t.zFifo[3] <= 0xffff
  {
    Transform(g.(flags := {}), cfg, 0)
  }

  function RtpsScreen(g: Regs, cfg: Config): (p: Regs)
    requires g.Valid()
    ensures p.Valid()
  {
    DoRtp(g.(flags := {}), cfg, 0)
  }

  /** The flags that the stages after the rows can raise. */
  const LATER_FLAGS: set<nat> := {31, 24, 23, 22, 18, 17, 16, 15, 14, 13, 12}

  /** A later stage keeps the flags raised before, and adds none of the accumulators'. */
  predicate Adds(before: set<nat>, after: set<nat>) {
    before <= after <= before + LATER_FLAGS
  }

  lemma AddsTwice(a: set<nat>, b: set<nat>, c: set<nat>)
    requires Adds(a, b) && Adds(b, c)
    ensures Adds(a, c)
  {
  }

  lemma AddsNoAccumulatorFlag(a: set<nat>, b: set<nat>)
    requires Adds(a, b)
    ensures a * ACCUMULATOR_FLAGS == {} <==> b * ACCUMULATOR_FLAGS == {}
  {
    assert LATER_FLAGS * ACCUMULATOR_FLAGS == {};
  }

  lemma CameraAdds(d: Regs, cfg: Config, z: int)
    requires d.Valid()
    ensures Adds(d.flags, PushDepth(CameraToIr(d, cfg, z), z).flags)
    ensures PushDepth(CameraToIr(d, cfg, z), z).mac == d.mac
  {
  }

  lemma ScreenAdds(t: Regs, factor: int)
    requires t.Valid()
    ensures Adds(t.flags + ClipFlag(t), PushScreen(t.(flags := t.flags + ClipFlag(t)), factor).flags)
    ensures Adds(t.flags, t.flags + ClipFlag(t))
  {
  }

  lemma DepthAdds(p: Regs, factor: int)
    requires p.Valid()
    ensures Adds(p.flags, Summarise(DepthQueuing(p, factor)).flags)
    ensures forall r :: 1 <= r < 4 ==> Summarise(DepthQueuing(p, factor)).mac[r] == p.mac[r]
  {
  }

  /** Through the stages the flags only grow, and MAC stays. */
  lemma RtpsFlags(g: Regs, cfg: Config)
    requires g.Valid()
    ensures Adds(RtpsRows(g, cfg).flags, RtpsCamera(g, cfg).flags)
    ensures Adds(RtpsCamera(g, cfg).flags + ClipFlag(RtpsCamera(g, cfg)), RtpsScreen(g, cfg).flags)
    ensures Adds(RtpsCamera(g, cfg).flags, RtpsScreen(g, cfg).flags)
    ensures Adds(RtpsScreen(g, cfg).flags, Rtps(g, cfg).flags)
    ensures forall r :: 1 <= r < 4 ==> Rtps(g, cfg).mac[r] == RtpsRows(g, cfg).mac[r]
  {
    var t := RtpsCamera(g, cfg);
    var f := ProjectionFactor(t);
    CameraAdds(RtpsRows(g, cfg), cfg, ZShifted(g.(flags := {}), 0));
    ScreenAdds(t, f);
    AddsTwice(t.flags, t.flags + ClipFlag(t), RtpsScreen(g, cfg).flags);
    DepthAdds(RtpsScreen(g, cfg), f);
  }

  lemma RtpsAccumulatorFlags(g: Regs, cfg: Config)
    requires g.Valid()
    ensures Rtps(g, cfg).flags * ACCUMULATOR_FLAGS == {} <==> RtpsRows(g, cfg).flags * ACCUMULATOR_FLAGS == {}
  {
    var a, b, c, d := RtpsRows(g, cfg).flags, RtpsCamera(g, cfg).flags, RtpsScreen(g, cfg).flags, Rtps(g, cfg).flags;
    RtpsFlags(g, cfg);
    AddsTwice(a, b, c);
    AddsTwice(a, c, d);
    AddsNoAccumulatorFlag(a, d);
  }

  /** What RTPS leaves in MAC for a row. */
  function RtpsMac(g: Regs, cfg: Config, r: nat): int
    requires g.Valid() && r < 3
  {
    var exact := ExactRow(g, ROTATION, 0, TRANSLATION, r);
    if cfg.shift then exact / 4096 else ToI32(exact)
  }

  /** A RTPS that ends without accumulator flags computed every row exactly, as MVMVA does. */
  lemma RtpsExact(g: Regs, cfg: Config, r: nat)
    requires g.Valid() && r < 3 && Rtps(g, cfg).flags * ACCUMULATOR_FLAGS == {}
    ensures FitsI44(ExactRow(g, ROTATION, 0, TRANSLATION, r))
    ensures Rtps(g, cfg).mac[r + 1] == RtpsMac(g, cfg, r)
  {
    var g0 := g.(flags := {});
    RtpsRowFlags(g, cfg);
    RtpsFlags(g, cfg);
    SameExactRow(g, g0, r);
    ExactRowMac(g0, cfg.shift, true, ROTATION, 0, TRANSLATION, r);
  }

  lemma RtpsRowFlags(g: Regs, cfg: Config)
    requires g.Valid() && Rtps(g, cfg).flags * ACCUMULATOR_FLAGS == {}
    ensures RowFlags(g.(flags := {}), true, ROTATION, 0, TRANSLATION, 3) == {}
  {
    RtpsAccumulatorFlags(g, cfg);
    RowFlagsEmpty(g.(flags := {}), cfg.shift, true, ROTATION, 0, TRANSLATION);
  }

  lemma RowsExact(g: Regs, cfg: Config, r: nat)
    requires g.Valid() && r < 3 && RowFlags(g.(flags := {}), true, ROTATION, 0, TRANSLATION, 3) == {}
    ensures RtpsRows(g, cfg).mac[r + 1] == RtpsMac(g, cfg, r)
  {
    SameExactRow(g, g.(flags := {}), r);
    ExactRowMac(g.(flags := {}), cfg.shift, true, ROTATION, 0, TRANSLATION, r);
  }

  lemma DepthExact(g: Regs)
    requires g.Valid() && RowFlags(g.(flags := {}), true, ROTATION, 0, TRANSLATION, 3) == {}
    ensures ZShifted(g.(flags := {}), 0) == Camera(g, 2)
  {
    SameExactRow(g, g.(flags := {}), 2);
    ExactDepth(g.(flags := {}));
  }

  lemma ExactDepth(g: Regs)
    requires g.Valid() && RowFlags(g, true, ROTATION, 0, TRANSLATION, 3) == {}
    ensures ZShifted(g, 0) == ExactRow(g, ROTATION, 0, TRANSLATION, 2) / 4096
  {
    CleanRow(g, true, true, ROTATION, 0, TRANSLATION, 2);
  }

  lemma SameExactRow(g: Regs, g0: Regs, r: nat)
    requires g.Valid() && g0 == g.(flags := {}) && r < 3
    ensures ExactRow(g0, ROTATION, 0, TRANSLATION, r) == ExactRow(g, ROTATION, 0, TRANSLATION, r)
  {
  }

  /** And it ends without them exactly when every row stays in the 44 bit range. */
  lemma RtpsReportsOverflow(g: Regs, cfg: Config)
    requires g.Valid()
    ensures var g0 := g.(flags := {});
      Rtps(g, cfg).flags * ACCUMULATOR_FLAGS == {}
      <==> && RowFits(g0, ROTATION, 0, TRANSLATION, 0)
           && RowFits(g0, ROTATION, 0, TRANSLATION, 1)
           && RowFits(g0, ROTATION, 0, TRANSLATION, 2)
  {
    RtpsAccumulatorFlags(g, cfg);
    RowsReportOverflow(g.(flags := {}), cfg.shift, true, ROTATION, 0, TRANSLATION);
  }

  // ---- Commands without an error ----

  ghost predicate NoErrors(flags: set<nat>) {
    flags * ERROR_FLAGS == {}
  }

  lemma NoErrorFlag(flags: set<nat>, all: set<nat>, k: nat)
    requires NoErrors(all) && flags <= all && k in ERROR_FLAGS
    ensures k !in flags
  {
    assert k in flags ==> k in all * ERROR_FLAGS;
  }

  /** The summary bit is clear exactly when no error flag is up. */
  lemma NoErrorsInStages(g: Regs, cfg: Config)
    requires g.Valid() && 31 !in Rtps(g, cfg).flags
    ensures NoErrors(Rtps(g, cfg).flags)
    ensures Rtps(g, cfg) == DepthQueuing(RtpsScreen(g, cfg), ProjectionFactor(RtpsCamera(g, cfg)))
  {
  }

  /** Without an error the conversion to IR kept the first two coordinates, and the depth is
      an unsigned halfword. */
  lemma CleanCamera(d: Regs, cfg: Config, z: int, all: set<nat>)
    requires d.Valid() && NoErrors(all) && PushDepth(CameraToIr(d, cfg, z), z).flags <= all
    ensures var t := PushDepth(CameraToIr(d, cfg, z), z);
      && t.mac == d.mac && t.ir[1] == d.mac[1] && t.ir[2] == d.mac[2] && t.zFifo[3] == z
      && (22 !in all ==> z <= 0x7fff) && t.ir[3] == Clamp(d.mac[3], cfg.IrMin(), 0x7fff)
  {
    var t := PushDepth(CameraToIr(d, cfg, z), z);
    NoErrorFlag(t.flags, all, 18);
    NoErrorFlag(t.flags, all, 23);
    NoErrorFlag(t.flags, all, 24);
    assert 22 !in all ==> 22 !in t.flags;
  }

  /** Without an error PushScreen puts both coordinates where the projection factor says. */
  lemma CleanScreen(t: Regs, factor: int, all: set<nat>)
    requires t.Valid() && NoErrors(all) && PushScreen(t, factor).flags <= all
    ensures PushScreen(t, factor).xyFifo[2] == ((t.ir[1] * factor + t.ofx) / 65536, (t.ir[2] * factor + t.ofy) / 65536)
  {
    var p := PushScreen(t, factor);
    NoErrorFlag(p.flags, all, 13);
    NoErrorFlag(p.flags, all, 14);
    NoErrorFlag(p.flags, all, 15);
    NoErrorFlag(p.flags, all, 16);
  }

  /** A screen position within four pixels of the exact projection of `x` and `y` at `z`. */
  ghost predicate Projected(g: Regs, x: int, y: int, z: int, screen: (int, int)) {
    && -4 * 65536 * z < ScreenError(x, g.h, z, g.ofx, screen.0) < 4 * 65536 * z
    && -4 * 65536 * z < ScreenError(y, g.h, z, g.ofy, screen.1) < 4 * 65536 * z
  }

  /** A screen position at a depth that passed the clipping test. */
  lemma CleanProjection(t: Regs, all: set<nat>)
    requires t.Valid() && t.zFifo[3] <= 0xffff && ClipFlag(t) == {}
    requires NoErrors(all) && PushScreen(t, ProjectionFactor(t)).flags <= all
    ensures 0 < t.zFifo[3] && t.h < 2 * t.zFifo[3]
    ensures Projected(t, t.ir[1], t.ir[2], t.zFifo[3], PushScreen(t, ProjectionFactor(t)).xyFifo[2])
  {
    var z, f := t.zFifo[3], ProjectionFactor(t);
    GuardAdmitsDivision(t.h, z);
    DivisionErrorBound(t.h, z);
    CleanScreen(t, f, all);
    var p := PushScreen(t, f).xyFifo[2];
    ScreenErrorBound(t.ir[1], t.h, z, t.ofx, p.0, f);
    ScreenErrorBound(t.ir[2], t.h, z, t.ofy, p.1, f);
  }

  /** The camera coordinate on axis `r`, as an integer. */
  function Camera(g: Regs, r: nat): int
    requires g.Valid() && r < 3
  {
    ExactRow(g, ROTATION, 0, TRANSLATION, r) / 4096
  }

  /** The projection theorem. When RTPS ends without the summary bit, whatever the flags for
      depth cueing and for distant vertices say, IR1 and IR2 are what MAC holds, the depth is
      the exact one, positive and beyond half the projection distance, and the screen position
      is within four pixels of the exact perspective projection of IR1 and IR2. With the shift
      these are the exact camera coordinates, and so is IR3 exactly when its flag is down;
      without it `MacIsExact` says when they are. */
  lemma RtpsProjects(g: Regs, cfg: Config)
    requires g.Valid() && 31 !in Rtps(g, cfg).flags
    ensures var r := Rtps(g, cfg);
      var x, y, z := r.ir[1], r.ir[2], Camera(g, 2);
      && r.mac[1] == x == RtpsMac(g, cfg, 0) && r.mac[2] == y == RtpsMac(g, cfg, 1)
      && r.mac[3] == RtpsMac(g, cfg, 2) && r.zFifo[3] == z
      && 0 < z <= 0xffff && g.h < 2 * z
      && Projected(g, x, y, z, r.xyFifo[2])
    ensures var r := Rtps(g, cfg);
      cfg.shift ==>
        && r.ir[1] == Camera(g, 0) && r.ir[2] == Camera(g, 1) && r.mac[3] == Camera(g, 2)
        && (r.ir[3] == Camera(g, 2) <==> 22 !in r.flags)
  {
    RtpsCoordinates(g, cfg);
    RtpsPosition(g, cfg);
    Ir3IsMac3(g, cfg);
    NoErrorsInStages(g, cfg);
    NoAccumulatorFlags(Rtps(g, cfg).flags);
    RtpsRowFlags(g, cfg);
    DepthExact(g);
  }

  // ---- Without the shift ----

  lemma ToI32Exact(x: int)
    ensures ToI32(x) == x <==> IsI32(x)
  {
  }

  /** Without the shift MAC is cut to 32 bits, and no flag says so: it holds the row exactly
      when the row fits. */
  lemma MacIsExact(g: Regs, cfg: Config, r: nat)
    requires g.Valid() && r < 3 && !cfg.shift && Rtps(g, cfg).flags * ACCUMULATOR_FLAGS == {}
    ensures Rtps(g, cfg).mac[r + 1] == ExactRow(g, ROTATION, 0, TRANSLATION, r)
      <==> IsI32(ExactRow(g, ROTATION, 0, TRANSLATION, r))
  {
    RtpsExact(g, cfg, r);
    ToI32Exact(ExactRow(g, ROTATION, 0, TRANSLATION, r));
  }

  /** The same for MVMVA. */
  lemma MvmvaMacIsExact(g: Regs, cfg: Config, r: nat)
    requires g.Valid() && cfg.matrix < 3 && cfg.vectorMul < 4 && cfg.vectorAdd < 4 && r < 3 && !cfg.shift
    requires Mvmva(g, cfg).flags * ACCUMULATOR_FLAGS == {}
    ensures var g' := g.(v := g.v[3 := Vec3(g.ir[1], g.ir[2], g.ir[3])]);
      var exact := ExactRow(g', cfg.matrix, cfg.vectorMul, cfg.vectorAdd, r);
      Mvmva(g, cfg).mac[r + 1] == exact <==> IsI32(exact)
  {
    var g' := g.(v := g.v[3 := Vec3(g.ir[1], g.ir[2], g.ir[3])]);
    MvmvaExact(g, cfg, r);
    ToI32Exact(ExactRow(g', cfg.matrix, cfg.vectorMul, cfg.vectorAdd, r));
  }

  /** IR3 is MAC3 exactly when that fits; its flag reports on the depth instead. */
  lemma Ir3IsMac3(g: Regs, cfg: Config)
    requires g.Valid()
    ensures Rtps(g, cfg).ir[3] == Rtps(g, cfg).mac[3] <==> cfg.IrMin() <= Rtps(g, cfg).mac[3] <= 0x7fff
    ensures 22 in Rtps(g, cfg).flags <==> !(-0x8000 <= ZShifted(g.(flags := {}), 0) <= 0x7fff)
  {
    var d, z := RtpsRows(g, cfg), ZShifted(g.(flags := {}), 0);
    RtpsFlags(g, cfg);
    CameraIr3(d, cfg, z);
    ScreenKeeps(RtpsCamera(g, cfg), ProjectionFactor(RtpsCamera(g, cfg)));
    DepthKeeps(RtpsScreen(g, cfg), ProjectionFactor(RtpsCamera(g, cfg)));
  }

  lemma CameraIr3(d: Regs, cfg: Config, z: int)
    requires d.Valid() && d.flags <= ACCUMULATOR_FLAGS
    ensures var t := PushDepth(CameraToIr(d, cfg, z), z);
      && (t.ir[3] == d.mac[3] <==> cfg.IrMin() <= d.mac[3] <= 0x7fff)
      && (22 in t.flags <==> !(-0x8000 <= z <= 0x7fff))
  {
  }

  lemma ScreenKeeps(t: Regs, factor: int)
    requires t.Valid()
    ensures var p := PushScreen(t.(flags := t.flags + ClipFlag(t)), factor);
      p.ir == t.ir && p.mac == t.mac && (22 in p.flags <==> 22 in t.flags)
  {
  }

  lemma DepthKeeps(p: Regs, factor: int)
    requires p.Valid()
    ensures var q := Summarise(DepthQueuing(p, factor));
      q.ir[3] == p.ir[3] && q.mac[3] == p.mac[3] && (22 in q.flags <==> 22 in p.flags)
  {
  }

  /** A vertex at the origin of a frame far to the right of the camera. */
  ghost predicate IsFar(g: Regs) {
    && g.Valid() && g.h == 100 && g.ofx == g.ofy == g.dqa == g.dqb == 0
    && (forall r :: 0 <= r < 3 ==> Products(g.v[0], g.matrices[ROTATION].Row(r)) == [0, 0, 0])
    && g.control[TRANSLATION] == Vec3(0x10_0000, 0, 100)
  }

  lemma FarVertex() returns (g: Regs)
    ensures IsFar(g)
  {
    var zero, far := Vec3(0, 0, 0), Vec3(0x10_0000, 0, 100);
    var m := Mat3(zero, zero, zero);
    g := Regs([m, m, m], [far, far, far, far], [zero, zero, zero, zero], 100, 0, 0, 0, 0, [0, 0, 0, 0], [0, 0, 0, 0],
              [0, 0, 0, 0], [(0, 0), (0, 0), (0, 0), (0, 0)], {});
  }

  lemma {:induction false} StillSum(start: int, zeros: seq<int>, row: nat)
    requires FitsI44(start) && row <= 2 && |zeros| <= 3 && forall i :: 0 <= i < |zeros| ==> zeros[i] == 0
    ensures Accumulate(start, zeros, row, true) == (start, {}) && Sum(zeros) == 0
  {
    WrapOfFit(start);
    if zeros != [] {
      var n := |zeros| - 1;
      StillSum(start, zeros[..n], row);
      var none: set<nat> := {};
      assert start + zeros[n] == start && AccumulatorFlags(n, start) == none && none + none == none;
    }
  }

  lemma FarRow(g: Regs, r: nat)
    requires IsFar(g) && r < 3
    ensures var start := g.control[TRANSLATION].At(r) * 4096;
      ExactRow(g, ROTATION, 0, TRANSLATION, r) == start && Row(g, true, ROTATION, 0, TRANSLATION, r) == (start, {})
  {
    StillSum(g.control[TRANSLATION].At(r) * 4096, Products(g.v[0], g.matrices[ROTATION].Row(r)), r);
  }

  lemma FarRows(g: Regs, cfg: Config)
    requires IsFar(g) && !cfg.shift && g.flags == {}
    ensures var d := RowsDone(g, cfg.shift, true, ROTATION, 0, TRANSLATION);
      d.mac[1] == 0 && d.mac[2] == 0 && d.mac[3] == 409600 && d.flags == {} && ZShifted(g, 0) == 100
  {
    FarRow(g, 0);
    FarRow(g, 1);
    FarRow(g, 2);
  }

  lemma FarCamera(d: Regs, cfg: Config)
    requires d.Valid() && d.mac[1] == 0 && d.mac[2] == 0 && d.mac[3] == 409600 && d.flags == {}
    ensures var t := PushDepth(CameraToIr(d, cfg, 100), 100);
      t.flags == {} && t.zFifo[3] == 100 && t.ir[1] == t.ir[2] == 0 && t.ir[3] == 0x7fff && t.mac == d.mac
  {
  }

  /** Without the shift a command can end with a clean flag register, a wrapped MAC and a
      saturated IR3. */
  lemma UnshiftedCanWrap()
    ensures exists g: Regs, cfg: Config ::
      && g.Valid() && Rtps(g, cfg).flags == {}
      && Rtps(g, cfg).mac[1] != ExactRow(g, ROTATION, 0, TRANSLATION, 0)
      && Rtps(g, cfg).ir[3] != Rtps(g, cfg).mac[3]
  {
    var g := FarVertex();
    var cfg := Config(false, false, 0, 0, 0);
    FarResult(g, cfg);
  }

  lemma FarResult(g: Regs, cfg: Config)
    requires IsFar(g) && !cfg.shift
    ensures var r := Rtps(g, cfg);
      && r.flags == {} && r.mac[1] == 0 && r.mac[3] == 409600 && r.ir[3] == 0x7fff
      && ExactRow(g, ROTATION, 0, TRANSLATION, 0) == 0x1_0000_0000
  {
    var t := RtpsCamera(g, cfg);
    FarRow(g, 0);
    FarRows(g.(flags := {}), cfg);
    FarCamera(RtpsRows(g, cfg), cfg);
    StillScreen(t, ProjectionFactor(t));
  }

  lemma StillScreen(t: Regs, factor: int)
    requires t.Valid() && t.flags == {} && ClipFlag(t) == {}
    requires t.ir[1] == t.ir[2] == t.ofx == t.ofy == t.dqa == t.dqb == 0
    ensures var r := Summarise(DepthQueuing(PushScreen(t.(flags := t.flags + ClipFlag(t)), factor), factor));
      r.flags == {} && r.mac[1] == t.mac[1] && r.mac[3] == t.mac[3] && r.ir[3] == t.ir[3]
  {
    assert t.ir[1] * factor == 0 && t.ir[2] * factor == 0 && t.dqa * factor == 0;
  }

  /** Without an error the camera stage holds the exact coordinates. */
  lemma RtpsCoordinates(g: Regs, cfg: Config)
    requires g.Valid() && 31 !in Rtps(g, cfg).flags
    ensures var t, z := RtpsCamera(g, cfg), Camera(g, 2);
      && t.mac[1] == t.ir[1] == RtpsMac(g, cfg, 0) && t.mac[2] == t.ir[2] == RtpsMac(g, cfg, 1)
      && t.mac[3] == RtpsMac(g, cfg, 2) && t.zFifo[3] == z
  {
    var all := Rtps(g, cfg).flags;
    NoErrorsInStages(g, cfg);
    NoAccumulatorFlags(all);
    RtpsRowFlags(g, cfg);
    RowsExact(g, cfg, 0);
    RowsExact(g, cfg, 1);
    RowsExact(g, cfg, 2);
    DepthExact(g);
    RtpsFlags(g, cfg);
    CleanCamera(RtpsRows(g, cfg), cfg, Camera(g, 2), all);
  }

  /** Without an error the later stages add the position on the screen. */
  lemma RtpsPosition(g: Regs, cfg: Config)
    requires g.Valid() && 31 !in Rtps(g, cfg).flags
    ensures var r, t := Rtps(g, cfg), RtpsCamera(g, cfg);
      && r.ir[1..] == t.ir[1..] && r.mac[1..] == t.mac[1..] && r.zFifo == t.zFifo
      && 0 < t.zFifo[3] <= 0xffff && g.h < 2 * t.zFifo[3]
      && Projected(g, t.ir[1], t.ir[2], t.zFifo[3], r.xyFifo[2])
  {
    var all := Rtps(g, cfg).flags;
    var t := RtpsCamera(g, cfg);
    NoErrorsInStages(g, cfg);
    RtpsFlags(g, cfg);
    NotClipped(t, all);
    SameScreen(g, cfg);
    CleanProjection(t, all);
    SameOffsets(g, cfg, t);
  }

  lemma SameOffsets(g: Regs, cfg: Config, t: Regs)
    requires g.Valid() && t == RtpsCamera(g, cfg)
    ensures t.h == g.h && t.ofx == g.ofx && t.ofy == g.ofy
  {
  }

  lemma SameScreen(g: Regs, cfg: Config)
    requires g.Valid() && ClipFlag(RtpsCamera(g, cfg)) == {}
    ensures RtpsScreen(g, cfg) == PushScreen(RtpsCamera(g, cfg), ProjectionFactor(RtpsCamera(g, cfg)))
  {
    var t := RtpsCamera(g, cfg);
    assert t.(flags := t.flags + ClipFlag(t)) == t;
  }

  lemma NoAccumulatorFlags(all: set<nat>)
    requires NoErrors(all)
    ensures all * ACCUMULATOR_FLAGS == {}
  {
    assert ACCUMULATOR_FLAGS <= ERROR_FLAGS;
  }

  lemma NotClipped(t: Regs, all: set<nat>)
    requires t.Valid() && NoErrors(all) && ClipFlag(t) <= all
    ensures ClipFlag(t) == {}
  {
    NoErrorFlag(ClipFlag(t), all, 17);
  }
}
