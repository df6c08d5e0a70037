/** The GTE itself: commands that update the accumulators, the FIFOs and the flag register in
    place, proved against the register functions of module `Gte`. */
module GteDevice {
  import opened GteArithmetic
  import opened Divider
  import opened Gte

  class GteUnit {
    var matrices: seq<Mat3>
    var control: seq<Vec3>
    var v: seq<Vec3>
    var h: nat
    var ofx: int
    var ofy: int
    var dqa: int
    var dqb: int
    var mac: seq<int>
    var ir: seq<int>
    var zFifo: seq<nat>
    var xyFifo: seq<(int, int)>
    var flags: set<nat>

    ghost function View(): Regs
      reads this
    {
      Regs(matrices, control, v, h, ofx, ofy, dqa, dqb, mac, ir, zFifo, xyFifo, flags)
    }

    method SetFlag(bit: nat)
      modifies `flags
      ensures flags == old(flags) + {bit}
    {
      flags := flags + {bit};
    }

    method I64ToI44(flag: nat, val: int) returns (r: int)
      requires flag <= 2
      modifies `flags
      ensures r == Wrap44(val) && flags == old(flags) + AccumulatorFlags(flag, val)
    {
      if val > 0x7ff_ffff_ffff {
        SetFlag(30 - flag);
      } else if val < -0x800_0000_0000 {
        SetFlag(27 - flag);
      }
      r := (val + 0x800_0000_0000) % 0x1000_0000_0000 - 0x800_0000_0000;
    }

    method Saturate(val: int, lo: int, hi: int, flag: nat) returns (r: int)
      requires lo <= hi
      modifies `flags
      ensures r == Clamp(val, lo, hi) && flags == old(flags) + ClampFlag(val, lo, hi, flag)
    {
      if val > hi {
        SetFlag(flag);
        r := hi;
      } else if val < lo {
        SetFlag(flag);
        r := lo;
      } else {
        r := val;
      }
    }

    method CheckMacOverflow(val: int)
      modifies `flags
      ensures flags == old(flags) + MacOverflowFlag(val)
    {
      if val < -0x8000_0000 {
        SetFlag(15);
      } else if val > 0x7fff_ffff {
        SetFlag(16);
      }
    }

    /** The inner loop over the matrix columns. */
    method AccumulateRow(r: nat, byColumn: bool, mat: nat, vec: nat, crv: nat) returns (res: int)
      requires View().Valid() && mat < 3 && vec < 4 && crv < 4 && r < 3
      modifies `flags
      ensures View() == old(View()).(flags := flags)
      ensures res == Row(old(View()), byColumn, mat, vec, crv, r).0
      ensures flags == old(flags) + Row(old(View()), byColumn, mat, vec, crv, r).1
    {
      ghost var products := Products(v[vec], matrices[mat].Row(r));
      ghost var start := control[crv].At(r) * 4096;
      res := control[crv].At(r) * 4096;
      for c := 0 to 3
        invariant View() == old(View()).(flags := flags)
        invariant res == Accumulate(start, products[..c], r, byColumn).0
        invariant flags == old(flags) + Accumulate(start, products[..c], r, byColumn).1
      {
        var product := v[vec].At(c) * matrices[mat].Row(r).At(c);
        assert products[..c + 1][..c] == products[..c] && products[c] == product;
        res := I64ToI44(if byColumn then c else r, res + product);
      }
      assert products[..3] == products;
    }

    /** The outer loop over the matrix rows. */
    method AccumulateRows(shift: bool, byColumn: bool, mat: nat, vec: nat, crv: nat) returns (last: int)
      requires View().Valid() && mat < 3 && vec < 4 && crv < 4
      modifies `flags, `mac
      ensures View() == RowsDone(old(View()), shift, byColumn, mat, vec, crv)
      ensures last == Row(old(View()), byColumn, mat, vec, crv, 2).0
    {
      ghost var g := View();
      last := 0;
      for r := 0 to 3
        invariant View() == g.(mac := mac, flags := flags) && |mac| == 4
        invariant mac[0] == g.mac[0]
        invariant forall k :: 0 <= k < r ==> mac[k + 1] == RowMac(g, shift, byColumn, mat, vec, crv, k)
        invariant flags == g.flags + RowFlags(g, byColumn, mat, vec, crv, r)
        invariant r == 3 ==> last == Row(g, byColumn, mat, vec, crv, 2).0
      {
        assert View().Valid();
        SameRow(View(), g, byColumn, mat, vec, crv, r);
        last := AccumulateRow(r, byColumn, mat, vec, crv);
        mac := mac[r + 1 := ToI32(Shift(last, shift))];
      }
      assert mac == RowsDone(g, shift, byColumn, mat, vec, crv).mac;
    }

    method MacToIr(cfg: Config)
      requires View().Valid()
      modifies `ir, `flags
      ensures View() == Gte.MacToIr(old(View()), cfg)
    {
      var lo := cfg.IrMin();
      var ir1 := Saturate(mac[1], lo, 0x7fff, 24);
      var ir2 := Saturate(mac[2], lo, 0x7fff, 23);
      var ir3 := Saturate(mac[3], lo, 0x7fff, 22);
      ir := [ir[0], ir1, ir2, ir3];
    }

    method MultiplyMatrixByVector(cfg: Config, mat: nat, vec: nat, crv: nat)
      requires View().Valid() && mat < 3 && vec < 4 && crv < 4 && crv != FAR_COLOR
      modifies this
      ensures View() == Multiply(old(View()), cfg, mat, vec, crv)
    {
      var _ := AccumulateRows(cfg.shift, false, mat, vec, crv);
      MacToIr(cfg);
    }

    /** Step two of the projection; the depth's overflow is tested on the shifted value. */
    method CameraToIr(cfg: Config, zShifted: int)
      requires View().Valid()
      modifies `ir, `flags
      ensures View() == Gte.CameraToIr(old(View()), cfg, zShifted)
    {
      var lo := cfg.IrMin();
      var ir1 := Saturate(mac[1], lo, 0x7fff, 24);
      var ir2 := Saturate(mac[2], lo, 0x7fff, 23);
      if zShifted > 0x7fff || zShifted < -0x8000 {
        SetFlag(22);
      }
      var ir3 := if mac[3] < lo then lo else if mac[3] > 0x7fff then 0x7fff else mac[3];
      ir := [ir[0], ir1, ir2, ir3];
    }

    /** Steps one to three of the projection. */
    method TransformVector(cfg: Config, vec: nat)
      requires View().Valid() && vec < 4
      modifies this
      ensures View() == Transform(old(View()), cfg, vec)
    {
      var last := AccumulateRows(cfg.shift, true, ROTATION, vec, TRANSLATION);
      var zShifted := ToI32(last / 4096);
      CameraToIr(cfg, zShifted);
      var z := Saturate(zShifted, 0, 0xffff, 18);
      zFifo := [zFifo[1], zFifo[2], zFifo[3], z];
    }

    /** Step four of the projection. */
    method PushScreen(factor: int)
      requires View().Valid()
      modifies `xyFifo, `flags
      ensures View() == Gte.PushScreen(old(View()), factor)
    {
      var x, y := ir[1] * factor + ofx, ir[2] * factor + ofy;
      CheckMacOverflow(x);
      CheckMacOverflow(y);
      var sx := Saturate(ToI32(x / 65536), -0x400, 0x3ff, 14);
      var sy := Saturate(ToI32(y / 65536), -0x400, 0x3ff, 13);
      xyFifo := xyFifo[3 := (sx, sy)];
      xyFifo := xyFifo[0 := xyFifo[1]];
      xyFifo := xyFifo[1 := xyFifo[2]];
      xyFifo := xyFifo[2 := xyFifo[3]];
      assert xyFifo == [old(xyFifo)[1], old(xyFifo)[2], (sx, sy), (sx, sy)];
    }

    /** The projection factor, or the clipping flag. */
    method ComputeFactor() returns (factor: int)
      requires View().Valid() && zFifo[3] <= 0xffff
      modifies `flags
      ensures factor == ProjectionFactor(old(View()))
      ensures flags == old(flags) + ClipFlag(old(View()))
    {
      if zFifo[3] > h / 2 {
        factor := Divide(h, zFifo[3]);
      } else {
        SetFlag(17);
        factor := 0x1ffff;
      }
    }

    method DoRtp(cfg: Config, vec: nat) returns (factor: int)
      requires View().Valid() && vec < 4
      modifies this
      ensures View() == Gte.DoRtp(old(View()), cfg, vec)
      ensures factor == ProjectionFactor(Transform(old(View()), cfg, vec))
    {
      TransformVector(cfg, vec);
      factor := ComputeFactor();
      PushScreen(factor);
    }

    method DepthQueuing(factor: int)
      requires View().Valid()
      modifies this
      ensures View() == Gte.DepthQueuing(old(View()), factor)
    {
      var depth := dqb + dqa * factor;
      CheckMacOverflow(depth);
      mac := mac[0 := ToI32(depth)];
      var ir0 := Saturate(depth / 4096, 0, 4096, 12);
      ir := ir[0 := ir0];
    }

    method UpdateSummary()
      modifies `flags
      ensures View() == Summarise(old(View()))
    {
      if flags * ERROR_FLAGS != {} {
        SetFlag(31);
      }
    }

    method CommandRtps(cfg: Config)
      requires View().Valid()
      modifies this
      ensures View() == Rtps(old(View()), cfg)
    {
      flags := {};
      var factor := DoRtp(cfg, 0);
      DepthQueuing(factor);
      UpdateSummary();
    }

    method CommandMvmva(cfg: Config)
      requires View().Valid()
      requires cfg.matrix < 3 && cfg.vectorMul < 4 && cfg.vectorAdd < 4 && cfg.vectorAdd != FAR_COLOR
      modifies this
      ensures View() == Mvmva(old(View()), cfg)
    {
      flags := {};
      v := v[3 := Vec3(ir[1], ir[2], ir[3])];
      MultiplyMatrixByVector(cfg, cfg.matrix, cfg.vectorMul, cfg.vectorAdd);
      UpdateSummary();
    }
  }

  /** A row does not depend on the accumulators or the flags. */
  lemma SameRow(a: Regs, b: Regs, byColumn: bool, mat: nat, vec: nat, crv: nat, r: nat)
    requires a.Valid() && b.Valid() && a == b.(mac := a.mac, flags := a.flags)
    requires mat < 3 && vec < 4 && crv < 4 && r < 3
    ensures Row(a, byColumn, mat, vec, crv, r) == Row(b, byColumn, mat, vec, crv, r)
  {
  }
}
