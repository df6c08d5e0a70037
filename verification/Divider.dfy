/** The GTE's division: a table driven Newton-Raphson reciprocal (src/cpu/gte/divider.rs). */
module Divider {
  import opened Arithmetic

  // The reciprocal table, in eight blocks of four rows of eight entries, plus entry 0x100.

  function Block0(row: nat): (r: seq<nat>)
    ensures |r| == 8
  {
    match row
    case 0 => [0xff, 0xfd, 0xfb, 0xf9, 0xf7, 0xf5, 0xf3, 0xf1]
    case 1 => [0xef, 0xee, 0xec, 0xea, 0xe8, 0xe6, 0xe4, 0xe3]
    case 2 => [0xe1, 0xdf, 0xdd, 0xdc, 0xda, 0xd8, 0xd6, 0xd5]
    case _ => [0xd3, 0xd1, 0xd0, 0xce, 0xcd, 0xcb, 0xc9, 0xc8]
  }

  function Block1(row: nat): (r: seq<nat>)
    ensures |r| == 8
  {
    match row
    case 0 => [0xc6, 0xc5, 0xc3, 0xc1, 0xc0, 0xbe, 0xbd, 0xbb]
    case 1 => [0xba, 0xb8, 0xb7, 0xb5, 0xb4, 0xb2, 0xb1, 0xb0]
    case 2 => [0xae, 0xad, 0xab, 0xaa, 0xa9, 0xa7, 0xa6, 0xa4]
    case _ => [0xa3, 0xa2, 0xa0, 0x9f, 0x9e, 0x9c, 0x9b, 0x9a]
  }

  function Block2(row: nat): (r: seq<nat>)
    ensures |r| == 8
  {
    match row
    case 0 => [0x99, 0x97, 0x96, 0x95, 0x94, 0x92, 0x91, 0x90]
    case 1 => [0x8f, 0x8d, 0x8c, 0x8b, 0x8a, 0x89, 0x87, 0x86]
    case 2 => [0x85, 0x84, 0x83, 0x82, 0x81, 0x7f, 0x7e, 0x7d]
    case _ => [0x7c, 0x7b, 0x7a, 0x79, 0x78, 0x77, 0x75, 0x74]
  }

  function Block3(row: nat): (r: seq<nat>)
    ensures |r| == 8
  {
    match row
    case 0 => [0x73, 0x72, 0x71, 0x70, 0x6f, 0x6e, 0x6d, 0x6c]
    case 1 => [0x6b, 0x6a, 0x69, 0x68, 0x67, 0x66, 0x65, 0x64]
    case 2 => [0x63, 0x62, 0x61, 0x60, 0x5f, 0x5e, 0x5d, 0x5d]
    case _ => [0x5c, 0x5b, 0x5a, 0x59, 0x58, 0x57, 0x56, 0x55]
  }

  function Block4(row: nat): (r: seq<nat>)
    ensures |r| == 8
  {
    match row
    case 0 => [0x54, 0x53, 0x53, 0x52, 0x51, 0x50, 0x4f, 0x4e]
    case 1 => [0x4d, 0x4d, 0x4c, 0x4b, 0x4a, 0x49, 0x48, 0x48]
    case 2 => [0x47, 0x46, 0x45, 0x44, 0x43, 0x43, 0x42, 0x41]
    case _ => [0x40, 0x3f, 0x3f, 0x3e, 0x3d, 0x3c, 0x3c, 0x3b]
  }

  function Block5(row: nat): (r: seq<nat>)
    ensures |r| == 8
  {
    match row
    case 0 => [0x3a, 0x39, 0x39, 0x38, 0x37, 0x36, 0x36, 0x35]
    case 1 => [0x34, 0x33, 0x33, 0x32, 0x31, 0x31, 0x30, 0x2f]
    case 2 => [0x2e, 0x2e, 0x2d, 0x2c, 0x2c, 0x2b, 0x2a, 0x2a]
    case _ => [0x29, 0x28, 0x28, 0x27, 0x26, 0x26, 0x25, 0x24]
  }

  function Block6(row: nat): (r: seq<nat>)
    ensures |r| == 8
  {
    match row
    case 0 => [0x24, 0x23, 0x22, 0x22, 0x21, 0x20, 0x20, 0x1f]
    case 1 => [0x1e, 0x1e, 0x1d, 0x1d, 0x1c, 0x1b, 0x1b, 0x1a]
    case 2 => [0x19, 0x19, 0x18, 0x18, 0x17, 0x16, 0x16, 0x15]
    case _ => [0x15, 0x14, 0x14, 0x13, 0x12, 0x12, 0x11, 0x11]
  }

  function Block7(row: nat): (r: seq<nat>)
    ensures |r| == 8
  {
    match row
    case 0 => [0x10, 0x0f, 0x0f, 0x0e, 0x0e, 0x0d, 0x0d, 0x0c]
    case 1 => [0x0c, 0x0b, 0x0a, 0x0a, 0x09, 0x09, 0x08, 0x08]
    case 2 => [0x07, 0x07, 0x06, 0x06, 0x05, 0x05, 0x04, 0x04]
    case _ => [0x03, 0x03, 0x02, 0x02, 0x01, 0x01, 0x00, 0x00]
  }

  function UnrRow(row: nat): (r: seq<nat>)
    ensures |r| == 8
  {
    match row / 4
    case 0 => Block0(row % 4)
    case 1 => Block1(row % 4)
    case 2 => Block2(row % 4)
    case 3 => Block3(row % 4)
    case 4 => Block4(row % 4)
    case 5 => Block5(row % 4)
    case 6 => Block6(row % 4)
    case _ => Block7(row % 4)
  }

  function UnrTable(index: nat): nat
    requires index <= 0x100
  {
    if index == 0x100 then 0x00 else UnrRow(index / 8)[index % 8]
  }

  /** The formula the table was generated from. */
  function TableFormula(index: nat): int {
    (0x40000 / (index + 0x100) + 1) / 2 - 0x101
  }

  /** `r` holds the formula's values from index `i` on. */
  predicate RowMatches(r: seq<nat>, i: nat)
    requires |r| == 8
  {
    && r[0] == TableFormula(i) && r[1] == TableFormula(i + 1)
    && r[2] == TableFormula(i + 2) && r[3] == TableFormula(i + 3)
    && r[4] == TableFormula(i + 4) && r[5] == TableFormula(i + 5)
    && r[6] == TableFormula(i + 6) && r[7] == TableFormula(i + 7)
  }

  lemma Block0Matches(row: nat)
    requires row < 4
    ensures RowMatches(Block0(row), 0 + 8 * row)
  {
    match row {
      case 0 => assert RowMatches(Block0(0), 0);
      case 1 => assert RowMatches(Block0(1), 8);
      case 2 => assert RowMatches(Block0(2), 16);
      case _ => assert RowMatches(Block0(3), 24);
    }
  }

  lemma Block1Matches(row: nat)
    requires row < 4
    ensures RowMatches(Block1(row), 32 + 8 * row)
  {
    match row {
      case 0 => assert RowMatches(Block1(0), 32);
      case 1 => assert RowMatches(Block1(1), 40);
      case 2 => assert RowMatches(Block1(2), 48);
      case _ => assert RowMatches(Block1(3), 56);
    }
  }

  lemma Block2Matches(row: nat)
    requires row < 4
    ensures RowMatches(Block2(row), 64 + 8 * row)
  {
    match row {
      case 0 => assert RowMatches(Block2(0), 64);
      case 1 => assert RowMatches(Block2(1), 72);
      case 2 => assert RowMatches(Block2(2), 80);
      case _ => assert RowMatches(Block2(3), 88);
    }
  }

  lemma Block3Matches(row: nat)
    requires row < 4
    ensures RowMatches(Block3(row), 96 + 8 * row)
  {
    match row {
      case 0 => assert RowMatches(Block3(0), 96);
      case 1 => assert RowMatches(Block3(1), 104);
      case 2 => assert RowMatches(Block3(2), 112);
      case _ => assert RowMatches(Block3(3), 120);
    }
  }

  lemma Block4Matches(row: nat)
    requires row < 4
    ensures RowMatches(Block4(row), 128 + 8 * row)
  {
    match row {
      case 0 => assert RowMatches(Block4(0), 128);
      case 1 => assert RowMatches(Block4(1), 136);
      case 2 => assert RowMatches(Block4(2), 144);
      case _ => assert RowMatches(Block4(3), 152);
    }
  }

  lemma Block5Matches(row: nat)
    requires row < 4
    ensures RowMatches(Block5(row), 160 + 8 * row)
  {
    match row {
      case 0 => assert RowMatches(Block5(0), 160);
      case 1 => assert RowMatches(Block5(1), 168);
      case 2 => assert RowMatches(Block5(2), 176);
      case _ => assert RowMatches(Block5(3), 184);
    }
  }

  lemma Block6Matches(row: nat)
    requires row < 4
    ensures RowMatches(Block6(row), 192 + 8 * row)
  {
    match row {
      case 0 => assert RowMatches(Block6(0), 192);
      case 1 => assert RowMatches(Block6(1), 200);
      case 2 => assert RowMatches(Block6(2), 208);
      case _ => assert RowMatches(Block6(3), 216);
    }
  }

  lemma Block7Matches(row: nat)
    requires row < 4
    ensures RowMatches(Block7(row), 224 + 8 * row)
  {
    match row {
      case 0 => assert RowMatches(Block7(0), 224);
      case 1 => assert RowMatches(Block7(1), 232);
      case 2 => assert RowMatches(Block7(2), 240);
      case _ => assert RowMatches(Block7(3), 248);
    }
  }

  lemma RowsMatch(row: nat)
    requires row < 32
    ensures RowMatches(UnrRow(row), 8 * row)
  {
    match row / 4 {
      case 0 => Block0Matches(row % 4);
      case 1 => Block1Matches(row % 4);
      case 2 => Block2Matches(row % 4);
      case 3 => Block3Matches(row % 4);
      case 4 => Block4Matches(row % 4);
      case 5 => Block5Matches(row % 4);
      case 6 => Block6Matches(row % 4);
      case _ => Block7Matches(row % 4);
    }
  }

  /** Every entry but the last is the formula's, and the last one repeats its predecessor. */
  lemma TableMatchesFormula(index: nat)
    requires index <= 0x100
    ensures index < 0x100 ==> UnrTable(index) == TableFormula(index)
    ensures UnrTable(0x100) == UnrTable(0xff)
  {
    if index < 0x100 {
      var row := index / 8;
      RowsMatch(row);
      assert index == 8 * row + index % 8;
    }
  }

  /** A divisor whose top bit is set, as `divide` passes it on. */
  type Normalised = d: nat | 0x8000 <= d <= 0xffff witness 0x8000

  function TableIndex(d: Normalised): nat {
    (d - 0x8000 + 0x40) / 128
  }

  /** The table's first guess at 2^24 / d. */
  function Factor(d: Normalised): nat {
    UnrTable(TableIndex(d)) + 0x101
  }

  function Correction(d: Normalised): int {
    (0x80 - d * Factor(d)) / 256
  }

  function Reciprocal(d: Normalised): int {
    (Factor(d) * (0x20000 + Correction(d)) + 0x80) / 256
  }

  function Square(x: int): int {
    x * x
  }

  lemma MulMono(a: int, b: int, k: int)
    requires a <= b && 0 <= k
    ensures a * k <= b * k
  {
  }

  lemma SquareMono(x: int, b: int)
    requires 0 - b <= x <= b
    ensures 0 <= Square(x) <= Square(b)
  {
    assert (b - x) * (b + x) == Square(b) - Square(x);
  }

  /** The table's guess is the nearest integer to 2^17 / m, for the middle m of its cell. */
  lemma FactorRounds(m: int, f: int)
    requires 256 <= m < 512 && f == (0x40000 / m + 1) / 2
    ensures 0x40000 - m <= 2 * (f * m) <= 0x40000 + m
    ensures 257 <= f <= 512 && m + f <= 768
  {
    var q := 0x40000 / m;
    DivAtLeast(0x40000, m, q);
    DivAtLeast(0x40000, m, q + 1);
    assert (q + 1) * m == q * m + m;
    RoundsToNearest(m, q, f);
  }

  lemma RoundsToNearest(m: int, q: int, f: int)
    requires 256 <= m < 512 && f == (q + 1) / 2 && q * m <= 0x40000 < q * m + m
    ensures 0x40000 - m <= 2 * (f * m) <= 0x40000 + m
    ensures 257 <= f && m + f <= 768
  {
    assert 2 * (f * m) == q * m || 2 * (f * m) == q * m + m by {
      assert 2 * (f * m) == (2 * f) * m;
    }
    assert m + f <= 768 by {
      if f > 768 - m {
        MulMono(769 - m, f, m);
        CellSum(m);
        assert false;
      }
    }
    assert 257 <= f by {
      if f < 257 {
        MulMono(f, 256, m);
        assert false;
      }
    }
  }

  lemma CellSum(m: int)
    requires 256 <= m <= 512
    ensures (769 - m) * m >= 0x20000 + m
  {
    assert (m - 256) * (512 - m) == 768 * m - m * m - 0x20000;
    assert (769 - m) * m == 769 * m - m * m;
    MulMono(0, m - 256, 512 - m);
  }

  /** What the table holds for a divisor. */
  lemma FactorOf(d: Normalised)
    ensures TableIndex(d) <= 256
    ensures TableIndex(d) < 256 ==> Factor(d) == (0x40000 / (TableIndex(d) + 256) + 1) / 2
    ensures TableIndex(d) == 256 ==> Factor(d) == 257
  {
    TableMatchesFormula(TableIndex(d));
  }

  lemma ResidualInCell(d: int, m: int, f: int)
    requires -64 <= 128 * m - d <= 64
    requires 256 <= m && 0x40000 - m <= 2 * (f * m) <= 0x40000 + m && 0 <= f && m + f <= 768
    ensures -49152 <= 0x1000000 - d * f <= 49152
  {
    assert 0x1000000 - d * f == 64 * (0x40000 - 2 * (f * m)) + (128 * m - d) * f;
    MulMono(-64, 128 * m - d, f);
    MulMono(128 * m - d, 64, f);
  }

  /** The residual of the first guess is small enough that one iteration makes it vanish. */
  lemma ResidualBound(d: int, i: int, f: int)
    requires 0x8000 <= d <= 0xffff && i == (d - 0x8000 + 0x40) / 128
    requires i < 256 ==> f == (0x40000 / (i + 256) + 1) / 2
    requires i == 256 ==> f == 257
    ensures 257 <= f <= 512
    ensures 0 <= Square(0x1000000 - d * f) <= 73728 * d
  {
    if i < 256 {
      var m := i + 256;
      FactorRounds(m, f);
      ResidualInCell(d, m, f);
      SquareMono(0x1000000 - d * f, 49152);
    } else {
      SquareMono(0x1000000 - 257 * d, 65279);
    }
  }

  /** The Newton-Raphson step, with `a` and `b` the two rounding errors: the new residual is
      minus the square of the old one, plus rounding. */
  lemma NewtonIdentity(d: int, f: int, x: int, s: int, r: int, a: int, b: int)
    requires x == d * f && 256 * s == 0x2000000 - x + a && 256 * r == f * s + b
    ensures 65536 * (r * d - 0x1_0000_0000) == x * a + 256 * (d * b) - Square(0x1000000 - x)
  {
    calc {
      65536 * (r * d);
      256 * (d * (256 * r));
      256 * (d * (f * s + b));
      256 * (x * s) + 256 * (d * b);
      x * (256 * s) + 256 * (d * b);
      x * (0x2000000 - x + a) + 256 * (d * b);
      x * (0x2000000 - x) + x * a + 256 * (d * b);
      0x1_0000_0000_0000 - Square(0x1000000 - x) + x * a + 256 * (d * b);
    }
  }

  /** The operands of the step stay small. */
  lemma StepRanges(d: int, f: int, s: int)
    requires 0x8000 <= d <= 0xffff && 257 <= f <= 512 && s == 0x20000 + (0x80 - d * f) / 256
    ensures 257 * d <= d * f <= 512 * d
    ensures 0 <= s <= 0x20000 && 0 <= f * s <= 512 * 0x20000
  {
    MulMono(257, f, d);
    MulMono(f, 512, d);
    assert 0 <= s <= 0x20000;
    MulMono(0, s, f);
    MulMono(s, 0x20000, f);
  }

  /** One Newton-Raphson step from a guess `f` with a small residual. */
  lemma NewtonStep(d: int, f: int, x: int, s: int, r: int)
    requires 0 < d && x == d * f && 0 <= x <= 512 * d && 0 <= Square(0x1000000 - x) <= 73728 * d
    requires s == 0x20000 + (0x80 - x) / 256 && r == (f * s + 0x80) / 256
    ensures -172032 * d <= 65536 * (r * d - 0x1_0000_0000) <= 98304 * d
  {
    var a, b := RoundedTwice(x, f * s, s, r);
    NewtonIdentity(d, f, x, s, r, a, b);
    RoundingErrors(d, x, a, b);
  }

  lemma RoundedTwice(x: int, y: int, s: int, r: int) returns (a: int, b: int)
    requires s == 0x20000 + (0x80 - x) / 256 && r == (y + 0x80) / 256
    ensures 256 * s == 0x2000000 - x + a && 256 * r == y + b && -127 <= a <= 128 && -127 <= b <= 128
  {
    a, b := 256 * s - 0x2000000 + x, 256 * r - y;
  }

  lemma RoundingErrors(d: int, x: int, a: int, b: int)
    requires 0 <= d && 0 <= x <= 512 * d && -127 <= a <= 128 && -127 <= b <= 128
    ensures -98304 * d <= x * a + 256 * (d * b) <= 98304 * d
  {
    MulMono(-127, a, x);
    MulMono(a, 128, x);
    MulMono(-127, b, d);
    MulMono(b, 128, d);
    assert a * x == x * a && b * d == d * b;
  }

  /** The reciprocal is within -2.625 and +1.5 units of 2^32 / d, and every intermediate
      value of its computation fits a signed 32 bit register. */
  lemma ReciprocalBound(d: Normalised)
    ensures -21 * d <= 8 * (Reciprocal(d) * d - 0x1_0000_0000)
    ensures 2 * (Reciprocal(d) * d - 0x1_0000_0000) <= 3 * d
    ensures 0 < d * Factor(d) < 0x8000_0000
    ensures 0 <= Factor(d) * (0x20000 + Correction(d)) < 0x7fff_0000
    ensures 0 <= Reciprocal(d)
  {
    FactorOf(d);
    ResidualBound(d, TableIndex(d), Factor(d));
    StepRanges(d, Factor(d), 0x20000 + Correction(d));
    NewtonStep(d, Factor(d), d * Factor(d), 0x20000 + Correction(d), Reciprocal(d));
  }

  /** The shift that brings the top bit of a 16 bit value to bit 15. */
  function LeadingZeros(v: nat): (z: nat)
    requires 0 < v <= 0xffff
    ensures 0x8000 <= v * Pow2(z) <= 0xffff
    decreases 0x10000 - v
  {
    if v >= 0x8000 then 0 else
      var z := LeadingZeros(2 * v);
      assert v * Pow2(1 + z) == 2 * v * Pow2(z);
      1 + z
  }

  /** The quotient before saturation. */
  function Quotient(numerator: nat, divisor: nat): int
    requires 0 < divisor <= 0xffff
  {
    var p := Pow2(LeadingZeros(divisor));
    (numerator * p * Reciprocal(divisor * p) + 0x8000) / 65536
  }

  /** `divide`: a 1.16 fixed point value, saturated. */
  function Divide(numerator: nat, divisor: nat): int
    requires 0 < divisor <= 0xffff
  {
    if Quotient(numerator, divisor) <= 0x1ffff then Quotient(numerator, divisor) else 0x1ffff
  }

  /** The last step scales the error of the reciprocal by at most two and rounds. */
  lemma ScaledQuotient(n: int, d: int, r: int, res: int)
    requires 0 <= n < 2 * d && 0x8000 <= d <= 0xffff && res == (n * r + 0x8000) / 65536
    requires -21 * d <= 8 * (r * d - 0x1_0000_0000) && 2 * (r * d - 0x1_0000_0000) <= 3 * d
    ensures -6 * d < res * d - 65536 * n < 4 * d
  {
    var c, e := 65536 * res - n * r, r * d - 0x1_0000_0000;
    assert -0x7fff <= c <= 0x8000;
    QuotientIdentity(n, d, r, res, c, e);
    ScaledErrors(n, d, c, e);
  }

  lemma QuotientIdentity(n: int, d: int, r: int, res: int, c: int, e: int)
    requires 65536 * res == n * r + c && r * d == 0x1_0000_0000 + e
    ensures 65536 * (res * d - 65536 * n) == e * n + c * d
  {
    calc {
      65536 * (res * d);
      (n * r + c) * d;
      n * (r * d) + c * d;
      n * (0x1_0000_0000 + e) + c * d;
    }
  }

  lemma ScaledErrors(n: int, d: int, c: int, e: int)
    requires 0 <= n < 2 * d && 0x8000 <= d <= 0xffff && -0x7fff <= c <= 0x8000
    requires -21 * d <= 8 * e && 2 * e <= 3 * d
    ensures -6 * 65536 * d < e * n + c * d < 4 * 65536 * d
  {
    assert 2 * (e * n) <= 3 * (n * d) by { MulMono(2 * e, 3 * d, n); }
    assert -21 * (n * d) <= 8 * (e * n) by { MulMono(-21 * d, 8 * e, n); }
    assert 0 <= n * d <= 0x1fffd * d by { MulMono(n, 0x1fffd, d); }
    assert -0x7fff * d <= c * d <= 0x8000 * d by { MulMono(-0x7fff, c, d); MulMono(c, 0x8000, d); }
  }

  lemma Unscale(e: int, p: int, lo: int, hi: int)
    requires p > 0 && lo * p < e * p < hi * p
    ensures lo < e < hi
  {
    if e <= lo {
      MulMono(e, lo, p);
    } else if e >= hi {
      MulMono(hi, e, p);
    }
  }

  /** The division error: for a quotient below two the result is less than 6 units too small
      and less than 4 units too large, saturated or not. */
  lemma DivisionErrorBound(numerator: nat, divisor: nat)
    requires 0 < divisor <= 0xffff && numerator < 2 * divisor
    ensures -6 * divisor < Quotient(numerator, divisor) * divisor - 65536 * numerator < 4 * divisor
    ensures -6 * divisor < Divide(numerator, divisor) * divisor - 65536 * numerator < 4 * divisor
    ensures 0 <= Divide(numerator, divisor) <= 0x1ffff
  {
    var p := Pow2(LeadingZeros(divisor));
    ReciprocalBound(divisor * p);
    DivideScaled(numerator, divisor, p, Reciprocal(divisor * p), Quotient(numerator, divisor));
    if Quotient(numerator, divisor) > 0x1ffff {
      MulMono(0x20000, Quotient(numerator, divisor), divisor);
    }
  }

  lemma DivideScaled(numerator: int, divisor: int, p: int, r: int, q: int)
    requires 0 < p && 0 < divisor && 0x8000 <= divisor * p <= 0xffff && 0 <= numerator < 2 * divisor
    requires q == (numerator * p * r + 0x8000) / 65536 && 0 <= r
    requires -21 * (divisor * p) <= 8 * (r * (divisor * p) - 0x1_0000_0000)
    requires 2 * (r * (divisor * p) - 0x1_0000_0000) <= 3 * (divisor * p)
    ensures -6 * divisor < q * divisor - 65536 * numerator < 4 * divisor
    ensures 0 <= q
  {
    var n, d := numerator * p, divisor * p;
    ScaledNumerator(numerator, divisor, p);
    ScaledQuotient(n, d, r, q);
    assert 0 <= n * r by { MulMono(0, r, n); }
    ScaledDifference(q, divisor, numerator, p);
    Unscale(q * divisor - 65536 * numerator, p, -6 * divisor, 4 * divisor);
  }

  lemma ScaledNumerator(numerator: int, divisor: int, p: int)
    requires 0 < p && 0 <= numerator < 2 * divisor
    ensures 0 <= numerator * p < 2 * (divisor * p)
  {
    MulMono(0, numerator, p);
    MulMono(numerator, 2 * divisor - 1, p);
    assert (2 * divisor - 1) * p == 2 * (divisor * p) - p;
  }

  lemma ScaledDifference(q: int, divisor: int, numerator: int, p: int)
    ensures (q * divisor - 65536 * numerator) * p == q * (divisor * p) - 65536 * (numerator * p)
    ensures (-6 * divisor) * p == -6 * (divisor * p) && (4 * divisor) * p == 4 * (divisor * p)
  {
  }

  /** The guard under which a command divides implies the hypotheses of the error bound. */
  lemma GuardAdmitsDivision(h: nat, z: nat)
    requires h <= 0xffff && z <= 0xffff && z > h / 2
    ensures 0 < z && h < 2 * z
  {
  }

  // ---- Samples ----

  /** A quotient depends on the ratio alone, as long as its terms fit. */
  lemma DivideScales(numerator: nat, divisor: nat)
    requires 0 < divisor && 2 * divisor <= 0xffff
    ensures Divide(2 * numerator, 2 * divisor) == Divide(numerator, divisor)
  {
    var z := LeadingZeros(2 * divisor);
    assert LeadingZeros(divisor) == 1 + z && Pow2(1 + z) == 2 * Pow2(z);
    assert 2 * divisor * Pow2(z) == divisor * Pow2(1 + z);
    assert 2 * numerator * Pow2(z) == numerator * Pow2(1 + z);
  }

  lemma DivideZero(divisor: nat)
    requires 0 < divisor <= 0xffff
    ensures Divide(0, divisor) == 0
  {
    assert 0 * Pow2(LeadingZeros(divisor)) == 0;
    assert 0 * Reciprocal(divisor * Pow2(LeadingZeros(divisor))) == 0;
  }

  /** A division step by step. */
  lemma DivideSteps(numerator: nat, divisor: nat, p: nat, i: nat, f: nat, c: int, r: int)
    requires 0 < divisor <= 0xffff && (p == 1 || p == 2 || p == 4) && 0x8000 <= divisor * p <= 0xffff
    requires i == (divisor * p - 0x8000 + 0x40) / 128 && f == (if i == 0x100 then 0 else TableFormula(i)) + 0x101
    requires c == (0x80 - divisor * p * f) / 256 && r == (f * (0x20000 + c) + 0x80) / 256
    ensures var q := (numerator * p * r + 0x8000) / 65536;
      Divide(numerator, divisor) == if q <= 0x1ffff then q else 0x1ffff
  {
    ScaleOf(divisor, p);
    ReciprocalSteps(divisor * p, i, f, c, r);
  }

  lemma ReciprocalSteps(d: Normalised, i: nat, f: nat, c: int, r: int)
    requires i == (d - 0x8000 + 0x40) / 128 && f == (if i == 0x100 then 0 else TableFormula(i)) + 0x101
    requires c == (0x80 - d * f) / 256 && r == (f * (0x20000 + c) + 0x80) / 256
    ensures Reciprocal(d) == r
  {
    TableMatchesFormula(i);
    assert Factor(d) == f && Correction(d) == c;
  }

  lemma ScaleOf(divisor: nat, p: nat)
    requires 0 < divisor <= 0xffff && (p == 1 || p == 2 || p == 4) && 0x8000 <= divisor * p <= 0xffff
    ensures Pow2(LeadingZeros(divisor)) == p
    decreases p
  {
    if p == 2 {
      ScaleOf(2 * divisor, 1);
      assert LeadingZeros(divisor) == 1 + LeadingZeros(2 * divisor);
    } else if p == 4 {
      ScaleOf(2 * divisor, 2);
      assert LeadingZeros(divisor) == 1 + LeadingZeros(2 * divisor);
    }
  }

  /** Quotients that the hardware is known for, as the program's own test lists them. */
  lemma KnownQuotients(n: nat, d: nat)
    requires 0 < d <= 0xffff
    ensures n == 0xffff && d == 0xffff ==> Divide(n, d) == 0x0ffff
    ensures n == 0xffff && d == 0xfffe ==> Divide(n, d) == 0x10000
    ensures n == 0x0f00 && d == 0xbeef ==> Divide(n, d) == 0x0141d
    ensures n == 0xffff && d == 0x8000 ==> Divide(n, d) == 0x1fffe
    ensures n == 0xe5d7 && d == 0x72ec ==> Divide(n, d) == 0x1ffff
    ensures n == 0x2694 && d == 0x223d ==> Divide(n, d) == 0x12072
    ensures n == 0x00c8 && d == 0x2710 ==> Divide(n, d) == 0x0051f
  {
    if n == 0xffff && d == 0xffff {
      DivideSteps(n, d, 1, 0x100, 0x101, -65791, 0x10000);
    } else if n == 0xffff && d == 0xfffe {
      DivideSteps(n, d, 1, 0x100, 0x101, -65790, 0x10001);
    } else if n == 0x0f00 && d == 0xbeef {
      DivideSteps(n, d, 1, 0x7e, 0x157, -65490, 0x1573e);
    } else if n == 0xffff && d == 0x8000 {
      DivideSteps(n, d, 1, 0x0, 0x200, -65536, 0x20000);
    } else if n == 0xe5d7 && d == 0x72ec {
      DivideSteps(n, d, 2, 0xcc, 0x11d, -65505, 0x11d23);
    } else if n == 0x2694 && d == 0x223d {
      DivideSteps(n, d, 4, 0x12, 0x1de, -65464, 0x1de86);
    } else if n == 0x00c8 && d == 0x2710 {
      DivideSteps(n, d, 4, 0x39, 0x1a3, -65469, 0x1a36e);
    }
  }
}
