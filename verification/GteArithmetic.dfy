/** The GTE's 44 bit accumulator and its saturation rules (src/cpu/gte/mod.rs). Flags are the
    set of bit numbers raised in the flag register. */
module GteArithmetic {
  import opened Arithmetic

  const I44_MAX: int := 0x7ff_ffff_ffff
  const I44_MIN: int := -0x800_0000_0000

  predicate FitsI44(x: int) {
    I44_MIN <= x <= I44_MAX
  }

  /** Keep the low 43 bits and the sign, as two opposite shifts of a 64 bit value do. */
  function Wrap44(x: int): (r: int)
    ensures FitsI44(r)
  {
    (x - I44_MIN) % 0x1000_0000_0000 + I44_MIN
  }

  function ToI32(x: int): (r: int)
    ensures -0x8000_0000 <= r <= 0x7fff_ffff
    ensures -0x8000_0000 <= x <= 0x7fff_ffff ==> r == x
  {
    (x + 0x8000_0000) % 0x1_0000_0000 - 0x8000_0000
  }

  /** Arithmetic shift right by 0 or 12. */
  function Shift(x: int, twelve: bool): int {
    if twelve then x / 4096 else x
  }

  function AccumulatorFlags(flag: nat, x: int): set<nat>
    requires flag <= 2
  {
    if x > I44_MAX then {30 - flag} else if x < I44_MIN then {27 - flag} else {}
  }

  const ACCUMULATOR_FLAGS: set<nat> := {25, 26, 27, 28, 29, 30}

  function Sum(xs: seq<int>): int {
    if xs == [] then 0 else Sum(xs[..|xs| - 1]) + xs[|xs| - 1]
  }

  /** The accumulator and the flags raised after adding `products` one at a time to `start`.
      Overflow in a row raises the row's flag, or the column's for perspective transforms. */
  function Accumulate(start: int, products: seq<int>, row: nat, byColumn: bool): (r: (int, set<nat>))
    requires row <= 2 && |products| <= 3
    ensures r.1 <= ACCUMULATOR_FLAGS
  {
    if products == [] then (start, {}) else
      var n := |products| - 1;
      var (acc, flags) := Accumulate(start, products[..n], row, byColumn);
      var x := acc + products[n];
      (Wrap44(x), flags + AccumulatorFlags(if byColumn then n else row, x))
  }

  lemma WrapOfFit(x: int)
    ensures FitsI44(x) <==> Wrap44(x) == x
  {
  }

  lemma WrapAdd(x: int, y: int)
    ensures Wrap44(Wrap44(x) + y) == Wrap44(x + y)
  {
    var m, z := 0x1000_0000_0000, x - I44_MIN;
    var q := z / m;
    assert Wrap44(x) + y - I44_MIN == z + y - q * m;
    var w := z + y;
    DivModUnique(w - q * m, m, w / m - q, w % m);
  }

  /** Wrapping after every product is wrapping the exact sum once. */
  lemma {:induction false} AccumulateWrapsOnce(start: int, products: seq<int>, row: nat, byColumn: bool)
    requires row <= 2 && |products| <= 3 && FitsI44(start)
    ensures Accumulate(start, products, row, byColumn).0 == Wrap44(start + Sum(products))
  {
    if products == [] {
      WrapOfFit(start);
    } else {
      var n := |products| - 1;
      AccumulateWrapsOnce(start, products[..n], row, byColumn);
      WrapAdd(start + Sum(products[..n]), products[n]);
    }
  }

  /** The exact sum stays in range after every product. */
  predicate PrefixesFit(start: int, products: seq<int>) {
    forall n {:trigger products[..n]} :: 0 <= n <= |products| ==> FitsI44(start + Sum(products[..n]))
  }

  lemma PrefixOfPrefix(products: seq<int>, n: nat, k: nat)
    requires k <= n <= |products|
    ensures products[..n][..k] == products[..k]
  {
  }

  lemma PrefixFits(start: int, products: seq<int>, n: nat)
    requires PrefixesFit(start, products) && n <= |products|
    ensures PrefixesFit(start, products[..n])
  {
    forall k | 0 <= k <= n ensures FitsI44(start + Sum(products[..n][..k])) {
      PrefixOfPrefix(products, n, k);
    }
  }

  lemma FitsWithLast(start: int, products: seq<int>, n: nat)
    requires |products| == n + 1 && PrefixesFit(start, products[..n]) && FitsI44(start + Sum(products))
    ensures PrefixesFit(start, products)
  {
    var init := products[..n];
    forall k | 0 <= k <= |products| ensures FitsI44(start + Sum(products[..k])) {
      if k <= n {
        PrefixOfPrefix(products, n, k);
        assert FitsI44(start + Sum(init[..k]));
      } else {
        assert products[..k] == products;
      }
    }
  }

  lemma FitsThemselves(start: int, products: seq<int>)
    requires PrefixesFit(start, products)
    ensures FitsI44(start + Sum(products))
  {
    assert products[..|products|] == products;
  }

  /** No flag is raised exactly when no prefix of the exact sum leaves the range. */
  lemma {:induction false} FlagsReportOverflow(start: int, products: seq<int>, row: nat, byColumn: bool)
    requires row <= 2 && |products| <= 3 && FitsI44(start)
    ensures Accumulate(start, products, row, byColumn).1 == {} <==> PrefixesFit(start, products)
  {
    if products == [] {
      assert products[..0] == [];
    } else {
      var init := products[..|products| - 1];
      FlagsReportOverflow(start, init, row, byColumn);
      AccumulateWrapsOnce(start, init, row, byColumn);
      if PrefixesFit(start, init) {
        FitsThemselves(start, init);
        WrapOfFit(start + Sum(init));
      }
      if PrefixesFit(start, products) {
        PrefixFits(start, products, |products| - 1);
        FitsThemselves(start, products);
      } else if PrefixesFit(start, init) && FitsI44(start + Sum(products)) {
        FitsWithLast(start, products, |products| - 1);
      }
    }
  }

  /** A clean accumulation is the exact sum. */
  lemma CleanIsExact(start: int, products: seq<int>, row: nat, byColumn: bool)
    requires row <= 2 && |products| <= 3 && FitsI44(start)
    requires Accumulate(start, products, row, byColumn).1 == {}
    ensures Accumulate(start, products, row, byColumn).0 == start + Sum(products)
    ensures FitsI44(start + Sum(products))
  {
    FlagsReportOverflow(start, products, row, byColumn);
    AccumulateWrapsOnce(start, products, row, byColumn);
    assert products[..|products|] == products;
    WrapOfFit(start + Sum(products));
  }

  function Clamp(x: int, lo: int, hi: int): (r: int)
    requires lo <= hi
    ensures lo <= r <= hi
    ensures lo <= x <= hi ==> r == x
  {
    if x > hi then hi else if x < lo then lo else x
  }

  /** The flag a saturation raises: none when the value was in range. */
  function ClampFlag(x: int, lo: int, hi: int, flag: nat): (f: set<nat>)
    requires lo <= hi
    ensures f == {} <==> Clamp(x, lo, hi) == x
  {
    if x > hi || x < lo then {flag} else {}
  }

  function MacOverflowFlag(x: int): set<nat> {
    if x < -0x8000_0000 then {15} else if x > 0x7fff_ffff then {16} else {}
  }
}
