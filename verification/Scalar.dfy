/** Counters too big for an int: gigs of units. */
module Scalars {
  newtype int32 = x: int | -0x8000_0000 <= x < 0x8000_0000

  const INT_MIN: int32 := -0x8000_0000

  const ONE_GIG: int32 := 0x4000_0000

  function Abs(i: int): nat {
    if i < 0 then -i else i
  }

  /** Conversion of a double to an integer type drops the fraction. */
  function Truncated(r: real): int {
    if r >= 0.0 then r.Floor else -((-r).Floor)
  }

  /** Division as C performs it: the quotient is rounded toward zero. */
  function Quotient(v: int, i: nat): int
    requires i > 0
  {
    if v >= 0 then v / i else -((-v) / i)
  }

  lemma Scaled(a: real, b: real, d: real)
    requires a <= b && d > 0.0
    ensures a * d <= b * d && (a < b ==> a * d < b * d)
  {
  }

  lemma QuotientBetween(v: real, d: real, q: real)
    requires d > 0.0 && q * d <= v < (q + 1.0) * d
    ensures q <= v / d < q + 1.0
  {
    var x := v / d;
    assert x * d == v;
    if x < q {
      Scaled(x, q, d);
    }
    if x >= q + 1.0 {
      Scaled(q + 1.0, x, d);
    }
  }

  lemma RealProduct(a: int, b: int)
    ensures (a as real) * (b as real) == (a * b) as real
  {
  }

  lemma FloorOfQuotient(v: nat, i: nat)
    requires i > 0
    ensures ((v as real) / (i as real)).Floor == v / i
  {
    var q := v / i;
    assert q * i <= v < (q + 1) * i;
    RealProduct(q, i);
    RealProduct(q + 1, i);
    assert (q + 1) as real == q as real + 1.0;
    QuotientBetween(v as real, i as real, q as real);
  }

  /** Splitting off the gigs first rounds no differently. */
  lemma FloorOfGigs(x: real)
    requires x >= 0.0
    ensures (x / (ONE_GIG as real)).Floor == x.Floor / (ONE_GIG as int)
    ensures (x - (x.Floor / (ONE_GIG as int)) as real * (ONE_GIG as real)).Floor == x.Floor % (ONE_GIG as int)
  {
    var n, g := x.Floor, ONE_GIG as int;
    var q, r := n / g, n % g;
    var y := x / (g as real);
    assert y * (g as real) == x && n == q * g + r;
    assert q as real * g as real == (q * g) as real;
    assert q as real <= y < q as real + 1.0;
    assert (x - (q as real) * (g as real)).Floor == r;
  }

  /** A real, split into gigs and units the way the code does. */
  lemma SplitExact(x: real)
    ensures var gigs := Truncated(x / (ONE_GIG as real)); var units := Truncated(x - (gigs as real) * (ONE_GIG as real));
      && gigs * (ONE_GIG as int) + units == Truncated(x)
      && -(ONE_GIG as int) < units < ONE_GIG as int
      && (x >= 0.0 ==> units >= 0) && (x <= 0.0 ==> units <= 0)
  {
    var a := if x >= 0.0 then x else -x;
    FloorOfGigs(a);
    var g := ONE_GIG as real;
    var gigs := a.Floor / (ONE_GIG as int);
    if x < 0.0 {
      assert -(x / g) == a / g;
      assert Truncated(x / g) == -gigs;
      assert -(x - ((-gigs) as real) * g) == a - (gigs as real) * g;
    }
  }

  lemma QuotientTruncates(v: int, i: nat)
    requires i > 0
    ensures Truncated((v as real) / (i as real)) == Quotient(v, i)
  {
    FloorOfQuotient(Abs(v), i);
    if v < 0 {
      assert -((v as real) / (i as real)) == (Abs(v) as real) / (i as real);
    }
  }

  lemma ValueExact(gigs: int, units: int)
    ensures (gigs as real) * (ONE_GIG as real) + (units as real) == (gigs * (ONE_GIG as int) + units) as real
  {
    RealProduct(gigs, ONE_GIG as int);
  }

  /** The product, as computed over doubles, and its gigs and units. */
  lemma ProductSplit(v: int, a: nat, x: real)
    requires x == (v as real) * (a as real)
    ensures var gigs := Truncated(x / (ONE_GIG as real)); var units := Truncated(x - (gigs as real) * (ONE_GIG as real));
      && gigs * (ONE_GIG as int) + units == a * v && -(ONE_GIG as int) < units < ONE_GIG as int
      && (v >= 0 || a == 0 ==> units >= 0)
  {
    RealProduct(v, a);
    SplitExact((v * a) as real);
  }

  lemma QuotientSplit(v: int, a: nat)
    requires a > 0
    ensures var x := (v as real) / (a as real);
      var gigs := Truncated(x / (ONE_GIG as real)); var units := Truncated(x - (gigs as real) * (ONE_GIG as real));
      && gigs * (ONE_GIG as int) + units == Quotient(v, a) && -(ONE_GIG as int) < units < ONE_GIG as int
      && (v >= 0 ==> units >= 0)
  {
    QuotientTruncates(v, a);
    SplitExact((v as real) / (a as real));
  }

  /** At most one gig is carried when units less than a gig are added. */
  lemma GigCarried(gigs: int, units: int, g: int, x: int)
    requires gigs * (ONE_GIG as int) + units == g * (ONE_GIG as int) + x && 0 <= units < ONE_GIG as int && 0 <= x < 2 * (ONE_GIG as int)
    ensures gigs == g + if x >= ONE_GIG as int then 1 else 0
  {
  }

  class Scalar {
    var gigs: int
    var units: int32

    ghost predicate Normal()
      reads this
    {
      0 <= units < ONE_GIG
    }

    function Value(): int
      reads this
    {
      gigs * (ONE_GIG as int) + units as int
    }

    constructor ()
      ensures Normal() && Value() == 0
    {
      gigs, units := 0, 0;
    }

    method Load(i: int32)
      requires i != INT_MIN
      modifies this
      ensures Normal() && Value() == Abs(i as int)
    {
      var a := if i < 0 then 0 - i else i;
      gigs, units := 0, a;
      while units >= ONE_GIG
        invariant units >= 0 && Value() == a as int
      {
        gigs := gigs + 1;
        units := units - ONE_GIG;
      }
    }

    method Increase(i: int32)
      requires Normal() && i != INT_MIN
      modifies this
      ensures Normal() && Value() == old(Value()) + Abs(i as int)
    {
      var a := if i < 0 then 0 - i else i;
      while a >= ONE_GIG
        invariant a >= 0 && Normal() && Value() + a as int == old(Value()) + Abs(i as int)
      {
        a := a - ONE_GIG;
        gigs := gigs + 1;
      }
      units := units + a;
      while units >= ONE_GIG
        invariant units >= 0 && Value() == old(Value()) + Abs(i as int)
      {
        gigs := gigs + 1;
        units := units - ONE_GIG;
      }
    }

    method Reduce(i: int32)
      requires Normal() && i != INT_MIN
      modifies this
      ensures Normal() && Value() == old(Value()) - Abs(i as int)
    {
      var a := if i < 0 then 0 - i else i;
      while a >= ONE_GIG
        invariant a >= 0 && Normal() && Value() - a as int == old(Value()) - Abs(i as int)
      {
        a := a - ONE_GIG;
        gigs := gigs - 1;
      }
      while a > units
        invariant 0 <= a < ONE_GIG && 0 <= units && units - a < ONE_GIG
        invariant Value() - a as int == old(Value()) - Abs(i as int)
        decreases a - units
      {
        units := units + ONE_GIG;
        gigs := gigs - 1;
      }
      units := units - a;
    }

    /** The product is exact; only a negative one can leave units negative. */
    method Multiply(i: int32)
      requires i != INT_MIN
      modifies this
      ensures Value() == Abs(i as int) * old(Value()) && -ONE_GIG < units < ONE_GIG
      ensures old(Value()) >= 0 || i == 0 ==> Normal()
    {
      var a := if i < 0 then 0 - i else i;
      var value := (gigs as real) * (ONE_GIG as real) + (units as real);
      var product := value * (a as real);
      ghost var v := Value();
      ValueExact(gigs, units as int);
      ProductSplit(v, a as int, product);
      gigs := Truncated(product / (ONE_GIG as real));
      units := Truncated(product - (gigs as real) * (ONE_GIG as real)) as int32;
    }

    /** The quotient is rounded toward zero; division by zero is refused. */
    method Divide(i: int32)
      requires i != INT_MIN
      modifies this
      ensures i == 0 ==> gigs == old(gigs) && units == old(units)
      ensures i != 0 ==> Value() == Quotient(old(Value()), Abs(i as int)) && -ONE_GIG < units < ONE_GIG
      ensures i != 0 && old(Value()) >= 0 ==> Normal()
    {
      if i == 0 {
        return;
      }
      var a := if i < 0 then 0 - i else i;
      var value := (gigs as real) * (ONE_GIG as real) + (units as real);
      var quotient := value / (a as real);
      ghost var v := Value();
      ValueExact(gigs, units as int);
      assert value == v as real;
      QuotientSplit(v, a as int);
      gigs := Truncated(quotient / (ONE_GIG as real));
      units := Truncated(quotient - (gigs as real) * (ONE_GIG as real)) as int32;
    }

    method Copy(from: Scalar)
      modifies this
      ensures gigs == old(from.gigs) && units == old(from.units)
    {
      gigs, units := from.gigs, from.units;
    }

    /** The exact sum, except that a scalar added to itself is too big by a gig if its units
        carry: its gigs are read after that. */
    method Add(increment: Scalar)
      requires Normal() && increment.Normal()
      modifies this
      ensures Normal() && increment.Normal()
      ensures Value() == old(Value()) + old(increment.Value())
                         + if increment == this && old(units) >= ONE_GIG / 2 then ONE_GIG as int else 0
    {
      ghost var g, u := gigs, units as int;
      Increase(increment.units);
      GigCarried(gigs, units as int, g, u + old(increment.units) as int);
      gigs := gigs + increment.gigs;
    }

    method Subtract(decrement: Scalar)
      requires Normal() && decrement.Normal()
      modifies this
      ensures Normal() && Value() == old(Value()) - old(decrement.Value())
    {
      Reduce(decrement.units);
      gigs := gigs - decrement.gigs;
    }

    method IsValid() returns (valid: bool)
      requires Normal()
      ensures valid <==> Value() >= 0
    {
      valid := gigs >= 0;
    }
  }
}
