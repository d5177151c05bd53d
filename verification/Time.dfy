/**
 The time macros of include/ckit/time.h. The timespec and the timeval macros are one text with
 a different number of units to the second, which is a parameter here. Overflow is not modelled.
 */
module Time {
  import opened Basics

  const NSEC_PER_SEC: nat := 1_000_000_000
  const USEC_PER_SEC: nat := 1_000_000

  /** struct timespec (units are nanoseconds) or struct timeval (microseconds). */
  datatype Stamp = Stamp(sec: int, frac: int)

  function Total(t: Stamp, unit: nat): int {
    t.sec * unit + t.frac
  }

  predicate Normal(t: Stamp, unit: nat) {
    0 <= t.frac < unit
  }

  /** Division and remainder of C: the quotient is cut off towards zero. */
  function Quot(a: int, b: int): int
    requires b > 0
  {
    if a >= 0 then a / b else -(-a / b)
  }

  function Rem(a: int, b: int): int
    requires b > 0
  {
    a - Quot(a, b) * b
  }

  lemma RemBounds(a: int, b: int)
    requires b > 0
    ensures -b < Rem(a, b) < b
  {
    if a >= 0 {
      assert a == a / b * b + a % b;
    } else {
      assert -a == -a / b * b + -a % b;
    }
  }

  function Normalize(t: Stamp, unit: nat): Stamp {
    if t.frac >= unit then Stamp(t.sec + 1, t.frac - unit)
    else if t.frac < 0 then Stamp(t.sec - 1, t.frac + unit)
    else t
  }

  /** timespec_add_nsec, timeval_add_usec. */
  function AddFrac(t: Stamp, n: int, unit: nat): Stamp
    requires unit > 0
  {
    Normalize(Stamp(t.sec + Quot(n, unit), t.frac + Rem(n, unit)), unit)
  }

  /** timeval_sub_usec. */
  function SubFrac(t: Stamp, n: int, unit: nat): Stamp
    requires unit > 0
  {
    Normalize(Stamp(t.sec - Quot(n, unit), t.frac - Rem(n, unit)), unit)
  }

  function Add(t: Stamp, u: Stamp, unit: nat): Stamp {
    Normalize(Stamp(t.sec + u.sec, t.frac + u.frac), unit)
  }

  function Sub(t: Stamp, u: Stamp, unit: nat): Stamp {
    Normalize(Stamp(t.sec - u.sec, t.frac - u.frac), unit)
  }

  /** The macros write to their first argument, field by field; the second one may be the same object. */
  class TimeCell {
    var sec: int
    var frac: int

    constructor (value: Stamp)
      ensures Value() == value
    {
      sec, frac := value.sec, value.frac;
    }

    function Value(): Stamp
      reads this
    {
      Stamp(sec, frac)
    }

    /** timespec_normalize, timeval_normalize. */
    method Carry(unit: nat)
      modifies this
      ensures Value() == Normalize(old(Value()), unit)
    {
      if frac >= unit {
        frac := frac - unit;
        sec := sec + 1;
      } else if frac < 0 {
        frac := frac + unit;
        sec := sec - 1;
      }
    }

    /** timespec_add_nsec, timeval_add_usec: exact, whatever the sign of n. */
    method PlusFrac(n: int, unit: nat)
      requires Normal(Value(), unit)
      modifies this
      ensures Normal(Value(), unit) && Total(Value(), unit) == old(Total(Value(), unit)) + n
      ensures Value() == AddFrac(old(Value()), n, unit)
    {
      AddFracExact(Value(), n, unit);
      sec := sec + Quot(n, unit);
      frac := frac + Rem(n, unit);
      Carry(unit);
    }

    /** timeval_sub_usec. */
    method MinusFrac(n: int, unit: nat)
      requires Normal(Value(), unit)
      modifies this
      ensures Normal(Value(), unit) && Total(Value(), unit) == old(Total(Value(), unit)) - n
    {
      AddFracExact(Value(), n, unit);
      sec := sec - Quot(n, unit);
      frac := frac - Rem(n, unit);
      Carry(unit);
    }

    /** timespec_add, timeval_add. */
    method Plus(u: TimeCell, unit: nat)
      requires Normal(Value(), unit) && Normal(u.Value(), unit)
      modifies this
      ensures Normal(Value(), unit) && Total(Value(), unit) == old(Total(Value(), unit) + Total(u.Value(), unit))
      ensures Value() == Add(old(Value()), old(u.Value()), unit)
    {
      AddSubExact(Value(), u.Value(), unit);
      frac := frac + u.frac;
      sec := sec + u.sec;
      Carry(unit);
    }

    /** timespec_sub, timeval_sub. */
    method Minus(u: TimeCell, unit: nat)
      requires Normal(Value(), unit) && Normal(u.Value(), unit)
      modifies this
      ensures Normal(Value(), unit) && Total(Value(), unit) == old(Total(Value(), unit) - Total(u.Value(), unit))
      ensures Value() == Sub(old(Value()), old(u.Value()), unit)
    {
      AddSubExact(Value(), u.Value(), unit);
      frac := frac - u.frac;
      sec := sec - u.sec;
      Carry(unit);
    }
  }

  predicate Nz(t: Stamp) { t.sec != 0 || t.frac != 0 }

  predicate Lt(t: Stamp, u: Stamp) { t.sec < u.sec || (t.sec == u.sec && t.frac < u.frac) }

  predicate Gt(t: Stamp, u: Stamp) { Lt(u, t) }

  predicate Ge(t: Stamp, u: Stamp) { !Lt(t, u) }

  predicate Le(t: Stamp, u: Stamp) { !Gt(t, u) }

  predicate Eq(t: Stamp, u: Stamp) { t.sec == u.sec && t.frac == u.frac }

  /** One carry keeps the value, and is enough exactly from one unit below zero to one beyond a second. */
  lemma NormalizeExact(t: Stamp, unit: nat)
    ensures Total(Normalize(t, unit), unit) == Total(t, unit)
    ensures Normal(Normalize(t, unit), unit) <==> 0 <= t.frac + unit && t.frac < 2 * unit && unit > 0
  {
    Distribute(t.sec, 1, unit);
  }

  /** Every operation computes exactly on total units, and leaves a normal result. */
  lemma AddFracExact(t: Stamp, n: int, unit: nat)
    requires Normal(t, unit)
    ensures Normal(AddFrac(t, n, unit), unit) && Total(AddFrac(t, n, unit), unit) == Total(t, unit) + n
    ensures Normal(SubFrac(t, n, unit), unit) && Total(SubFrac(t, n, unit), unit) == Total(t, unit) - n
  {
    var q, r := Quot(n, unit), Rem(n, unit);
    RemBounds(n, unit);
    NormalizeExact(Stamp(t.sec + q, t.frac + r), unit);
    NormalizeExact(Stamp(t.sec - q, t.frac - r), unit);
    Distribute(t.sec, q, unit);
  }

  lemma AddSubExact(t: Stamp, u: Stamp, unit: nat)
    requires Normal(t, unit) && Normal(u, unit)
    ensures Normal(Add(t, u, unit), unit) && Total(Add(t, u, unit), unit) == Total(t, unit) + Total(u, unit)
    ensures Normal(Sub(t, u, unit), unit) && Total(Sub(t, u, unit), unit) == Total(t, unit) - Total(u, unit)
  {
    NormalizeExact(Stamp(t.sec + u.sec, t.frac + u.frac), unit);
    NormalizeExact(Stamp(t.sec - u.sec, t.frac - u.frac), unit);
    Distribute(t.sec, u.sec, unit);
  }

  /** On normal stamps the comparison macros compare total units. */
  lemma LtIsOrder(t: Stamp, u: Stamp, unit: nat)
    requires Normal(t, unit) && Normal(u, unit)
    ensures Lt(t, u) <==> Total(t, unit) < Total(u, unit)
    ensures Le(t, u) <==> Total(t, unit) <= Total(u, unit)
    ensures Gt(t, u) <==> Total(t, unit) > Total(u, unit)
    ensures Ge(t, u) <==> Total(t, unit) >= Total(u, unit)
    ensures Eq(t, u) <==> Total(t, unit) == Total(u, unit)
    ensures t.sec < 0 <==> Total(t, unit) < 0
    ensures Nz(t) <==> Total(t, unit) != 0
  {
    Apart(t.sec, u.sec, unit);
    Apart(u.sec, t.sec, unit);
    Apart(t.sec, 0, unit);
    Apart(0, t.sec, unit);
  }

  lemma Apart(a: int, b: int, unit: nat)
    ensures a < b ==> a * unit + unit <= b * unit
  {
    if a < b {
      Distribute(a, b - a, unit);
      Distribute(1, b - a - 1, unit);
      NotNegative(b - a - 1, unit);
    }
  }
}
