/** The two mutable objects every operation works on: the caller's context and the bcdnum that
    carries a coefficient to its final rounding. */
module Context {
  import opened Digits
  import opened Rounding

  /** A finite number the format holds, or a special value. */
  ghost predicate IsNumber(f: Format, x: Number) {
    x.Finite? ==> Holds(f, x)
  }

  predicate IsZero(x: Number) {
    x.Finite? && x.coeff == 0
  }

  /** The sign of a number; a NaN's is of no account. */
  predicate SignOf(x: Number) {
    !x.NaN? && x.neg
  }

  /** Only a signalling NaN raises anything. */
  function NaNRaises(l: Number, r: Number): set<Condition> {
    if l == NaN(true) || r == NaN(true) then {InvalidOperation} else {}
  }

  /** Invalid operation if either operand signals, and nothing for quiet NaNs. */
  lemma QuietRaisesNothing(l: Number, r: Number)
    ensures InvalidOperation in NaNRaises(l, r) <==> (l.NaN? && l.signalling) || (r.NaN? && r.signalling)
    ensures NaNRaises(l, r) <= {InvalidOperation}
  {}

  /** decNaNs, without payloads: the result is quiet. */
  method PropagateNaN(l: Number, r: Number, ctx: DecContext) returns (df: Number)
    requires l.NaN? || r.NaN?
    modifies ctx`status
    ensures df == NaN(false) && ctx.status == old(ctx.status) + NaNRaises(l, r)
  {
    if l == NaN(true) || r == NaN(true) {
      ctx.Raise({InvalidOperation});
    }
    df := NaN(false);
  }

  class DecContext {
    var round: Mode
    var status: set<Condition>

    constructor (round: Mode)
      ensures this.round == round && status == {}
    {
      this.round := round;
      status := {};
    }

    method Raise(raised: set<Condition>)
      modifies this`status
      ensures status == old(status) + raised
    {
      status := status + raised;
    }
  }

  /** A finite number whose coefficient is the digits buf[msd..lsd], lsd included. */
  class BcdNum {
    var buf: array<nat>
    var msd: nat
    var lsd: nat
    var neg: bool
    var exponent: int

    ghost predicate Valid()
      reads this, buf
    {
      msd <= lsd < buf.Length && AreDigits(buf[msd..lsd + 1])
    }

    ghost function Coefficient(): nat
      requires Valid()
      reads this, buf
    {
      Val(buf[msd..lsd + 1])
    }

    constructor (buf: array<nat>, msd: nat, lsd: nat, neg: bool, exponent: int)
      requires msd <= lsd < buf.Length && AreDigits(buf[msd..lsd + 1])
      ensures Valid() && this.buf == buf && this.msd == msd && this.lsd == lsd
      ensures this.neg == neg && this.exponent == exponent
    {
      this.buf, this.msd, this.lsd, this.neg, this.exponent := buf, msd, lsd, neg, exponent;
    }
  }
}
