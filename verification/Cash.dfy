/** Cash amounts in a currency (src/common/src/common/cash.cpp). */
module Cash {
  import opened Options

  /** Unknown stands for the absence of a currency; any other currency is named by its code. */
  datatype Currency = Unknown | Known(code: string)

  datatype Amount = Amount(currency: Currency, units: int)

  /** The currency of two amounts taken together, unless both have one and they differ. */
  function Reconcile(a: Currency, b: Currency): Option<Currency> {
    if b == Unknown then Some(a)
    else if a == Unknown then Some(b)
    else if a != b then None
    else Some(a)
  }

  function Plus(a: Amount, b: Amount): Option<Amount> {
    match Reconcile(a.currency, b.currency)
    case None => None
    case Some(c) => Some(Amount(c, a.units + b.units))
  }

  /** A cash object, updated in place. None-results stand for the mismatch exception. */
  class CashCell {
    var currency: Currency
    var units: int

    constructor (currency: Currency, units: int)
      ensures this.currency == currency && this.units == units
    {
      this.currency := currency;
      this.units := units;
    }

    function Contents(): Amount
      reads this
    {
      Amount(currency, units)
    }

    /** Adopt the other amount's currency where this one has none; refuse a different one. */
    method TakeCurrency(other: Amount) returns (ok: bool)
      modifies this`currency
      ensures ok <==> Reconcile(old(currency), other.currency).Some?
      ensures currency == if ok then Reconcile(old(currency), other.currency).value else old(currency)
    {
      if other.currency == Unknown {
        return true;
      }
      if currency == Unknown {
        currency := other.currency;
        return true;
      }
      return currency == other.currency;
    }

    method AddAssign(other: Amount) returns (ok: bool)
      modifies this
      ensures ok <==> Plus(old(Contents()), other).Some?
      ensures Contents() == if ok then Plus(old(Contents()), other).value else old(Contents())
    {
      ok := TakeCurrency(other);
      if ok {
        units := units + other.units;
      }
    }
  }

  /** Add a row of amounts to a first one, from left to right, stopping at the first mismatch. */
  function Total(start: Amount, rest: seq<Amount>): Option<Amount>
    decreases rest
  {
    if rest == [] then Some(start)
    else
      match Plus(start, rest[0])
      case None => None
      case Some(next) => Total(next, rest[1..])
  }

  function Units(cs: seq<Amount>): int {
    if cs == [] then 0 else cs[0].units + Units(cs[1..])
  }

  /** All currencies present are the same one. */
  predicate OneCurrency(cs: seq<Amount>, c: Currency) {
    forall a :: a in cs ==> a.currency == Unknown || a.currency == c
  }

  /**
   * A running total fails exactly when two of the amounts have different currencies, wherever
   * they stand and whatever else is added in between; otherwise it is the sum of the units.
   */
  lemma {:induction false} TotalFailsExactlyWhen(start: Amount, rest: seq<Amount>)
    ensures Total(start, rest).None?
       <==> Conflict([start] + rest)
    ensures Total(start, rest).Some? ==>
      && Total(start, rest).value.units == start.units + Units(rest)
      && forall a :: a in [start] + rest ==>
           a.currency == Unknown || a.currency == Total(start, rest).value.currency
    decreases rest
  {
    if rest == [] {
    } else if Plus(start, rest[0]).None? {
      assert start in [start] + rest && rest[0] in [start] + rest;
    } else {
      var next := Plus(start, rest[0]).value;
      TotalFailsExactlyWhen(next, rest[1..]);
    }
  }

  /** Two currencies, both present and not the same. */
  predicate Differ(a: Currency, b: Currency) {
    a.Known? && b.Known? && a.code != b.code
  }

  /** Two of the amounts have different currencies. */
  ghost predicate Conflict(cs: seq<Amount>) {
    exists a, b :: a in cs && b in cs && Differ(a.currency, b.currency)
  }
}
