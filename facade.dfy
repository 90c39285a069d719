/**
 * The two façade calls that do more than map fields: `send` converts the
 * amount to raw before building the request, and `account_balance` converts
 * the raw balance the node reports into the caller's unit. Both default the
 * unit to "raw".
 */
module Facade {
  import opened Wrappers
  import opened Units

  const Raw := "raw"

  /** The raw amount placed in a `send` request. */
  function SendAmount(amount: Decimal, unit: Option<string>, round: Rounder): int
  {
    Unit(amount, unit.GetOr(Raw), Raw, round)
  }

  /** The balance `account_balance` returns for the node's raw balance. */
  function AccountBalance(rawBalance: int, unit: Option<string>, round: Rounder): int
  {
    Unit(Decimal(rawBalance, 0), Raw, unit.GetOr(Raw), round)
  }

  /** With no unit given, a whole amount is sent as is and a balance is returned as is. */
  lemma DefaultUnitIsRaw(v: int, round: Rounder)
    ensures SendAmount(Decimal(v, 0), None, round) == v
    ensures AccountBalance(v, None, round) == v
  {
    UnitIdentity(v, Raw, round);
  }

  /** Sending a whole number of a unit sends `v · 10^e` raw. */
  lemma SendScales(v: int, unit: string, round: Rounder)
    ensures SendAmount(Decimal(v, 0), Some(unit), round) == v * Pow10(Exponent(unit))
  {
    ToRawExact(v, unit, round);
  }

  /** Reading a balance in a unit and sending that many of the unit sends the balance back, when it divides evenly. */
  lemma BalanceSendRoundTrip(rawBalance: int, unit: string, round: Rounder)
    requires Admissible(round)
    requires rawBalance % Pow10(Exponent(unit)) == 0
    ensures SendAmount(Decimal(AccountBalance(rawBalance, Some(unit), round), 0), Some(unit), round) == rawBalance
  {
    assert Exponent(unit) - Exponent(Raw) == Exponent(unit);
    RoundTrip(rawBalance, Raw, unit, round);
  }
}
