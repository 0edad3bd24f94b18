/** The conversion arithmetic of OfflineBank#exchange and #exchange_with:
    choice of the rate (direct, or triangulated through EUR), subunit
    rescaling, and one final rounding. */
module Conversion {
  import opened Common
  import opened Rounding

  /** An amount in minor units (cents) of a currency. */
  datatype Money = Money(cents: int, currency: Currency)

  /** The currency registry's number of minor units per major unit. */
  type SubunitRatio = Currency -> nat

  /** The rate applied to go from `from` to `to`: the stored direct rate if
      there is one; otherwise EUR -> to divided by EUR -> from, both read from
      the same store. */
  function CrossRate(store: Store, from: Currency, to: Currency): (r: Result<real, Error>)
    ensures (from, to) in store ==> r == Success(store[(from, to)])
    ensures (from, to) !in store && (Base, to) !in store ==> r == Failure(MissingBaseRate(to))
    ensures (from, to) !in store && (Base, to) in store && (Base, from) !in store ==>
      r == Failure(MissingBaseRate(from))
    ensures (from, to) !in store && (Base, to) in store && (Base, from) in store ==>
      if store[(Base, from)] == 0.0 then r == Failure(ZeroBaseRate(from))
      else r.Success? && r.value * store[(Base, from)] == store[(Base, to)]
  {
    if (from, to) in store then Success(store[(from, to)])
    else if (Base, to) !in store then Failure(MissingBaseRate(to))
    else if (Base, from) !in store then Failure(MissingBaseRate(from))
    else if store[(Base, from)] == 0.0 then Failure(ZeroBaseRate(from))
    else Success(store[(Base, to)] / store[(Base, from)])
  }

  /** The exact converted amount before rounding: cents rescaled by the ratio
      of the two currencies' subunits and multiplied by the rate. */
  function ExactAmount(cents: int, fromSubunit: nat, toSubunit: nat, rate: real): (x: real)
    requires fromSubunit > 0
    ensures x * fromSubunit as real == toSubunit as real * cents as real * rate
    ensures fromSubunit == toSubunit ==> x == cents as real * rate
  {
    (toSubunit as real / fromSubunit as real) * cents as real * rate
  }

  function ExchangeWith(store: Store, from: Money, to: Currency, subunit: SubunitRatio): (r: Result<Money, Error>)
    requires subunit(from.currency) > 0
    ensures r.Success? <==> CrossRate(store, from.currency, to).Success?
    ensures r.Failure? ==> r.error == CrossRate(store, from.currency, to).error
    ensures r.Success? ==> r.value.currency == to && IsHalfAwayRounding(
      ExactAmount(from.cents, subunit(from.currency), subunit(to), CrossRate(store, from.currency, to).value),
      r.value.cents)
  {
    match CrossRate(store, from.currency, to)
    case Failure(e) => Failure(e)
    case Success(rate) =>
      Success(Money(RoundHalfAway(ExactAmount(from.cents, subunit(from.currency), subunit(to), rate)), to))
  }

  function Exchange(store: Store, cents: int, from: Currency, to: Currency, subunit: SubunitRatio): (r: Result<Money, Error>)
    requires subunit(from) > 0
    ensures r.Success? <==> CrossRate(store, from, to).Success?
    ensures r.Failure? ==> r.error == CrossRate(store, from, to).error
    ensures r.Success? ==> r.value.currency == to && IsHalfAwayRounding(
      ExactAmount(cents, subunit(from), subunit(to), CrossRate(store, from, to).value), r.value.cents)
  {
    ExchangeWith(store, Money(cents, from), to, subunit)
  }

  /** Converting into the same currency through EUR gives back the amount. */
  lemma ExchangeIdentity(store: Store, cents: int, x: Currency, subunit: SubunitRatio)
    requires subunit(x) > 0
    requires (x, x) !in store && (Base, x) in store && store[(Base, x)] != 0.0
    ensures Exchange(store, cents, x, x, subunit) == Success(Money(cents, x))
  {
    var rate := CrossRate(store, x, x).value;
    assert rate == 1.0;
    assert ExactAmount(cents, subunit(x), subunit(x), rate) == cents as real;
    RoundWhole(cents);
  }

  /** A stored direct rate of 1 for x -> x gives back the amount too (this is
      the case of EUR after an update). */
  lemma ExchangeIdentityDirect(store: Store, cents: int, x: Currency, subunit: SubunitRatio)
    requires subunit(x) > 0
    requires (x, x) in store && store[(x, x)] == 1.0
    ensures Exchange(store, cents, x, x, subunit) == Success(Money(cents, x))
  {
    assert ExactAmount(cents, subunit(x), subunit(x), 1.0) == cents as real;
    RoundWhole(cents);
  }

  /** From EUR the stored rate is used as it stands, rescaled and rounded once. */
  lemma ExchangeFromBase(store: Store, cents: int, x: Currency, subunit: SubunitRatio)
    requires subunit(Base) > 0 && (Base, x) in store
    ensures Exchange(store, cents, Base, x, subunit) ==
      Success(Money(RoundHalfAway(ExactAmount(cents, subunit(Base), subunit(x), store[(Base, x)])), x))
  {
  }

  /** Triangulated rates in the two directions are reciprocal. */
  lemma CrossRatesReciprocal(store: Store, x: Currency, y: Currency)
    requires (x, y) !in store && (y, x) !in store
    requires (Base, x) in store && (Base, y) in store
    requires store[(Base, x)] != 0.0 && store[(Base, y)] != 0.0
    ensures CrossRate(store, x, y).Success? && CrossRate(store, y, x).Success?
    ensures CrossRate(store, x, y).value * CrossRate(store, y, x).value == 1.0
  {
    var a, b := store[(Base, x)], store[(Base, y)];
    assert CrossRate(store, x, y).value == b / a;
    assert CrossRate(store, y, x).value == a / b;
  }

  /** Triangulated rates compose: x -> y then y -> z is x -> z. */
  lemma CrossRatesCompose(store: Store, x: Currency, y: Currency, z: Currency)
    requires (x, y) !in store && (y, z) !in store && (x, z) !in store
    requires (Base, x) in store && (Base, y) in store && (Base, z) in store
    requires store[(Base, x)] != 0.0 && store[(Base, y)] != 0.0
    ensures CrossRate(store, x, y).Success? && CrossRate(store, y, z).Success? && CrossRate(store, x, z).Success?
    ensures CrossRate(store, x, y).value * CrossRate(store, y, z).value == CrossRate(store, x, z).value
  {
    var a, b, c := store[(Base, x)], store[(Base, y)], store[(Base, z)];
    assert CrossRate(store, x, y).value == b / a;
    assert CrossRate(store, y, z).value == c / b;
    assert CrossRate(store, x, z).value == c / a;
  }

  /** With EUR 1 = USD 1.1 = JPY 130, USD 1.00 is JPY 118 (118.18... rounded). */
  lemma UsdToJpy(subunit: SubunitRatio)
    requires subunit("USD") == 100 && subunit("JPY") == 1
    ensures Exchange(map[(Base, Base) := 1.0, (Base, "USD") := 1.1, (Base, "JPY") := 130.0],
                     100, "USD", "JPY", subunit) == Success(Money(118, "JPY"))
  {
    var store := map[(Base, Base) := 1.0, (Base, "USD") := 1.1, (Base, "JPY") := 130.0];
    assert ("USD", "JPY") !in store;
    var rate := CrossRate(store, "USD", "JPY").value;
    assert rate == 1300.0 / 11.0;
    assert ExactAmount(100, 100, 1, rate) == 1300.0 / 11.0;
    RoundHalfAwayIsOnlyRounding(1300.0 / 11.0, 118);
  }

  /** Converting there and back need not return the amount, not even within one
      minor unit: with EUR 1 = USD 1.1 = KRW 1500, 7 won become 1 US cent
      (0.513... rounded), and 1 US cent becomes 14 won (13.63... rounded). */
  lemma RoundTripDrifts(subunit: SubunitRatio)
    requires subunit("USD") == 100 && subunit("KRW") == 1
    ensures var store := map[(Base, "USD") := 1.1, (Base, "KRW") := 1500.0];
      && Exchange(store, 7, "KRW", "USD", subunit) == Success(Money(1, "USD"))
      && Exchange(store, 1, "USD", "KRW", subunit) == Success(Money(14, "KRW"))
  {
    var store := map[(Base, "USD") := 1.1, (Base, "KRW") := 1500.0];
    assert ("KRW", "USD") !in store && ("USD", "KRW") !in store;
    var there := CrossRate(store, "KRW", "USD").value;
    assert there == 11.0 / 15000.0;
    assert ExactAmount(7, 1, 100, there) == 77.0 / 150.0;
    RoundHalfAwayIsOnlyRounding(77.0 / 150.0, 1);
    var back := CrossRate(store, "USD", "KRW").value;
    assert back == 15000.0 / 11.0;
    assert ExactAmount(1, 100, 1, back) == 150.0 / 11.0;
    RoundHalfAwayIsOnlyRounding(150.0 / 11.0, 14);
  }
}
