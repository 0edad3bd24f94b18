/** The OfflineBank object: its rate store and its two bookkeeping times, and
    the operations that refresh them. */
module Bank {
  import opened Common
  import opened RateTable
  import opened Sources
  import Conversion

  class OfflineBank {
    /** The rate store, keyed by (from, to) currency pair. */
    var rates: Store
    /** The time stamp the last successful update read from the feed. */
    var ratesUpdatedAt: Option<Instant>
    /** The clock time of the last successful update. */
    var lastUpdated: Option<Instant>

    /** A new bank has no rates and has never been updated. */
    constructor ()
      ensures rates == map[] && ratesUpdatedAt == None && lastUpdated == None
    {
      rates := map[];
      ratesUpdatedAt := None;
      lastUpdated := None;
    }

    /** #update_parsed_rates: write the rate nodes one by one under EUR -> currency,
        then EUR -> EUR := 1, then the two times. The first exception stops it
        where it stands, with the earlier writes kept. `now` is the clock. */
    method UpdateParsedRates(doc: Document, now: Instant) returns (outcome: Outcome<Error>)
      modifies this
      ensures rates == UpdatedTable(old(rates), doc)
      ensures outcome == UpdateOutcome(doc)
      ensures outcome.Pass? ==> ratesUpdatedAt == doc.time && lastUpdated == Some(now)
      ensures outcome.Fail? ==> ratesUpdatedAt == old(ratesUpdatedAt) && lastUpdated == old(lastUpdated)
    {
      if doc.NoNamespaces? {
        return Fail(UndefinedNamespacePrefix);
      }
      var nodes := doc.nodes;
      var i := 0;
      while i < |nodes|
        invariant i <= FirstMalformed(nodes)
        invariant rates == WriteRows(old(rates), nodes[..i])
        invariant ratesUpdatedAt == old(ratesUpdatedAt) && lastUpdated == old(lastUpdated)
      {
        var node := nodes[i];
        FirstMalformedStep(nodes, i);
        if node.rate.None? {
          return Fail(MalformedRate);
        }
        if node.currency.None? {
          return Fail(MissingCurrency);
        }
        WriteRowsSnoc(old(rates), nodes, i);
        rates := rates[(Base, node.currency.value) := node.rate.value];
        i := i + 1;
      }
      assert nodes[..i] == nodes;
      rates := rates[(Base, Base) := 1.0];
      if doc.time.None? {
        return Fail(MissingFeedTime);
      }
      ratesUpdatedAt := doc.time;
      lastUpdated := Some(now);
      outcome := Pass;
    }

    /** #update_rates: read the document #doc chooses, then update from it. */
    method UpdateRates(cache: Option<Path>, files: Files, now: Instant) returns (outcome: Outcome<Error>)
      modifies this
      ensures Doc(cache, files).Failure? ==>
        outcome == Fail(Doc(cache, files).error) && rates == old(rates) &&
        ratesUpdatedAt == old(ratesUpdatedAt) && lastUpdated == old(lastUpdated)
      ensures Doc(cache, files).Success? ==>
        var doc := Doc(cache, files).value;
        && rates == UpdatedTable(old(rates), doc)
        && outcome == UpdateOutcome(doc)
        && (outcome.Pass? ==> ratesUpdatedAt == doc.time && lastUpdated == Some(now))
        && (outcome.Fail? ==> ratesUpdatedAt == old(ratesUpdatedAt) && lastUpdated == old(lastUpdated))
    {
      match Doc(cache, files)
      case Failure(e) =>
        outcome := Fail(e);
      case Success(doc) =>
        outcome := UpdateParsedRates(doc, now);
    }

    /** #update_rates_from_s: update from a document the caller supplies; a
        document without the feed's namespaces fails with no fallback and no change. */
    method UpdateRatesFromString(content: Document, now: Instant) returns (outcome: Outcome<Error>)
      modifies this
      ensures content.NoNamespaces? ==>
        outcome == Fail(UndefinedNamespacePrefix) && rates == old(rates) &&
        ratesUpdatedAt == old(ratesUpdatedAt) && lastUpdated == old(lastUpdated)
      ensures rates == UpdatedTable(old(rates), content)
      ensures outcome == UpdateOutcome(content)
      ensures outcome.Pass? ==> ratesUpdatedAt == content.time && lastUpdated == Some(now)
      ensures outcome.Fail? ==> ratesUpdatedAt == old(ratesUpdatedAt) && lastUpdated == old(lastUpdated)
    {
      outcome := UpdateParsedRates(content, now);
    }
  }

  /** From an empty store, a feed quoting USD 1.1 and JPY 130 lets USD 1.00
      be exchanged into JPY 118. */
  lemma FeedThenExchange(t: Instant, subunit: Conversion.SubunitRatio)
    requires subunit("USD") == 100 && subunit("JPY") == 1
    ensures var doc := RatesDocument([RateNode(Some(1.1), Some("USD")), RateNode(Some(130.0), Some("JPY"))], Some(t));
      && UpdateOutcome(doc) == Pass
      && Conversion.Exchange(UpdatedTable(map[], doc), 100, "USD", "JPY", subunit) ==
         Success(Conversion.Money(118, "JPY"))
  {
    var nodes := [RateNode(Some(1.1), Some("USD")), RateNode(Some(130.0), Some("JPY"))];
    var doc := RatesDocument(nodes, Some(t));
    UpdatePassesExactly(doc);
    var table := UpdatedTable(map[], doc);
    assert nodes[..1] == [nodes[0]];
    assert table == map[(Base, "USD") := 1.1, (Base, "JPY") := 130.0, (Base, Base) := 1.0];
    Conversion.UsdToJpy(subunit);
  }
}
