# OfflineBank, modelled in Dafny

`OfflineBank` is a `Money` bank that keeps exchange rates quoted against EUR.
It refreshes them from an XML document in the European Central Bank's rates
format: a file or URL (by default the bundled copy `./lib/offline_rates`) or a
string. It converts amounts between currencies
through those rates. This project models the bank's core and proves its properties:

- **Rate-table update** (`update_parsed_rates`): a loop that writes each rate node of
  the feed into the rate store under EUR -> currency, in feed order. Then it writes
  EUR -> EUR := 1, then the feed time and the clock time. The first node that cannot
  be read raises and stops the loop where it stands: earlier writes stay, EUR -> EUR is
  not reset and neither time changes. A missing feed time raises after all the table
  writes. The bank is the class `Bank.OfflineBank`. Its store is a `map` field
  that the method `UpdateParsedRates` changes. That method is proved against the
  specification functions `RateTable.UpdatedTable` and `RateTable.UpdateOutcome`,
  and the lemmas of `RateTable` are proved about those functions.
- **Conversion** (`exchange`, `exchange_with`): if a direct rate is stored, it is used.
  Otherwise the rate is EUR -> to divided by EUR -> from, both read from the same
  store. The amount in minor units is rescaled by the ratio of the two currencies'
  subunits, multiplied by the rate and rounded once, half away from zero. This
  is BigDecimal's default rounding mode.
- **Source choice** (`doc`) and the **save guard** (`save_rates`). `doc` reads the
  cache argument, or the bundled `./lib/offline_rates` when the argument is nil or
  false. It falls back to the bundled copy only when the rate query raises an
  XPath syntax error. `save_rates` raises `InvalidCache` for a nil or false cache
  before it touches anything.

Modules: `Common` (wrappers, currency codes, the store type, errors), `Rounding`,
`RateTable`, `Conversion`, `Sources` and `Bank`.

The following are abstract values in the model:

- Rates and amounts are exact `real`s. BigDecimal is an exact decimal type, not
  binary floating point.
- What the XML parser makes of a source is a `Document`. A document is either
  `NoNamespaces`, on which the rate query raises, or an ordered list of rate nodes
  plus an optional feed time.
- The file system and the network are a map from a location to its document.
- The clock is a parameter.
- The currency registry's subunit ratio is a function parameter.

Behaviour of the code that the model keeps:

- The update writes row by row. A failure keeps the rows written before it.
- `doc` falls back to the bundled copy only on `Nokogiri::XML::XPath::SyntaxError`. A source that cannot be opened raises.
- A missing EUR rate, or a zero EUR rate for the source currency, raises whatever Ruby raises there. The model calls these `MissingBaseRate` and `ZeroBaseRate`.
- A conversion there and back can be off by more than one minor unit. With EUR 1 = USD 1.1 = KRW 1500, 7 won become 1 US cent and 1 US cent becomes 14 won (`Conversion.RoundTripDrifts`).

## Model

| member | source | states |
|---|---|---|
| Rounding.RoundHalfAway | lib/offline_bank.rb:50 | the result is the integer nearest the exact amount; a tie goes away from zero |
| Rounding.HalfAwayRoundingIsUnique | lib/offline_bank.rb:50 | at most one integer satisfies the half-away rounding characterisation |
| Rounding.RoundHalfAwayIsOnlyRounding | lib/offline_bank.rb:50 | any integer meeting the characterisation is the rounded value |
| Rounding.RoundWhole | lib/offline_bank.rb:50 | a whole amount is left unchanged by the final rounding |
| Rounding.RoundSymmetric | lib/offline_bank.rb:50 | rounding of -x is the negation of rounding of x |
| RateTable.FirstMalformed | lib/offline_bank.rb:70-72 | finds the first node whose rate or currency cannot be read; every node before it reads |
| RateTable.FirstMalformedStep | lib/offline_bank.rb:70-72 | while no node has failed, node i reads exactly when the first failure lies beyond it |
| RateTable.WriteRows | lib/offline_bank.rb:70-74 | writing the nodes adds exactly the keys EUR -> currency of those nodes; every other stored pair keeps its rate |
| RateTable.UpdatedTable | lib/offline_bank.rb:69-76 | the store after one update never loses a pair; a document without the namespaces leaves it as it was; a complete update leaves EUR -> EUR at 1 |
| RateTable.UpdateOutcome | lib/offline_bank.rb:67-79 | an update raises only the query error, a rate error, a currency error or the missing-time error; the missing-time error comes only after every node was read |
| RateTable.WriteRowsSnoc | lib/offline_bank.rb:70-74 | one more loop iteration is one more store write, under EUR -> that node's currency |
| RateTable.WriteRowsLastWins | lib/offline_bank.rb:70-74 | a currency's stored rate is the rate of its last node in feed order |
| RateTable.WriteRowsForgetsOldValue | lib/offline_bank.rb:70-74 | a written key's final rate does not depend on what the store held before |
| RateTable.WriteRowsIdempotent | lib/offline_bank.rb:70-74 | writing the same nodes twice gives the same store as writing them once |
| RateTable.UpdatePassesExactly | lib/offline_bank.rb:67-81 | an update succeeds iff the query finds the envelope, every node reads and the feed time reads |
| RateTable.UpdateStoresLastRate | lib/offline_bank.rb:70-75 | every node read before the update stopped is stored under EUR -> currency, last write winning; on a complete update EUR is the exception |
| RateTable.UpdateForcesBaseRate | lib/offline_bank.rb:75 | after all nodes were written, EUR -> EUR is exactly 1, even if the feed listed EUR |
| RateTable.UpdateLeavesOtherPairs | lib/offline_bank.rb:69-76 | a pair that no read node names keeps its presence and rate; EUR -> EUR does too when the update stopped early |
| RateTable.UpdateWritesOnlyBaseKeys | lib/offline_bank.rb:69-76 | pairs whose source currency is not EUR are never added, removed or changed |
| RateTable.MalformedNodeStopsUpdate | lib/offline_bank.rb:70-75 | a node that cannot be read leaves exactly the earlier writes, and raises the rate error before the currency error |
| RateTable.MalformedNodeKeepsBaseRate | lib/offline_bank.rb:70-75 | an update stopped by such a node does not reset EUR -> EUR, unless a node read before it named EUR |
| RateTable.MissingTimeFailsAfterWrites | lib/offline_bank.rb:75-79 | without a feed time the update fails, and it leaves the same table as the same feed with a time |
| RateTable.UpdatedTableIdempotent | lib/offline_bank.rb:66-82 | applying the same document twice leaves the same table as applying it once |
| RateTable.CompleteWriteIdempotent | lib/offline_bank.rb:69-76 | a complete update that is repeated, EUR -> EUR included, changes nothing |
| Conversion.CrossRate | lib/offline_bank.rb:41-48 | uses the direct rate when stored; otherwise the rate r satisfies r * (EUR->from) == EUR->to; the missing-rate and zero-rate errors are named in Ruby's order |
| Conversion.ExactAmount | lib/offline_bank.rb:50 | the exact amount times the source subunit equals the target subunit times cents times rate; with equal subunits it is cents times rate |
| Conversion.ExchangeWith | lib/offline_bank.rb:40-51 | succeeds iff a rate exists; the result is in the target currency and is the half-away rounding of subunit ratio * cents * rate |
| Conversion.Exchange | lib/offline_bank.rb:36-38 | exchanging an amount of cents succeeds iff a rate exists and otherwise raises the rate's error; the result is in the target currency and is the half-away rounding of subunit ratio * cents * rate |
| Conversion.ExchangeIdentity | lib/offline_bank.rb:41-50 | with no direct X -> X rate and a nonzero EUR -> X rate, exchanging X to X returns the amount exactly |
| Conversion.ExchangeIdentityDirect | lib/offline_bank.rb:41-50 | a stored X -> X rate of 1 (EUR after an update) returns the amount exactly |
| Conversion.ExchangeFromBase | lib/offline_bank.rb:41-50 | exchanging from EUR uses the stored EUR rate, rescaled and rounded once |
| Conversion.CrossRatesReciprocal | lib/offline_bank.rb:43-48 | triangulated rates x -> y and y -> x multiply to 1 |
| Conversion.CrossRatesCompose | lib/offline_bank.rb:43-48 | triangulated rates compose: x -> y times y -> z is x -> z |
| Conversion.UsdToJpy | lib/offline_bank.rb:40-51 | with EUR 1 = USD 1.1 = JPY 130, 100 US cents exchange to 118 yen |
| Conversion.RoundTripDrifts | lib/offline_bank.rb:40-51 | 7 KRW exchange to 1 US cent and 1 US cent exchanges to 14 KRW, so a round trip is not within one minor unit |
| Sources.SourceOf | lib/offline_bank.rb:56 | the source is the cache argument, or the bundled copy when the argument is nil or false |
| Sources.Doc | lib/offline_bank.rb:55-60 | reads the cache argument, or the bundled copy for nil; falls back to the bundled copy only on the query's syntax error; open failures propagate |
| Sources.NilCacheReadsBundledCache | lib/offline_bank.rb:56 | with a nil cache only the bundled copy is ever read |
| Sources.SaveRates | lib/offline_bank.rb:20-26 | a nil cache raises InvalidCache with nothing written; otherwise only the cache location is overwritten, and an interrupted download raises |
| Sources.SaveThenDocReadsDownload | lib/offline_bank.rb:20-26 | after a completed save, doc on that cache reads the downloaded feed |
| Sources.EmptySaveFallsBack | lib/offline_bank.rb:22-24 | a save cut off before any byte leaves an empty file, so doc on it falls back to the bundled copy |
| Bank.OfflineBank.constructor | lib/offline_bank.rb:8-11 | a new bank has an empty store and no update times |
| Bank.OfflineBank.UpdateParsedRates | lib/offline_bank.rb:66-82 | the store becomes UpdatedTable of the old store; the outcome is UpdateOutcome; both times are set only on success, to the feed time and the clock |
| Bank.OfflineBank.UpdateRates | lib/offline_bank.rb:16-18 | an open failure changes nothing; otherwise the update from the document doc chose |
| Bank.OfflineBank.UpdateRatesFromString | lib/offline_bank.rb:28-30 | the update from the caller's document, with no fallback: a document without the namespaces fails and changes nothing |
| Bank.FeedThenExchange | lib/offline_bank.rb:66-82 | from an empty store, a feed quoting USD 1.1 and JPY 130 succeeds and then 100 US cents exchange to 118 yen |

## Left out

- XML parsing (Nokogiri) is a foreign library. Its result is the `Document` value. An XPath syntax error is `NoNamespaces`, and a node that cannot be read has a `None` field.
- Opening files and URLs, the line copying in `save_rates`, and `save_rates_to_s` are I/O. A source is a map entry, and an absent entry is one that cannot be opened.
- A failure of `File.open(cache, "w")` itself is not modelled. `SaveRates` assumes that the cache location can be written.
- `ECB_RATES_URL` is used at lib/offline_bank.rb:23 but is defined neither in the class nor in `Money::Bank::VariableExchange`. Unless the host program defines a top-level constant of that name, `save_rates` truncates the cache file at line 22 and then raises `NameError` at line 23. That is `Download.Interrupted(NoNamespaces)` in the model (`Sources.EmptySaveFallsBack`). The download itself is not modelled; `Download.Completed` is reachable only when the host defines the constant.
- The mutex (`@mutex.synchronize`, `:without_mutex`) is not modelled. Each synchronized block is one atomic method or function, and the two base rates of a triangulation are read from one store value.
- The money gem's internals are not modelled. This covers `Money.new`, `Currency.wrap` and `subunit_to_unit`. The store is keyed by the pair of codes as given, so the gem's upper-casing of keys is not modelled. Nor is its `UnknownCurrency` error for a code outside its registry.
- `Time.parse` and `Time.now` are an optional feed time and a clock parameter.
- BigDecimal's finite precision in division is not modelled. Rates and subunit ratios are divided exactly.
- `Conversion.CrossRate`: a zero EUR -> from rate is the error `ZeroBaseRate`. Whether BigDecimal raises on the division or yields an infinity that `round` then rejects, the exchange raises.
- The `CURRENCIES` list is configuration data and plays no part in the logic.
