/** The rate-table update of OfflineBank#update_parsed_rates as a
    specification: the parsed feed, the fold of its rows into the store, and
    what the store and the outcome are after one update. */
module RateTable {
  import opened Common

  /** One rate node of the feed. A rate that is absent or not a decimal, or an
      absent currency attribute, is None: reading it raises. */
  datatype RateNode = RateNode(rate: Option<real>, currency: Option<Currency>) {
    predicate WellFormed() {
      rate.Some? && currency.Some?
    }
  }

  /** What the XML parser makes of a rates source. NoNamespaces is a document
      on which the rate query raises an XPath syntax error (the feed's
      namespace prefixes are undeclared, e.g. an empty or non-XML source). */
  datatype Document =
    | NoNamespaces
    | RatesDocument(nodes: seq<RateNode>, time: Option<Instant>)

  predicate AllWellFormed(nodes: seq<RateNode>) {
    forall i | 0 <= i < |nodes| :: nodes[i].WellFormed()
  }

  /** The store key a well-formed node is written under. */
  function KeyOf(node: RateNode): (Currency, Currency)
    requires node.WellFormed()
  {
    (Base, node.currency.value)
  }

  /** The keys that writing the given nodes touches. */
  function WrittenKeys(nodes: seq<RateNode>): set<(Currency, Currency)>
    requires AllWellFormed(nodes)
  {
    set i | 0 <= i < |nodes| :: KeyOf(nodes[i])
  }

  /** The position of the first node whose reading raises, or |nodes|. */
  function FirstMalformed(nodes: seq<RateNode>): (k: nat)
    ensures k <= |nodes|
    ensures AllWellFormed(nodes[..k])
    ensures k < |nodes| ==> !nodes[k].WellFormed()
  {
    if nodes == [] || !nodes[0].WellFormed() then 0
    else
      var k := 1 + FirstMalformed(nodes[1..]);
      assert nodes[..k] == [nodes[0]] + nodes[1..][..k - 1];
      k
  }

  /** Writes the nodes one by one, in feed order, each under EUR -> currency. */
  function WriteRows(store: Store, nodes: seq<RateNode>): (r: Store)
    requires AllWellFormed(nodes)
    ensures r.Keys == store.Keys + WrittenKeys(nodes)
    ensures forall p :: p in store && p !in WrittenKeys(nodes) ==> r[p] == store[p]
    decreases |nodes|
  {
    if nodes == [] then store
    else
      var n := |nodes| - 1;
      assert WrittenKeys(nodes) == WrittenKeys(nodes[..n]) + {KeyOf(nodes[n])} by {
        forall p | p in WrittenKeys(nodes)
          ensures p in WrittenKeys(nodes[..n]) + {KeyOf(nodes[n])}
        {
          var i :| 0 <= i < |nodes| && p == KeyOf(nodes[i]);
          if i < n { assert nodes[..n][i] == nodes[i]; }
        }
      }
      WriteRows(store, nodes[..n])[KeyOf(nodes[n]) := nodes[n].rate.value]
  }

  /** The store after one update: the rows up to the first malformed node are
      written; EUR -> EUR is forced to 1 only when every row was written. */
  function UpdatedTable(store: Store, doc: Document): (r: Store)
    ensures store.Keys <= r.Keys
    ensures doc.NoNamespaces? ==> r == store
    ensures doc.RatesDocument? && AllWellFormed(doc.nodes) ==> (Base, Base) in r && r[(Base, Base)] == 1.0
  {
    match doc
    case NoNamespaces => store
    case RatesDocument(nodes, _) =>
      var k := FirstMalformed(nodes);
      if k < |nodes| then WriteRows(store, nodes[..k])
      else WriteRows(store, nodes)[(Base, Base) := 1.0]
  }

  /** The exception one update raises, if any, in the order the code meets them. */
  function UpdateOutcome(doc: Document): (r: Outcome<Error>)
    ensures r.Fail? ==> r.error in {UndefinedNamespacePrefix, MalformedRate, MissingCurrency, MissingFeedTime}
    ensures doc.NoNamespaces? ==> r == Fail(UndefinedNamespacePrefix)
    ensures r == Fail(MissingFeedTime) ==> doc.RatesDocument? && AllWellFormed(doc.nodes)
  {
    match doc
    case NoNamespaces => Fail(UndefinedNamespacePrefix)
    case RatesDocument(nodes, time) =>
      var k := FirstMalformed(nodes);
      if k < |nodes| then
        Fail(if nodes[k].rate.None? then MalformedRate else MissingCurrency)
      else if time.None? then Fail(MissingFeedTime)
      else Pass
  }

  /** Reading node i of a run that has not yet failed: it reads exactly when
      the first failure lies further on. */
  lemma FirstMalformedStep(nodes: seq<RateNode>, i: nat)
    requires i <= FirstMalformed(nodes) && i < |nodes|
    ensures nodes[i].WellFormed() <==> i < FirstMalformed(nodes)
    ensures i < FirstMalformed(nodes) ==> AllWellFormed(nodes[..i + 1])
  {
    var k := FirstMalformed(nodes);
    if i < k {
      assert nodes[..k][i] == nodes[i];
      var prefix := nodes[..i + 1];
      forall j | 0 <= j < i + 1 ensures prefix[j].WellFormed() {
        assert prefix[j] == nodes[..k][j];
      }
    }
  }

  /** Writing one more node extends the fold by one store update. */
  lemma WriteRowsSnoc(store: Store, nodes: seq<RateNode>, i: nat)
    requires i < |nodes| && AllWellFormed(nodes[..i + 1])
    ensures AllWellFormed(nodes[..i])
    ensures WriteRows(store, nodes[..i + 1]) ==
      WriteRows(store, nodes[..i])[KeyOf(nodes[i]) := nodes[i].rate.value]
  {
    assert nodes[..i + 1][..i] == nodes[..i];
    assert nodes[..i + 1][i] == nodes[i];
  }

  /** Last write wins: the rate stored for a currency is the rate of its last
      node in feed order. */
  lemma {:induction false} WriteRowsLastWins(store: Store, nodes: seq<RateNode>, i: nat)
    requires AllWellFormed(nodes) && i < |nodes|
    requires forall j | i < j < |nodes| :: nodes[j].currency != nodes[i].currency
    ensures KeyOf(nodes[i]) in WriteRows(store, nodes)
    ensures WriteRows(store, nodes)[KeyOf(nodes[i])] == nodes[i].rate.value
  {
    var n := |nodes| - 1;
    if i < n {
      assert AllWellFormed(nodes[..n]);
      WriteRowsLastWins(store, nodes[..n], i);
    }
  }

  /** The value a written key ends with does not depend on what the store held. */
  lemma {:induction false} WriteRowsForgetsOldValue(s1: Store, s2: Store, nodes: seq<RateNode>, p: (Currency, Currency))
    requires AllWellFormed(nodes) && p in WrittenKeys(nodes)
    ensures WriteRows(s1, nodes)[p] == WriteRows(s2, nodes)[p]
  {
    var n := |nodes| - 1;
    assert AllWellFormed(nodes[..n]);
    if p != KeyOf(nodes[n]) {
      var i :| 0 <= i < |nodes| && p == KeyOf(nodes[i]);
      assert nodes[..n][i] == nodes[i];
      WriteRowsForgetsOldValue(s1, s2, nodes[..n], p);
    }
  }

  /** Writing the same rows twice leaves the same store as writing them once. */
  lemma WriteRowsIdempotent(store: Store, nodes: seq<RateNode>)
    requires AllWellFormed(nodes)
    ensures WriteRows(WriteRows(store, nodes), nodes) == WriteRows(store, nodes)
  {
    var once := WriteRows(store, nodes);
    var twice := WriteRows(once, nodes);
    forall p | p in twice ensures twice[p] == once[p] {
      if p in WrittenKeys(nodes) {
        WriteRowsForgetsOldValue(once, store, nodes, p);
      }
    }
  }

  /** An update succeeds exactly when the query finds the envelope, every node
      reads, and the feed time reads. */
  lemma UpdatePassesExactly(doc: Document)
    ensures UpdateOutcome(doc).Pass? <==>
      doc.RatesDocument? && AllWellFormed(doc.nodes) && doc.time.Some?
  {
    if doc.RatesDocument? && AllWellFormed(doc.nodes) {
      var k := FirstMalformed(doc.nodes);
      if k < |doc.nodes| {
        assert false;
      }
    }
  }

  /** Every node read before the update stopped is stored under EUR -> its
      currency, last write winning; on a complete update EUR itself is the
      exception, since EUR -> EUR is written after the loop. */
  lemma UpdateStoresLastRate(store: Store, doc: Document, i: nat)
    requires doc.RatesDocument? && i < FirstMalformed(doc.nodes)
    requires forall j | i < j < FirstMalformed(doc.nodes) :: doc.nodes[j].currency != doc.nodes[i].currency
    requires FirstMalformed(doc.nodes) == |doc.nodes| ==> doc.nodes[i].currency != Some(Base)
    ensures (Base, doc.nodes[i].currency.value) in UpdatedTable(store, doc)
    ensures UpdatedTable(store, doc)[(Base, doc.nodes[i].currency.value)] == doc.nodes[i].rate.value
  {
    var nodes, k := doc.nodes, FirstMalformed(doc.nodes);
    assert nodes[..k][i] == nodes[i];
    WriteRowsLastWins(store, nodes[..k], i);
    if k == |nodes| {
      assert nodes[..k] == nodes;
    }
  }

  /** After every node was written, EUR -> EUR is exactly 1, even when the feed
      listed EUR with another rate. */
  lemma UpdateForcesBaseRate(store: Store, doc: Document)
    requires doc.RatesDocument? && AllWellFormed(doc.nodes)
    ensures (Base, Base) in UpdatedTable(store, doc)
    ensures UpdatedTable(store, doc)[(Base, Base)] == 1.0
  {
    UpdatePassesExactly(doc);
    var k := FirstMalformed(doc.nodes);
    if k < |doc.nodes| {
      assert false;
    }
  }

  /** A pair that no read node names, and that is not EUR -> EUR on a complete
      update, keeps its presence and its rate: the table is never cleared. */
  lemma UpdateLeavesOtherPairs(store: Store, doc: Document, p: (Currency, Currency))
    requires doc.RatesDocument?
    requires p !in WrittenKeys(doc.nodes[..FirstMalformed(doc.nodes)])
    requires FirstMalformed(doc.nodes) == |doc.nodes| ==> p != (Base, Base)
    ensures p in UpdatedTable(store, doc) <==> p in store
    ensures p in store ==> UpdatedTable(store, doc)[p] == store[p]
  {
    var nodes, k := doc.nodes, FirstMalformed(doc.nodes);
    if k == |nodes| {
      assert nodes[..k] == nodes;
    }
  }

  /** Only EUR -> x pairs are ever written. */
  lemma UpdateWritesOnlyBaseKeys(store: Store, doc: Document)
    ensures forall p: (Currency, Currency) | p.0 != Base :: (p in UpdatedTable(store, doc) <==> p in store)
    ensures forall p: (Currency, Currency) | p.0 != Base && p in store :: UpdatedTable(store, doc)[p] == store[p]
  {
    if doc.RatesDocument? {
      forall p: (Currency, Currency) | p.0 != Base
        ensures (p in UpdatedTable(store, doc) <==> p in store)
        ensures p in store ==> UpdatedTable(store, doc)[p] == store[p]
      {
        UpdateLeavesOtherPairs(store, doc, p);
      }
    }
  }

  /** A node that does not read stops the update where it stands: the nodes
      before it are stored, and the error is the one raised for that node (its
      rate is read before its currency). */
  lemma MalformedNodeStopsUpdate(store: Store, doc: Document)
    requires doc.RatesDocument? && FirstMalformed(doc.nodes) < |doc.nodes|
    ensures UpdatedTable(store, doc) == WriteRows(store, doc.nodes[..FirstMalformed(doc.nodes)])
    ensures UpdateOutcome(doc) ==
      Fail(if doc.nodes[FirstMalformed(doc.nodes)].rate.None? then MalformedRate else MissingCurrency)
  {
  }

  /** An update stopped by a malformed node does not reset EUR -> EUR, unless
      a node read before it named EUR. */
  lemma MalformedNodeKeepsBaseRate(store: Store, doc: Document)
    requires doc.RatesDocument? && FirstMalformed(doc.nodes) < |doc.nodes|
    requires forall j | 0 <= j < FirstMalformed(doc.nodes) :: doc.nodes[j].currency != Some(Base)
    ensures (Base, Base) in UpdatedTable(store, doc) <==> (Base, Base) in store
    ensures (Base, Base) in store ==> UpdatedTable(store, doc)[(Base, Base)] == store[(Base, Base)]
  {
    var prefix := doc.nodes[..FirstMalformed(doc.nodes)];
    assert forall i | 0 <= i < |prefix| :: KeyOf(prefix[i]) != (Base, Base);
    UpdateLeavesOtherPairs(store, doc, (Base, Base));
  }

  /** A missing feed time fails only after the table writes: the table is the
      one a feed carrying a time would have produced. */
  lemma MissingTimeFailsAfterWrites(store: Store, nodes: seq<RateNode>, t: Instant)
    requires AllWellFormed(nodes)
    ensures UpdateOutcome(RatesDocument(nodes, None)) == Fail(MissingFeedTime)
    ensures UpdateOutcome(RatesDocument(nodes, Some(t))) == Pass
    ensures UpdatedTable(store, RatesDocument(nodes, None)) == UpdatedTable(store, RatesDocument(nodes, Some(t)))
  {
    UpdatePassesExactly(RatesDocument(nodes, Some(t)));
  }

  /** Applying the same document twice leaves the table it leaves once. */
  lemma UpdatedTableIdempotent(store: Store, doc: Document)
    ensures UpdatedTable(UpdatedTable(store, doc), doc) == UpdatedTable(store, doc)
  {
    if doc.RatesDocument? {
      var nodes, k := doc.nodes, FirstMalformed(doc.nodes);
      if k < |nodes| {
        WriteRowsIdempotent(store, nodes[..k]);
      } else {
        CompleteWriteIdempotent(store, nodes);
      }
    }
  }

  lemma CompleteWriteIdempotent(store: Store, nodes: seq<RateNode>)
    requires AllWellFormed(nodes)
    ensures var once := WriteRows(store, nodes)[(Base, Base) := 1.0];
            WriteRows(once, nodes)[(Base, Base) := 1.0] == once
  {
    var once := WriteRows(store, nodes)[(Base, Base) := 1.0];
    var twice := WriteRows(once, nodes)[(Base, Base) := 1.0];
    forall p | p in twice ensures p in once && twice[p] == once[p] {
      if p != (Base, Base) && p in WrittenKeys(nodes) {
        WriteRowsForgetsOldValue(once, store, nodes, p);
      }
    }
    assert twice.Keys == once.Keys;
  }
}
