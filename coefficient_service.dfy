/**
 * The coefficient service: validate a new price against the bounds stored
 * on the market, then, in one transaction, record the change on the market
 * and append exactly one audit row. The database is an in-memory store: a
 * table of markets keyed by id and the history table in insertion order.
 */
module Coefficients {
  import opened Wrappers
  import opened Models
  import Format

  /** The text of gorm's error for a lookup that matches no row. */
  const RecordNotFound: string := "record not found"
  const UpdatedMessage: string := "Coefficient updated successfully"

  /** Why an update was declined. Each kind leaves the store as it was. */
  datatype UpdateError =
    | NotFound(cause: string)
    | OutOfBounds(odds: real, min: real, max: real)
    | SaveFailed(cause: string)
    | HistoryFailed(cause: string)

  const NotFoundPrefix: string := "market not found: "
  const OutOfBoundsPrefix: string := "odds "
  const SaveFailedPrefix: string := "failed to update market: "
  const HistoryFailedPrefix: string := "failed to record coefficient history: "

  /** The error kinds that wrap the database's own error text. */
  predicate HasCause(e: UpdateError)
  {
    e.NotFound? || e.SaveFailed? || e.HistoryFailed?
  }

  /** Two strings that differ at position i are not both prefixes of one string. */
  lemma PrefixesClash(p: string, q: string, r: string, i: nat)
    requires i < |p| && i < |q| && p[i] != q[i] && p <= r
    ensures !(q <= r)
  {
  }

  /** A message made of a prefix and a cause starts with the prefix and ends with the cause. */
  lemma Wraps(prefix: string, cause: string)
    ensures prefix <= prefix + cause
    ensures (prefix + cause)[|prefix + cause| - |cause|..] == cause
  {
    var r := prefix + cause;
    assert r[..|prefix|] == prefix;
    assert r[|r| - |cause|..] == cause;
  }

  /** "odds %.2f out of bounds [%.2f, %.2f]". */
  function BoundsMessage(odds: real, min: real, max: real): (r: string)
    ensures OutOfBoundsPrefix <= r && r[|r| - 1] == ']'
  {
    var r := OutOfBoundsPrefix + Format.Fixed2(odds) + " out of bounds [" + Format.Fixed2(min) + ", "
             + Format.Fixed2(max) + "]";
    assert r[..|OutOfBoundsPrefix|] == OutOfBoundsPrefix;
    r
  }

  /**
   * `err.Error()` for each kind, as the service formats it. Each kind has
   * its own opening words, so a caller can tell the declines apart by their
   * text, and the kinds that wrap a database error are exactly their prefix
   * followed by that error's text.
   */
  function ErrorText(e: UpdateError): (r: string)
    ensures e.NotFound? <==> NotFoundPrefix <= r
    ensures e.OutOfBounds? <==> OutOfBoundsPrefix <= r
    ensures e.SaveFailed? <==> SaveFailedPrefix <= r
    ensures e.HistoryFailed? <==> HistoryFailedPrefix <= r
    ensures HasCause(e) ==> |e.cause| <= |r| && r[|r| - |e.cause|..] == e.cause
    ensures e.NotFound? ==> |r| == |NotFoundPrefix| + |e.cause|
    ensures e.SaveFailed? ==> |r| == |SaveFailedPrefix| + |e.cause|
    ensures e.HistoryFailed? ==> |r| == |HistoryFailedPrefix| + |e.cause|
    ensures e.OutOfBounds? ==> r[|r| - 1] == ']'
  {
    match e
    case NotFound(cause) =>
      Wraps(NotFoundPrefix, cause);
      var r := NotFoundPrefix + cause;
      PrefixesClash(NotFoundPrefix, OutOfBoundsPrefix, r, 0);
      PrefixesClash(NotFoundPrefix, SaveFailedPrefix, r, 0);
      PrefixesClash(NotFoundPrefix, HistoryFailedPrefix, r, 0);
      r
    case OutOfBounds(odds, min, max) =>
      var r := BoundsMessage(odds, min, max);
      PrefixesClash(OutOfBoundsPrefix, NotFoundPrefix, r, 0);
      PrefixesClash(OutOfBoundsPrefix, SaveFailedPrefix, r, 0);
      PrefixesClash(OutOfBoundsPrefix, HistoryFailedPrefix, r, 0);
      r
    case SaveFailed(cause) =>
      Wraps(SaveFailedPrefix, cause);
      var r := SaveFailedPrefix + cause;
      PrefixesClash(SaveFailedPrefix, NotFoundPrefix, r, 0);
      PrefixesClash(SaveFailedPrefix, OutOfBoundsPrefix, r, 0);
      PrefixesClash(SaveFailedPrefix, HistoryFailedPrefix, r, 10);
      r
    case HistoryFailed(cause) =>
      Wraps(HistoryFailedPrefix, cause);
      var r := HistoryFailedPrefix + cause;
      PrefixesClash(HistoryFailedPrefix, NotFoundPrefix, r, 0);
      PrefixesClash(HistoryFailedPrefix, OutOfBoundsPrefix, r, 0);
      PrefixesClash(HistoryFailedPrefix, SaveFailedPrefix, r, 10);
      r
  }

  /**
   * The outcome of the two writes inside the transaction: `Some(cause)` when
   * the database refuses the market save or the history insert.
   */
  datatype StoreFaults = StoreFaults(save: Option<string>, create: Option<string>)

  /** The tables the pipeline uses. */
  datatype Db = Db(markets: map<nat, Market>, history: seq<CoefficientHistory>)

  /** Every market is stored under its own id. */
  predicate Keyed(db: Db)
  {
    forall id :: id in db.markets ==> db.markets[id].id == id
  }

  /** Every market's current price lies within its stored bounds. */
  predicate AllInBounds(db: Db)
  {
    forall id :: id in db.markets ==> Admits(db.markets[id], db.markets[id].currentCoefficient)
  }

  /**
   * The history rows of one market in insertion order: what gorm's
   * `Preload("CoefficientHistory")` attaches to the market.
   */
  function HistoryOf(h: seq<CoefficientHistory>, id: nat): (r: seq<CoefficientHistory>)
    ensures |r| <= |h|
    ensures forall k :: 0 <= k < |r| ==> r[k].marketID == id && r[k] in h
    ensures forall k :: 0 <= k < |h| && h[k].marketID == id ==> h[k] in r
  {
    if h == [] then []
    else (if h[0].marketID == id then [h[0]] else []) + HistoryOf(h[1..], id)
  }

  /** Appending a row extends the history of its own market only. */
  lemma {:induction false} HistoryOfAppend(h: seq<CoefficientHistory>, e: CoefficientHistory, id: nat)
    ensures HistoryOf(h + [e], id) == HistoryOf(h, id) + (if e.marketID == id then [e] else [])
  {
    if h == [] {
      assert [e][1..] == [];
    } else {
      assert (h + [e])[1..] == h[1..] + [e];
      HistoryOfAppend(h[1..], e, id);
    }
  }

  /**
   * The audit trail agrees with the markets: for every market, consecutive
   * history rows chain (each row starts where the one before ended), and the
   * last row records the market's current change (previous to current).
   */
  predicate Audited(db: Db)
  {
    forall id :: id in db.markets ==> AuditedMarket(db.markets[id], HistoryOf(db.history, id))
  }

  predicate AuditedMarket(m: Market, hs: seq<CoefficientHistory>)
  {
    && (forall k :: 0 < k < |hs| ==> hs[k - 1].newValue == hs[k].oldValue)
    && (|hs| > 0 ==>
          hs[|hs| - 1].oldValue == m.previousCoefficient && hs[|hs| - 1].newValue == m.currentCoefficient)
  }

  /** The store invariant the pipeline keeps. */
  predicate Consistent(db: Db)
  {
    Keyed(db) && AllInBounds(db) && Audited(db)
  }

  /** What one update does to the store and what it returns. */
  datatype Outcome = Outcome(db: Db, result: Result<CoefficientUpdateResponse, UpdateError>)

  /**
   * `UpdateMarketCoefficient` as a function of the store before the call.
   * `savedAt` and `recordedAt` are the two clock readings the code takes:
   * one for the market's `LastUpdated`, one for the history row.
   */
  function Update(db: Db, marketID: nat, newCoefficient: real, userID: nat,
                  savedAt: Time, recordedAt: Time, faults: StoreFaults): (r: Outcome)
    // every declined update leaves both tables exactly as they were (rollback)
    ensures r.result.Failure? ==> r.db == db
    ensures marketID !in db.markets ==> r.result == Failure(NotFound(RecordNotFound))
    // the bounds are the stored ones, inclusive at both ends, and are checked before any write
    ensures marketID in db.markets && !Admits(db.markets[marketID], newCoefficient) ==>
              var m := db.markets[marketID];
              r.result == Failure(OutOfBounds(newCoefficient, m.minCoefficient, m.maxCoefficient))
    ensures marketID in db.markets && Admits(db.markets[marketID], newCoefficient) && faults.save.Some? ==>
              r.result == Failure(SaveFailed(faults.save.value))
    ensures marketID in db.markets && Admits(db.markets[marketID], newCoefficient)
            && faults.save.None? && faults.create.Some? ==>
              r.result == Failure(HistoryFailed(faults.create.value))
    ensures r.result.Success? <==>
              marketID in db.markets && Admits(db.markets[marketID], newCoefficient)
              && faults.save.None? && faults.create.None?
    // on success: the one market changes in exactly three fields, nothing else changes
    ensures r.result.Success? ==>
              var m := db.markets[marketID];
              && r.db.markets.Keys == db.markets.Keys
              && (forall id :: id in db.markets && id != marketID ==> r.db.markets[id] == db.markets[id])
              && r.db.markets[marketID].previousCoefficient == m.currentCoefficient
              && r.db.markets[marketID].currentCoefficient == newCoefficient
              && r.db.markets[marketID].lastUpdated == savedAt
              && r.db.markets[marketID].(previousCoefficient := m.previousCoefficient,
                                         currentCoefficient := m.currentCoefficient,
                                         lastUpdated := m.lastUpdated) == m
    // on success: exactly one audit row is appended
    ensures r.result.Success? ==>
              r.db.history == db.history + [CoefficientHistory(marketID, db.markets[marketID].currentCoefficient,
                                                               newCoefficient, userID, recordedAt)]
    ensures r.result.Success? ==>
              r.result.value == CoefficientUpdateResponse(true, UpdatedMessage, marketID,
                                                          db.markets[marketID].currentCoefficient,
                                                          newCoefficient, savedAt)
  {
    if marketID !in db.markets then Outcome(db, Failure(NotFound(RecordNotFound)))
    else
      var m := db.markets[marketID];
      if newCoefficient < m.minCoefficient || newCoefficient > m.maxCoefficient then
        Outcome(db, Failure(OutOfBounds(newCoefficient, m.minCoefficient, m.maxCoefficient)))
      else if faults.save.Some? then Outcome(db, Failure(SaveFailed(faults.save.value)))
      else if faults.create.Some? then Outcome(db, Failure(HistoryFailed(faults.create.value)))
      else
        var saved := m.(previousCoefficient := m.currentCoefficient, currentCoefficient := newCoefficient,
                        lastUpdated := savedAt);
        var row := CoefficientHistory(marketID, m.currentCoefficient, newCoefficient, userID, recordedAt);
        Outcome(Db(db.markets[marketID := saved], db.history + [row]),
                Success(CoefficientUpdateResponse(true, UpdatedMessage, marketID, m.currentCoefficient,
                                                  newCoefficient, savedAt)))
  }

  /**
   * Recording a change on one market together with its audit row keeps the
   * audit trail chained, when the row runs from the market's old price to
   * its new one.
   */
  lemma RecordKeepsAudited(db: Db, marketID: nat, saved: Market, row: CoefficientHistory)
    requires Audited(db) && marketID in db.markets
    requires row.marketID == marketID
    requires row.oldValue == db.markets[marketID].currentCoefficient == saved.previousCoefficient
    requires row.newValue == saved.currentCoefficient
    ensures Audited(Db(db.markets[marketID := saved], db.history + [row]))
  {
    var db' := Db(db.markets[marketID := saved], db.history + [row]);
    forall id | id in db'.markets
      ensures AuditedMarket(db'.markets[id], HistoryOf(db'.history, id))
    {
      HistoryOfAppend(db.history, row, id);
      if id == marketID {
        AuditedExtend(db.markets[id], HistoryOf(db.history, id), saved, row);
      } else {
        assert db'.markets[id] == db.markets[id];
      }
    }
  }

  /** One more row that starts at the market's current price extends a chained trail. */
  lemma AuditedExtend(m: Market, hs: seq<CoefficientHistory>, saved: Market, row: CoefficientHistory)
    requires AuditedMarket(m, hs)
    requires row.oldValue == m.currentCoefficient == saved.previousCoefficient
    requires row.newValue == saved.currentCoefficient
    ensures AuditedMarket(saved, hs + [row])
  {
  }

  /** Whatever the outcome, every price stays within its market's bounds. */
  lemma UpdateKeepsInBounds(db: Db, marketID: nat, newCoefficient: real, userID: nat,
                            savedAt: Time, recordedAt: Time, faults: StoreFaults)
    requires AllInBounds(db)
    ensures AllInBounds(Update(db, marketID, newCoefficient, userID, savedAt, recordedAt, faults).db)
  {
  }

  /** Whatever the outcome, the store invariant survives an update. */
  lemma UpdateKeepsConsistent(db: Db, marketID: nat, newCoefficient: real, userID: nat,
                              savedAt: Time, recordedAt: Time, faults: StoreFaults)
    requires Consistent(db)
    ensures Consistent(Update(db, marketID, newCoefficient, userID, savedAt, recordedAt, faults).db)
  {
    var r := Update(db, marketID, newCoefficient, userID, savedAt, recordedAt, faults);
    UpdateKeepsInBounds(db, marketID, newCoefficient, userID, savedAt, recordedAt, faults);
    if r.result.Success? {
      var m := db.markets[marketID];
      var row := CoefficientHistory(marketID, m.currentCoefficient, newCoefficient, userID, recordedAt);
      assert r.db == Db(db.markets[marketID := r.db.markets[marketID]], db.history + [row]);
      RecordKeepsAudited(db, marketID, r.db.markets[marketID], row);
    }
  }

  /** One request to the service, with the clock readings and store faults it meets. */
  datatype Call = Call(marketID: nat, newCoefficient: real, userID: nat,
                       savedAt: Time, recordedAt: Time, faults: StoreFaults)

  /** The store after serving the calls in order. */
  function Replay(db: Db, calls: seq<Call>): Db
    decreases |calls|
  {
    if calls == [] then db
    else
      var c := calls[0];
      Replay(Update(db, c.marketID, c.newCoefficient, c.userID, c.savedAt, c.recordedAt, c.faults).db, calls[1..])
  }

  /** After any sequence of updates, every price is still within its market's bounds. */
  lemma {:induction false} ReplayKeepsInBounds(db: Db, calls: seq<Call>)
    requires AllInBounds(db)
    ensures AllInBounds(Replay(db, calls))
    decreases |calls|
  {
    if calls != [] {
      var c := calls[0];
      var next := Update(db, c.marketID, c.newCoefficient, c.userID, c.savedAt, c.recordedAt, c.faults).db;
      UpdateKeepsInBounds(db, c.marketID, c.newCoefficient, c.userID, c.savedAt, c.recordedAt, c.faults);
      ReplayKeepsInBounds(next, calls[1..]);
    }
  }

  /**
   * After any sequence of updates, successful or declined: the invariant
   * holds, no market appears or disappears, and the history only grows at
   * its end (no row is changed or removed).
   */
  lemma {:induction false} ReplayKeepsConsistent(db: Db, calls: seq<Call>)
    requires Consistent(db)
    ensures Consistent(Replay(db, calls))
    ensures Replay(db, calls).markets.Keys == db.markets.Keys
    ensures db.history <= Replay(db, calls).history
    decreases |calls|
  {
    if calls != [] {
      var c := calls[0];
      var next := Update(db, c.marketID, c.newCoefficient, c.userID, c.savedAt, c.recordedAt, c.faults).db;
      UpdateKeepsConsistent(db, c.marketID, c.newCoefficient, c.userID, c.savedAt, c.recordedAt, c.faults);
      ReplayKeepsConsistent(next, calls[1..]);
    }
  }

  /** A market with its history preloaded. */
  datatype MarketDetails = MarketDetails(market: Market, coefficientHistory: seq<CoefficientHistory>)

  /**
   * `GetMarketWithHistory` as a function of the store; `fault` is a database
   * failure of the query itself.
   */
  function MarketWithHistory(db: Db, marketID: nat, fault: Option<string>): (r: Result<MarketDetails, string>)
    ensures r.Success? <==> fault.None? && marketID in db.markets
    ensures fault.Some? ==> r == Failure(fault.value)
    ensures fault.None? && marketID !in db.markets ==> r == Failure(RecordNotFound)
    ensures r.Success? ==>
              && r.value.market == db.markets[marketID]
              && r.value.coefficientHistory == HistoryOf(db.history, marketID)
  {
    if fault.Some? then Failure(fault.value)
    else if marketID !in db.markets then Failure(RecordNotFound)
    else Success(MarketDetails(db.markets[marketID], HistoryOf(db.history, marketID)))
  }

  /**
   * Right after a successful update, the fetched market is the updated one
   * and its history ends with the row just recorded.
   */
  lemma FetchAfterUpdate(db: Db, marketID: nat, newCoefficient: real, userID: nat,
                         savedAt: Time, recordedAt: Time, faults: StoreFaults)
    requires Update(db, marketID, newCoefficient, userID, savedAt, recordedAt, faults).result.Success?
    ensures var r := Update(db, marketID, newCoefficient, userID, savedAt, recordedAt, faults);
            var f := MarketWithHistory(r.db, marketID, None);
            && f.Success?
            && f.value.market.currentCoefficient == newCoefficient
            && f.value.market.eventID == db.markets[marketID].eventID
            && f.value.coefficientHistory
               == HistoryOf(db.history, marketID)
                  + [CoefficientHistory(marketID, db.markets[marketID].currentCoefficient,
                                        newCoefficient, userID, recordedAt)]
  {
    var r := Update(db, marketID, newCoefficient, userID, savedAt, recordedAt, faults);
    var row := CoefficientHistory(marketID, db.markets[marketID].currentCoefficient, newCoefficient, userID, recordedAt);
    HistoryOfAppend(db.history, row, marketID);
  }

  /** The service over its database handle. */
  class CoefficientService {
    var markets: map<nat, Market>
    var history: seq<CoefficientHistory>

    function State(): Db
      reads this
    {
      Db(markets, history)
    }

    /** A service over a database that holds the given tables. */
    constructor (db: Db)
      ensures State() == db
    {
      markets := db.markets;
      history := db.history;
    }

    /**
     * Looks the market up, checks the stored bounds, then saves the market
     * and inserts the history row inside one transaction. The transaction
     * works on its own copy of the tables; a failed write drops the copy.
     */
    method UpdateMarketCoefficient(marketID: nat, newCoefficient: real, userID: nat,
                                   savedAt: Time, recordedAt: Time, faults: StoreFaults)
      returns (r: Result<CoefficientUpdateResponse, UpdateError>)
      modifies this
      ensures var out := Update(old(State()), marketID, newCoefficient, userID, savedAt, recordedAt, faults);
              State() == out.db && r == out.result
      ensures AllInBounds(old(State())) ==> AllInBounds(State())
      ensures Consistent(old(State())) ==> Consistent(State())
    {
      assert Consistent(State()) ==>
             Consistent(Update(State(), marketID, newCoefficient, userID, savedAt, recordedAt, faults).db) by {
        if Consistent(State()) {
          UpdateKeepsConsistent(State(), marketID, newCoefficient, userID, savedAt, recordedAt, faults);
        }
      }
      assert AllInBounds(State()) ==>
             AllInBounds(Update(State(), marketID, newCoefficient, userID, savedAt, recordedAt, faults).db) by {
        if AllInBounds(State()) {
          UpdateKeepsInBounds(State(), marketID, newCoefficient, userID, savedAt, recordedAt, faults);
        }
      }
      if marketID !in markets {
        return Failure(NotFound(RecordNotFound));
      }
      var market := markets[marketID];
      if newCoefficient < market.minCoefficient || newCoefficient > market.maxCoefficient {
        return Failure(OutOfBounds(newCoefficient, market.minCoefficient, market.maxCoefficient));
      }
      var oldCoefficient := market.currentCoefficient;

      // Begin
      var txMarkets, txHistory := markets, history;

      market := market.(previousCoefficient := oldCoefficient);
      market := market.(currentCoefficient := newCoefficient);
      market := market.(lastUpdated := savedAt);

      if faults.save.Some? {
        // Rollback: the transaction's copy is dropped
        return Failure(SaveFailed(faults.save.value));
      }
      txMarkets := txMarkets[marketID := market];

      var coefficientHistory := CoefficientHistory(marketID, oldCoefficient, newCoefficient, userID, recordedAt);
      if faults.create.Some? {
        // Rollback: the saved market goes with the copy
        return Failure(HistoryFailed(faults.create.value));
      }
      txHistory := txHistory + [coefficientHistory];

      // Commit
      markets, history := txMarkets, txHistory;

      r := Success(CoefficientUpdateResponse(true, UpdatedMessage, marketID, oldCoefficient,
                                             newCoefficient, market.lastUpdated));
    }

    /** Fetches the market with its history; reads the store and changes nothing. */
    method GetMarketWithHistory(marketID: nat, fault: Option<string>) returns (r: Result<MarketDetails, string>)
      ensures r == MarketWithHistory(State(), marketID, fault)
    {
      if fault.Some? {
        return Failure(fault.value);
      }
      if marketID !in markets {
        return Failure(RecordNotFound);
      }
      r := Success(MarketDetails(markets[marketID], HistoryOf(history, marketID)));
    }
  }
}
