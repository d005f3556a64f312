/**
 * The gRPC front of the pipeline: run the update, re-read the market for
 * its event, publish the change, answer. Every decline is an ordinary
 * response with `Success = false`; the RPC error is always nil, and the
 * outcome of the publish call never reaches the caller.
 */
module Grpc {
  import opened Wrappers
  import opened Models
  import opened Coefficients
  import Centrifugo

  newtype uint32 = x: int | 0 <= x < 0x1_0000_0000

  datatype UpdateCoefficientRequest = UpdateCoefficientRequest(
    marketId: uint32,
    newCoefficient: real,
    userId: uint32)

  datatype UpdateCoefficientResponse = UpdateCoefficientResponse(
    success: bool,
    message: string,
    marketId: uint32,
    oldCoefficient: real,
    newCoefficient: real,
    updatedAt: int)

  const FetchFailedMessage: string := "Failed to get market details"

  /** A declined request: only the message is set, every other field keeps its zero value. */
  function Declined(message: string): UpdateCoefficientResponse
  {
    UpdateCoefficientResponse(false, message, 0, 0.0, 0.0, 0)
  }

  /** The three clock readings one request takes, in the order it takes them. */
  datatype Clock = Clock(savedAt: Time, recordedAt: Time, publishedAt: Time)

  /** The database's answers to the request's writes and to the follow-up query. */
  datatype Faults = Faults(store: StoreFaults, fetch: Option<string>)

  /** The store afterwards, the response, and the publish call made, if any. */
  datatype Served = Served(db: Db, response: UpdateCoefficientResponse, published: Option<Centrifugo.Publication>)

  /** `UpdateCoefficient` as a function of the store before the request. */
  function Serve(db: Db, req: UpdateCoefficientRequest, clock: Clock, faults: Faults): (r: Served)
    // the store changes exactly as the update says; the fetch and the publish write nothing,
    // and a failed fetch does not undo the commit
    ensures r.db == Update(db, req.marketId as nat, req.newCoefficient, req.userId as nat,
                           clock.savedAt, clock.recordedAt, faults.store).db
    ensures var c := Update(db, req.marketId as nat, req.newCoefficient, req.userId as nat,
                            clock.savedAt, clock.recordedAt, faults.store);
            c.result.Failure? ==> r.response == Declined(ErrorText(c.result.error)) && r.published.None?
    ensures var c := Update(db, req.marketId as nat, req.newCoefficient, req.userId as nat,
                            clock.savedAt, clock.recordedAt, faults.store);
            c.result.Success? && faults.fetch.Some? ==>
              r.response == Declined(FetchFailedMessage) && r.published.None?
    // publishing happens only after the commit and the fetch both succeed
    ensures r.response.success <==> r.published.Some?
    ensures r.response.success <==>
              && req.marketId as nat in db.markets
              && Admits(db.markets[req.marketId as nat], req.newCoefficient)
              && faults.store.save.None? && faults.store.create.None? && faults.fetch.None?
    ensures r.response.success ==>
              var m := db.markets[req.marketId as nat];
              && r.published == Some(Centrifugo.CoefficientUpdate(m.eventID, req.marketId as nat,
                                                                 m.currentCoefficient, req.newCoefficient,
                                                                 clock.publishedAt))
              && r.response == UpdateCoefficientResponse(true, UpdatedMessage, req.marketId,
                                                         m.currentCoefficient, req.newCoefficient,
                                                         UnixSeconds(clock.savedAt))
  {
    var c := Update(db, req.marketId as nat, req.newCoefficient, req.userId as nat,
                    clock.savedAt, clock.recordedAt, faults.store);
    if c.result.Failure? then Served(c.db, Declined(ErrorText(c.result.error)), None)
    else
      var fetched := MarketWithHistory(c.db, req.marketId as nat, faults.fetch);
      if fetched.Failure? then Served(c.db, Declined(FetchFailedMessage), None)
      else
        var response := c.result.value;
        var publication := Centrifugo.CoefficientUpdate(fetched.value.market.eventID, req.marketId as nat,
                                                        response.oldCoefficient, response.newCoefficient,
                                                        clock.publishedAt);
        Served(c.db,
               UpdateCoefficientResponse(response.success, response.message, req.marketId,
                                         response.oldCoefficient, response.newCoefficient,
                                         UnixSeconds(response.updatedAt)),
               Some(publication))
  }

  /** Serving a request, accepted or declined, keeps every price within its bounds. */
  lemma ServeKeepsInBounds(db: Db, req: UpdateCoefficientRequest, clock: Clock, faults: Faults)
    requires AllInBounds(db)
    ensures AllInBounds(Serve(db, req, clock, faults).db)
  {
    UpdateKeepsInBounds(db, req.marketId as nat, req.newCoefficient, req.userId as nat,
                        clock.savedAt, clock.recordedAt, faults.store);
  }

  /** Serving a request, accepted or declined, keeps the store invariant. */
  lemma ServeKeepsConsistent(db: Db, req: UpdateCoefficientRequest, clock: Clock, faults: Faults)
    requires Consistent(db)
    ensures Consistent(Serve(db, req, clock, faults).db)
  {
    UpdateKeepsConsistent(db, req.marketId as nat, req.newCoefficient, req.userId as nat,
                          clock.savedAt, clock.recordedAt, faults.store);
  }

  /**
   * A market bounded by [1.5, 4.0] at 2.1: moving it to 1.8 succeeds and
   * records one row; asking for 5.0 afterwards is declined with the bounds
   * in the message and changes nothing.
   */
  lemma BoundedMarketScenario(first: Clock, second: Clock)
    ensures var db := Db(map[4 := Market(4, "Over 2.5 Goals", 2, 2.1, 2.1, 1.5, 4.0, 0)], []);
            var ok := Faults(StoreFaults(None, None), None);
            var s1 := Serve(db, UpdateCoefficientRequest(4, 1.8, 7), first, ok);
            var s2 := Serve(s1.db, UpdateCoefficientRequest(4, 5.0, 7), second, ok);
            && s1.response == UpdateCoefficientResponse(true, UpdatedMessage, 4, 2.1, 1.8, UnixSeconds(first.savedAt))
            && s1.db.markets[4].currentCoefficient == 1.8
            && s1.db.history == [CoefficientHistory(4, 2.1, 1.8, 7, first.recordedAt)]
            && s2.response == Declined("odds 5.00 out of bounds [1.50, 4.00]")
            && s2.db == s1.db
  {
    var db := Db(map[4 := Market(4, "Over 2.5 Goals", 2, 2.1, 2.1, 1.5, 4.0, 0)], []);
    var ok := Faults(StoreFaults(None, None), None);
    var s1 := Serve(db, UpdateCoefficientRequest(4, 1.8, 7), first, ok);
    var moved := Market(4, "Over 2.5 Goals", 2, 1.8, 2.1, 1.5, 4.0, first.savedAt);
    assert s1.db == Db(map[4 := moved], [CoefficientHistory(4, 2.1, 1.8, 7, first.recordedAt)]);
    var s2 := Serve(s1.db, UpdateCoefficientRequest(4, 5.0, 7), second, ok);
    assert s2.response == Declined(ErrorText(OutOfBounds(5.0, 1.5, 4.0)));
    OutOfBoundsText();
  }

  /** The out-of-bounds message is assembled from the three formatted prices. */
  lemma OutOfBoundsShape(odds: real, min: real, max: real, oddsText: string, minText: string, maxText: string)
    requires Format.Fixed2(odds) == oddsText && Format.Fixed2(min) == minText && Format.Fixed2(max) == maxText
    ensures ErrorText(OutOfBounds(odds, min, max)) == "odds " + oddsText + " out of bounds [" + minText + ", " + maxText + "]"
  {
  }

  /** The message of the scenario's decline. */
  lemma OutOfBoundsText()
    ensures ErrorText(OutOfBounds(5.0, 1.5, 4.0)) == "odds 5.00 out of bounds [1.50, 4.00]"
  {
    Format.Fixed2Whole();
    Format.Fixed2Bounds();
    OutOfBoundsShape(5.0, 1.5, 4.0, "5.00", "1.50", "4.00");
    MessageSpelling();
  }

  /**
   * The assembled message, spelled out. Kept apart from OutOfBoundsText so
   * that comparing the literals does not share a proof with the formatting.
   */
  lemma MessageSpelling()
    ensures "odds " + "5.00" + " out of bounds [" + "1.50" + ", " + "4.00" + "]"
            == "odds 5.00 out of bounds [1.50, 4.00]"
  {
  }

  class GrpcCoefficientServer {
    const coefficientService: CoefficientService
    const centrifugoService: Centrifugo.CentrifugoService

    constructor (coefficientService: CoefficientService, centrifugoService: Centrifugo.CentrifugoService)
      ensures this.coefficientService == coefficientService && this.centrifugoService == centrifugoService
    {
      this.coefficientService := coefficientService;
      this.centrifugoService := centrifugoService;
    }

    /**
     * Handles one request. `publishFailure` is the broker's answer to the
     * publish call; it is only logged, so nothing below depends on it.
     */
    method UpdateCoefficient(req: UpdateCoefficientRequest, clock: Clock, faults: Faults,
                             publishFailure: Option<string>)
      returns (response: UpdateCoefficientResponse, rpcErr: Option<string>)
      modifies coefficientService, centrifugoService
      ensures var s := Serve(old(coefficientService.State()), req, clock, faults);
              && coefficientService.State() == s.db
              && response == s.response
              && centrifugoService.attempts
                 == old(centrifugoService.attempts) + (if s.published.Some? then [s.published.value] else [])
      ensures rpcErr.None?
    {
      var result := coefficientService.UpdateMarketCoefficient(
        req.marketId as nat, req.newCoefficient, req.userId as nat,
        clock.savedAt, clock.recordedAt, faults.store);
      if result.Failure? {
        return Declined(ErrorText(result.error)), None;
      }

      var market := coefficientService.GetMarketWithHistory(req.marketId as nat, faults.fetch);
      if market.Failure? {
        return Declined(FetchFailedMessage), None;
      }

      var publishErr := centrifugoService.PublishCoefficientUpdate(
        market.value.market.eventID, req.marketId as nat,
        result.value.oldCoefficient, result.value.newCoefficient,
        clock.publishedAt, publishFailure);
      // A failed publish is logged and otherwise ignored.

      response := UpdateCoefficientResponse(result.value.success, result.value.message, req.marketId,
                                            result.value.oldCoefficient, result.value.newCoefficient,
                                            UnixSeconds(result.value.updatedAt));
      rpcErr := None;
    }
  }
}
