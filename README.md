# Coefficient-update pipeline of the Sport betting backend

A Dafny model of how the backend changes a market's price ("coefficient"):
the coefficient service checks the new price against the bounds stored on the
market and, in one transaction, records the change on the market and appends
one audit row; the gRPC server drives that update, re-reads the market for its
event, publishes the change to the real-time broker on a best-effort basis and
answers with a response envelope that never carries an RPC error.

The database is an in-memory store: a `map<nat, Market>` of markets keyed by id
and a `seq<CoefficientHistory>` in insertion order, held by the class
`Coefficients.CoefficientService`. Each state-changing method is proved equal to
a pure function of the state before the call (`Coefficients.Update`,
`Grpc.Serve`), and the properties are proved about those functions:

- a declined update (unknown market, price outside the inclusive stored bounds,
  failed market save, failed history insert) leaves both tables unchanged;
- an accepted update changes exactly `PreviousCoefficient`, `CurrentCoefficient`
  and `LastUpdated` of that one market and appends exactly one history row;
- every price within its market's bounds stays so after every update and every
  sequence of updates, whatever the history holds;
- the store invariant `Consistent` (each market stored under its own id, its
  price within its bounds, its history rows chained and ending at its current
  change) survives every update and every sequence of updates, and the history
  only ever grows at its end;
- the gateway publishes only after the commit and the re-read both succeed, a
  failed re-read does not undo the commit, the publish outcome does not reach
  the response, and the RPC error is nil on every path.

Modules: `Wrappers` (Option, Result), `Models` (records and time),
`Format` (Go's `%.2f`, used in the out-of-bounds message), `Coefficients`
(services/coefficient_service.go), `Centrifugo` (the publish call of
services/centrifugo_service.go, reduced), `Grpc` (services/grpc_server.go).

Inputs the code takes from its environment are parameters: the clock readings
(`time.Now()`, three per request: the market's `LastUpdated`, the history row's
timestamp and the published message's timestamp), the database's answers to the
market save, the history insert and the follow-up query (`Some(cause)` for a
failure), and the broker's answer to the publish call.

Three details of the code:

- the history row's timestamp is a second clock reading taken after the market's
  `LastUpdated`, not the commit time, so the two may differ;
- the market and its bounds are read before the transaction begins, not inside it;
- the response's `UpdatedAt` is the market's `LastUpdated`, rounded down (floor)
  to whole Unix seconds by the gateway.

## Model

| member | source | states |
|---|---|---|
| `Models.UnixSeconds` | services/grpc_server.go:59 | `time.Time.Unix()`: the whole seconds before the time, i.e. the floor of the nanoseconds divided by 1e9 |
| `Format.Decimal` | services/coefficient_service.go:27 | the decimal text of a natural number has no leading zero and reads back as that number |
| `Format.RoundHalfEven` | services/coefficient_service.go:27 | the rounding `%.2f` applies: the nearest integer, the even one on a tie |
| `Format.Fixed2` | services/coefficient_service.go:27 | `%.2f` text: a '-' exactly for negative values, integer digits without a leading zero, a dot, two decimals, reading back as the rounded hundredths of the absolute value |
| `Format.DecimalOfValue` | services/coefficient_service.go:27 | digits without a leading zero are the decimal text of the number they denote |
| `Format.Fixed2Determined` | services/coefficient_service.go:27 | any text meeting the contract of `Fixed2` for x is `Fixed2(x)`: the contract fixes the `%.2f` text |
| `Format.Fixed2Tie` | services/coefficient_service.go:27 | 0.125 prints as "0.12" and 0.375 as "0.38": an exact tie (exact in binary as well) goes to the even hundredth |
| `Format.Fixed2NegativeZero` | services/coefficient_service.go:27 | -0.001 prints as "-0.00": the sign survives rounding to zero |
| `Coefficients.ErrorText` | services/coefficient_service.go:23-53 | each decline kind's text starts with its own words ("market not found: ", "odds ", "failed to update market: ", "failed to record coefficient history: ") and with no other kind's, so declines are told apart by text; the kinds wrapping a database error are exactly their prefix followed by the cause; the bounds text ends with ']' |
| `Coefficients.BoundsMessage` | services/coefficient_service.go:27 | the out-of-bounds text starts with "odds " and ends with ']' |
| `Coefficients.HistoryOf` | services/coefficient_service.go:70 | the preloaded history holds exactly the rows of that market, all taken from the history table |
| `Coefficients.HistoryOfAppend` | services/coefficient_service.go:43-54 | appending a row extends the history of its own market by that row and leaves every other market's history as it was |
| `Coefficients.Update` | services/coefficient_service.go:20-66 | unknown id gives "market not found"; a price strictly below min or above max gives the out-of-bounds error, with the stored bounds; save and insert failures give their errors; success iff the id exists, the price is within the inclusive bounds and both writes succeed; every failure leaves the tables unchanged; success changes exactly previous, current and last-updated of that one market, appends exactly the row (id, old, new, user, time) and returns success, the message, the id, old and new price and `LastUpdated` |
| `Coefficients.AuditedExtend` | services/coefficient_service.go:34-49 | a row from the market's old price to its new one extends a chained audit trail that ends at the new change |
| `Coefficients.RecordKeepsAudited` | services/coefficient_service.go:34-54 | writing the updated market together with a row from its old price to its new one keeps every market's audit trail chained |
| `Coefficients.UpdateKeepsInBounds` | services/coefficient_service.go:26-36 | for any store whose prices are all within their bounds, they still are after any outcome of an update, whatever the history holds |
| `Coefficients.UpdateKeepsConsistent` | services/coefficient_service.go:20-66 | whatever the outcome of an update, the store invariant (price within bounds, chained history) still holds |
| `Coefficients.ReplayKeepsInBounds` | services/coefficient_service.go:26-36 | for any store whose prices are all within their bounds, they still are after any sequence of updates |
| `Coefficients.ReplayKeepsConsistent` | services/coefficient_service.go:20-66 | after any sequence of updates the invariant holds, no market appears or disappears, and the old history is a prefix of the new |
| `Coefficients.MarketWithHistory` | services/coefficient_service.go:68-72 | a query fault gives that error; a missing id gives "record not found"; otherwise the stored market with exactly its history rows |
| `Coefficients.FetchAfterUpdate` | services/coefficient_service.go:20-72 | right after a successful update the re-read finds the updated market, same event, with its history ending in the row just appended |
| `Coefficients.CoefficientService.constructor` | services/coefficient_service.go:14-18 | the service starts over the given tables |
| `Coefficients.CoefficientService.UpdateMarketCoefficient` | services/coefficient_service.go:20-66 | the lookup, bounds check and staged two-write transaction leave the tables and return the result exactly as `Update` says, and keep the bounds invariant and the full store invariant |
| `Coefficients.CoefficientService.GetMarketWithHistory` | services/coefficient_service.go:68-72 | read-only lookup returning what `MarketWithHistory` says |
| `Centrifugo.CoefficientUpdate` | services/centrifugo_service.go:50-59 | the publish call carries type "coefficient_update", the market id, event id, old and new price and the clock reading, on channel "odds_updates" |
| `Centrifugo.CentrifugoService.constructor` | services/centrifugo_service.go:39-47 | a new publisher has made no publish attempts; its URL, API key and HTTP client are not modelled |
| `Centrifugo.CentrifugoService.PublishCoefficientUpdate` | services/centrifugo_service.go:49-70 | issues exactly one publish call; no error iff the transport succeeds, otherwise "failed to publish to channel odds_updates: " and the cause |
| `Grpc.Serve` | services/grpc_server.go:22-61 | the store changes exactly as the update says (a failed re-read does not undo it); an update error becomes `Success=false` with its text and zero fields; a failed re-read becomes "Failed to get market details"; success iff update and re-read succeed, and only then one publish call with the market's event id, the request's market id and the old and new price; the success response carries the update's message, the request's market id, old and new price and `LastUpdated` in Unix seconds |
| `Grpc.ServeKeepsInBounds` | services/grpc_server.go:22-61 | serving any request keeps every price within its bounds, for any store where that held |
| `Grpc.ServeKeepsConsistent` | services/grpc_server.go:22-61 | serving any request keeps the store invariant |
| `Grpc.OutOfBoundsText` | services/coefficient_service.go:27 | a 5.0 request against bounds 1.5 and 4.0 is declined with "odds 5.00 out of bounds [1.50, 4.00]" |
| `Grpc.BoundedMarketScenario` | services/grpc_server.go:22-61 | a market in [1.5, 4.0] at 2.1 moves to 1.8 with one row (2.1 to 1.8, user 7); a following 5.0 request is declined with the bounds message and changes nothing |
| `Grpc.GrpcCoefficientServer.constructor` | services/grpc_server.go:15-20 | the server keeps the service and the publisher it is given |
| `Grpc.GrpcCoefficientServer.UpdateCoefficient` | services/grpc_server.go:22-61 | the store, the response and the publish calls made are exactly those of `Serve`, whatever the publisher answers; the RPC error is nil |

## Left out

- Database mechanics: gorm's `First`, `Save`, `Create`, `Preload`, connection set-up and migrations (db/db.go) are replaced by the in-memory tables; gorm's own bookkeeping columns (`ID` of history rows, `CreatedAt`, `UpdatedAt`, `DeletedAt` and soft deletion) are not modelled.
- The failure of `db.Begin()` and the ignored result of `tx.Commit()`: the commit always succeeds.
- A database failure of the lookup in `UpdateMarketCoefficient` other than a missing row: in the in-memory store the lookup fails only for an unknown id.
- Concurrency: the market is read outside the transaction, so concurrent updates of one market can race; the model is sequential.
- `Preload("Event")`: the event record itself; only the market's `EventID` is used downstream. The order of preloaded history rows is taken as insertion order.
- `GetMarketWithHistory` returns a market alongside an error whose contents are then unspecified (empty when the row is missing, already filled when a preload fails); the model returns only the error, which is all the caller uses.
- Logging (`log.Println` in the gateway, `log.Printf` in the publisher) and the unused `context.Context` argument.
- The publisher's HTTP and JSON plumbing (POST to `/api`, the `apikey` header, the status-200 check) is reduced to an outcome input; `GetChannelInfo` and the never-set `MarketName`/`EventName` message fields are not modelled.
- Floating point: coefficients are exact reals, so NaN (which passes the bounds check in Go) and ±Inf (declined with the text "+Inf" or "-Inf", which no real value prints) and binary rounding are out; `%.2f` is modelled as exact decimal rounding of the real value, so a decimal literal that is a tie only as a real (1.005, stored in binary just below the tie) rounds as a tie in the model.
- The random odds generator (generator/coefficient_generator.go), the WebSocket client (cmd/client/main.go), user registration (user/), routing and process start-up (main.go, router/router.go, cmd/generator/main.go): outside the pipeline.
