/**
 * The real-time publisher, reduced to what the gateway relies on: one
 * outbound publish call per coefficient update, carrying a fixed message
 * shape on a fixed channel. Whether the broker accepted the call is an
 * input; the attempts made are kept in order.
 */
module Centrifugo {
  import opened Wrappers
  import opened Models

  const Channel: string := "odds_updates"
  const UpdateType: string := "coefficient_update"

  /** The payload subscribers receive. */
  datatype CoefficientUpdateMessage = CoefficientUpdateMessage(
    messageType: string,
    marketID: nat,
    eventID: nat,
    oldCoefficient: real,
    newCoefficient: real,
    timestamp: Time)

  /** One publish call: the channel and the payload sent on it. */
  datatype Publication = Publication(channel: string, data: CoefficientUpdateMessage)

  /**
   * The call `PublishCoefficientUpdate` makes for these arguments at clock
   * reading `now`.
   */
  function CoefficientUpdate(eventID: nat, marketID: nat, oldCoefficient: real, newCoefficient: real,
                             now: Time): (p: Publication)
    ensures p.channel == Channel && p.data.messageType == UpdateType
    ensures p.data.marketID == marketID && p.data.eventID == eventID
    ensures p.data.oldCoefficient == oldCoefficient && p.data.newCoefficient == newCoefficient
    ensures p.data.timestamp == now
  {
    Publication(Channel, CoefficientUpdateMessage(UpdateType, marketID, eventID, oldCoefficient, newCoefficient, now))
  }

  class CentrifugoService {
    /** Every publish call issued so far, delivered or not. */
    var attempts: seq<Publication>

    /**
     * A publisher with no attempts yet. The broker's URL, the API key and
     * the HTTP client are not part of this model.
     */
    constructor ()
      ensures attempts == []
    {
      attempts := [];
    }

    /**
     * Issues one publish call. `failure` is the transport's answer:
     * `Some(cause)` when the request could not be sent or the broker did
     * not answer with status 200.
     */
    method PublishCoefficientUpdate(eventID: nat, marketID: nat, oldCoeff: real, newCoeff: real,
                                    now: Time, failure: Option<string>)
      returns (err: Option<string>)
      modifies this
      ensures attempts == old(attempts) + [CoefficientUpdate(eventID, marketID, oldCoeff, newCoeff, now)]
      ensures failure.None? ==> err.None?
      ensures failure.Some? ==> err == Some("failed to publish to channel " + Channel + ": " + failure.value)
    {
      attempts := attempts + [CoefficientUpdate(eventID, marketID, oldCoeff, newCoeff, now)];
      if failure.Some? {
        return Some("failed to publish to channel " + Channel + ": " + failure.value);
      }
      return None;
    }
  }
}
