/** The beacon command endpoint of server/server.js
    (`POST /api/command/beacon`): it publishes `{"id":4}` on the device's
    command topic with QoS 1 and answers once the broker client reports
    the outcome. The broker is outside the model; its callback's error, if
    any, is the `err` parameter. */
module Command {
  import opened Options
  import opened Strings
  import opened Http

  const COMMAND_TOPIC: string := "mcu/beacon_mode"

  /** The device the dashboard's beacon button addresses. */
  const BEACON_TARGET: nat := 4

  /** `JSON.stringify({ id: n })` for a non-negative integer `n` below
      10^21 (JavaScript writes larger numbers in exponent form, which this
      does not model); the server only ever sends 4. No spaces, the key
      quoted, the number in plain decimal. */
  function EncodeId(n: nat): (s: string)
    ensures |s| == 7 + |Decimal(n)|
    ensures s[..6] == "{\"id\":" && s[6..|s| - 1] == Decimal(n) && s[|s| - 1] == '}'
  {
    "{\"id\":" + Decimal(n) + "}"
  }

  /** The number in an encoded id is the digits between ':' and '}', so
      different ids encode differently. */
  lemma EncodeIdInjective(a: nat, b: nat)
    requires EncodeId(a) == EncodeId(b)
    ensures a == b
  {
    assert Decimal(a) == EncodeId(a)[6..|EncodeId(a)| - 1];
    DecimalRoundTrip(a);
    DecimalRoundTrip(b);
  }

  datatype Publication = Publication(topic: string, payload: string, qos: nat)

  /** What the endpoint hands to the broker client. */
  function BeaconPublication(): (p: Publication)
    ensures p.topic == COMMAND_TOPIC && p.qos == 1
    ensures p.payload == "{\"id\":4}"
  {
    assert Decimal(BEACON_TARGET) == "4";
    Publication(COMMAND_TOPIC, EncodeId(BEACON_TARGET), 1)
  }

  /** The reply, sent from the publish callback: 200 with
      `{status: "ok", command: "beacon"}` when the publish succeeded, 500
      with the error's text otherwise. The request body is never read. */
  function BeaconReply(err: Option<string>): (resp: Response)
    ensures resp.status == 200 <==> err.None?
    ensures err.None? ==> resp.body == Ack("ok", "beacon")
    ensures err.Some? ==> resp == Response(500, Error("MQTT publish failed", err.value))
  {
    match err
    case None => Response(200, Ack("ok", "beacon"))
    case Some(e) => Response(500, Error("MQTT publish failed", e))
  }
}
