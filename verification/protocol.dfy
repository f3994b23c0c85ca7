/** The server and the device together: the command the server publishes
    is read back by the device's `extractId`, and the beacon button's
    payload starts the beacon on device 4 and on no other. */
module Protocol {
  import opened Strings
  import opened Device
  import opened Command

  /** The encoded id has neither whitespace at its ends nor capital
      letters, so the device's `trim()` and `toLowerCase()` keep it. */
  lemma EncodeIdNormal(n: nat)
    ensures Normalize(EncodeId(n)) == EncodeId(n)
  {
    var msg := EncodeId(n);
    var d := Decimal(n);
    assert msg[0] == '{' && msg[|msg| - 1] == '}';
    TrimNoOp(msg, C_SPACE);
    forall k | 0 <= k < |msg|
      ensures !('A' <= msg[k] <= 'Z')
    {
      if k < 6 {
        assert msg[k] == "{\"id\":"[k];
      } else if k < |msg| - 1 {
        assert msg[k] == d[k - 6];
      }
    }
    ToLowerNoOp(msg);
  }

  /** `{"id":` then text without digits, the decimal digits of `n`, and
      `}`: what the server sends when the gap is empty, and what a
      hand-written `{"id": -4}` looks like. */
  function IdMessage(gap: string, n: nat): string {
    "{\"id\":" + gap + Decimal(n) + "}"
  }

  /** In such a message the first `"id"` is at index 1, the first ':'
      after it at index 5, and the digit run is the decimal text of `n`. */
  lemma IdMessageLayout(gap: string, n: nat)
    requires forall k :: 0 <= k < |gap| ==> !IsDigit(gap[k])
    ensures var msg := IdMessage(gap, n);
      var i := 6 + |gap|;
      && IdColonAt(msg, 1, 5)
      && DigitRunAfter(msg, 5, i, i + |Decimal(n)|)
      && msg[i..i + |Decimal(n)|] == Decimal(n)
  {
    var msg := IdMessage(gap, n);
    var d := Decimal(n);
    var i := 6 + |gap|;
    assert msg[1..5] == ID_KEY;
    assert OccursAt(msg, ID_KEY, 1);
    assert !OccursAt(msg, ID_KEY, 0) by {
      assert msg[0] != ID_KEY[0];
    }
    assert FirstOccurrenceFrom(msg, ID_KEY, 0, 1);
    assert msg[5..6] == ":";
    forall k | 1 <= k < 5
      ensures !OccursAt(msg, ":", k)
    {
      assert msg[k..k + 1][0] == msg[k] == ID_KEY[k - 1];
    }
    assert FirstOccurrenceFrom(msg, ":", 1, 5);
    assert forall k :: 6 <= k < i ==> msg[k] == gap[k - 6];
    assert forall k :: i <= k < i + |d| ==> msg[k] == d[k - i];
    assert msg[i + |d|] == '}';
  }

  /** `extractId` skips whatever non-digits follow the colon, a minus sign
      included, and reads the digits after them. */
  lemma ReadsDigitsAfterGap(gap: string, n: nat)
    requires forall k :: 0 <= k < |gap| ==> !IsDigit(gap[k])
    requires n <= LONG_MAX
    ensures ExtractId(IdMessage(gap, n)) == n
  {
    var msg, d := IdMessage(gap, n), Decimal(n);
    var i := 6 + |gap|;
    IdMessageLayout(gap, n);
    assert IdColonAt(msg, 1, 5) && DigitRunAfter(msg, 5, i, i + |d|);
    DecimalRoundTrip(n);
    assert DigitsValue(msg[i..i + |d|]) == n;
  }

  /** `{"id": -4}` reads as device 4: the sign is skipped. */
  lemma MinusSignSkipped(n: nat)
    requires n <= LONG_MAX
    ensures ExtractId(IdMessage(" -", n)) == n
  {
    ReadsDigitsAfterGap(" -", n);
  }

  /** The device reads back the id the server encodes, for every id a
      32-bit `long` holds. */
  lemma ExtractEncodedId(n: nat)
    requires n <= LONG_MAX
    ensures ExtractId(Normalize(EncodeId(n))) == n
  {
    EncodeIdNormal(n);
    assert EncodeId(n) == IdMessage("", n);
    ReadsDigitsAfterGap("", n);
  }

  /** An encoded id sent on the beacon topic starts the beacon exactly
      when it is this device's id, and otherwise leaves the device alone. */
  lemma EncodedIdCommand(s: DeviceState, n: nat, now: U32)
    requires n <= LONG_MAX
    ensures var s' := HandleCommand(s, BEACON_TOPIC, EncodeId(n), now);
      && (n == DEVICE_ID ==> s' == s.(beaconActive := true, beaconStart := now, lastBlink := now))
      && (n != DEVICE_ID ==> s' == s)
  {
    EncodeIdNormal(n);
    var m := Normalize(EncodeId(n));
    assert m[0] == '{';
    assert !IsPrefix(SET_INTERVAL, m) by {
      assert m[0] != SET_INTERVAL[0];
    }
    assert !IsPrefix(SENSORS_ON, m) by {
      assert m[0] != SENSORS_ON[0];
    }
    ExtractEncodedId(n);
    BeaconEffect(s, EncodeId(n), now);
  }

  /** The beacon button's payload is published on the topic the device
      listens to for the beacon, and starts the beacon on device 4 whatever
      state it was in. */
  lemma BeaconButtonActivates(s: DeviceState, now: U32)
    ensures var p := BeaconPublication();
      && p.topic == BEACON_TOPIC
      && HandleCommand(s, p.topic, p.payload, now) == s.(beaconActive := true, beaconStart := now, lastBlink := now)
  {
    var p := BeaconPublication();
    assert p.payload == EncodeId(BEACON_TARGET);
    EncodedIdCommand(s, BEACON_TARGET, now);
  }
}
