/** The firmware of the sensing buoy (mcu/src/main.cpp): the command
    interpreter run on every message from the broker, the scanner that reads
    the target id out of a beacon command, and the two timer rules of the main
    loop. The board is abstracted to a record: the MOSFET that powers the
    sensors and the beacon LED become boolean fields, and `millis()` becomes
    the `now` parameter of each transition, a 32-bit counter that wraps. */
module Device {
  import opened Strings

  /** `unsigned long` on the ESP32 is 32 bits wide. */
  const TWO32: int := 0x1_0000_0000
  type U32 = x: int | 0 <= x < TWO32

  /** The range of the 32-bit `long` that `String::toInt` returns. */
  const LONG_MIN: int := -0x8000_0000
  const LONG_MAX: int := 0x7FFF_FFFF

  /** `0004` in the source is an octal literal; it equals 4. */
  const DEVICE_ID: int := 4

  const BEACON_TOPIC: string := "mcu/beacon_mode"
  const SET_INTERVAL: string := "set_data_interval"
  const SENSORS_ON: string := "sensors_on"
  const ID_KEY: string := "\"id\""

  const INITIAL_INTERVAL: U32 := 5000
  const BEACON_DURATION: U32 := 300000
  const BLINK_PERIOD: U32 := 500

  /** The characters C's `isspace` accepts in the default locale. */
  const C_SPACE: set<char> := {' ', '\t', '\n', '\U{B}', '\U{C}', '\r'}

  /** Reduction into `unsigned long`. */
  function Wrap(x: int): U32 {
    x % TWO32
  }

  /** `now - since` in `unsigned long` arithmetic: the time since `since`
      as long as less than 2^32 ms have passed. */
  function Elapsed(now: U32, since: U32): U32 {
    Wrap(now - since)
  }

  /** Reading the clock `d` ms after `t` gives back `d`, across a wrap of
      the counter too. */
  lemma ElapsedAfter(t: U32, d: int)
    requires 0 <= d < TWO32
    ensures Elapsed(Wrap(t + d), t) == d
  {
    if t + d < TWO32 {
      assert Wrap(t + d) == t + d;
    } else {
      assert Wrap(t + d) == t + d - TWO32;
      assert Wrap(t + d) - t == d - TWO32;
    }
  }

  datatype DeviceState = DeviceState(
    publishInterval: U32,
    sensorsOn: bool,
    sensorPower: bool,  // level written to POWER_MOSFET
    lastPublish: U32,
    beaconActive: bool,
    beaconStart: U32,
    lastBlink: U32,
    ledOn: bool)        // level of BEACON_LED_PIN

  /** The globals' initial values, with `setup` having powered the sensors
      and switched the LED off. */
  const Boot: DeviceState :=
    DeviceState(INITIAL_INTERVAL, true, true, 0, false, 0, 0, false)

  // ---------- numbers in text ----------

  /** `strtol`'s saturation at the ends of a 32-bit `long`. */
  function Clamp(v: int): (r: int)
    ensures LONG_MIN <= r <= LONG_MAX
    ensures LONG_MIN <= v <= LONG_MAX ==> r == v
    ensures v > LONG_MAX ==> r == LONG_MAX
    ensures v < LONG_MIN ==> r == LONG_MIN
  {
    if v > LONG_MAX then LONG_MAX else if v < LONG_MIN then LONG_MIN else v
  }

  /** The first index at or after `i` that is not C whitespace. */
  function SkipSpace(s: string, i: nat): (j: nat)
    requires i <= |s|
    ensures i <= j <= |s|
    ensures forall k :: i <= k < j ==> s[k] in C_SPACE
    ensures j < |s| ==> s[j] !in C_SPACE
    decreases |s| - i
  {
    if i < |s| && s[i] in C_SPACE then SkipSpace(s, i + 1) else i
  }

  /** The first index at or after `i` that is not a digit. */
  function SkipDigits(s: string, i: nat): (j: nat)
    requires i <= |s|
    ensures i <= j <= |s|
    ensures forall k :: i <= k < j ==> IsDigit(s[k])
    ensures j < |s| ==> !IsDigit(s[j])
    decreases |s| - i
  {
    if i < |s| && IsDigit(s[i]) then SkipDigits(s, i + 1) else i
  }

  /** The first index at or after `i` that holds a digit, or `|s|`. */
  function SkipNonDigits(s: string, i: nat): (j: nat)
    requires i <= |s|
    ensures i <= j <= |s|
    ensures forall k :: i <= k < j ==> !IsDigit(s[k])
    ensures j < |s| ==> IsDigit(s[j])
    decreases |s| - i
  {
    if i < |s| && !IsDigit(s[i]) then SkipNonDigits(s, i + 1) else i
  }

  /** `String::toInt`, which is the C library's `atol`: leading whitespace,
      an optional sign, then the longest run of digits; no digits read as 0,
      and values beyond a 32-bit `long` saturate as in `strtol`. */
  function Atol(s: string): (r: int)
    ensures LONG_MIN <= r <= LONG_MAX
  {
    var a := SkipSpace(s, 0);
    var neg := a < |s| && s[a] == '-';
    var b := if a < |s| && (s[a] == '-' || s[a] == '+') then a + 1 else a;
    var e := SkipDigits(s, b);
    var v: int := DigitsValue(s[b..e]);
    Clamp(if neg then -v else v)
  }

  /** On a string of digits, `atol` is the decimal value, saturated. */
  lemma AtolDigits(ds: string)
    requires AllDigits(ds)
    ensures Atol(ds) == Clamp(DigitsValue(ds))
  {
    if |ds| > 0 {
      assert ds[0] !in C_SPACE;
      assert SkipSpace(ds, 0) == 0;
    }
    assert ds[0..|ds|] == ds;
  }

  // ---------- extractId ----------

  /** `k` is the first `"id"` in `msg` and `c` the first ':' at or after it. */
  ghost predicate IdColonAt(msg: string, k: int, c: int) {
    FirstOccurrenceFrom(msg, ID_KEY, 0, k) && FirstOccurrenceFrom(msg, ":", k, c)
  }

  /** `msg[i..j]` is the first maximal run of digits after index `c`: the
      characters from `c + 1` to `i` are not digits, and the run is empty
      only when it reaches the end of `msg`. */
  ghost predicate DigitRunAfter(msg: string, c: int, i: int, j: int) {
    && 0 <= c < i
    && i <= j <= |msg|
    && (forall k :: c < k < i ==> !IsDigit(msg[k]))
    && (forall k :: i <= k < j ==> IsDigit(msg[k]))
    && (i < |msg| ==> IsDigit(msg[i]))
    && (j < |msg| ==> !IsDigit(msg[j]))
  }

  /** The digit run after a colon is determined by the message. */
  lemma DigitRunUnique(msg: string, c: int, i1: int, j1: int, i2: int, j2: int)
    requires DigitRunAfter(msg, c, i1, j1) && DigitRunAfter(msg, c, i2, j2)
    ensures i1 == i2 && j1 == j2
  {
  }

  lemma FirstOccurrenceUnique(s: string, pat: string, from: int, k1: int, k2: int)
    requires FirstOccurrenceFrom(s, pat, from, k1) && FirstOccurrenceFrom(s, pat, from, k2)
    ensures k1 == k2
  {
  }

  /** `extractId`: -1 unless the message holds `"id"` followed (at any
      distance) by ':'; otherwise the value of the first run of digits after
      that colon, skipping anything else, a minus sign included. Such a run
      always exists (`DigitRunExists`) and is unique. */
  function ExtractId(msg: string): (id: int)
    ensures id == -1 <==> !exists k, c :: IdColonAt(msg, k, c)
    ensures id != -1 ==> 0 <= id <= LONG_MAX
    ensures forall k, c, i, j :: IdColonAt(msg, k, c) && DigitRunAfter(msg, c, i, j) ==>
      id == Clamp(DigitsValue(msg[i..j]))
  {
    var idIndex := IndexOf(msg, ID_KEY, 0);
    if idIndex == -1 then
      -1
    else
      var colon := IndexOf(msg, ":", idIndex);
      if colon == -1 then
        assert forall k, c :: IdColonAt(msg, k, c) ==> k == idIndex;
        -1
      else
        var start := SkipNonDigits(msg, colon + 1);
        var end := SkipDigits(msg, start);
        assert IdColonAt(msg, idIndex, colon);
        assert DigitRunAfter(msg, colon, start, end);
        RunDetermined(msg, idIndex, colon, start, end);
        AtolDigits(msg[start..end]);
        Atol(msg[start..end])
  }

  /** After any colon inside the message there is a digit run, possibly
      empty at the end of the message. */
  lemma DigitRunExists(msg: string, c: nat)
    requires c < |msg|
    ensures exists i, j :: DigitRunAfter(msg, c, i, j)
  {
    var i := SkipNonDigits(msg, c + 1);
    assert DigitRunAfter(msg, c, i, SkipDigits(msg, i));
  }

  /** One `"id"`, colon and digit run fix all others. */
  lemma RunDetermined(msg: string, k: int, c: int, i: int, j: int)
    requires IdColonAt(msg, k, c) && DigitRunAfter(msg, c, i, j)
    ensures forall k', c', i', j' :: IdColonAt(msg, k', c') && DigitRunAfter(msg, c', i', j') ==>
      i' == i && j' == j
  {
    forall k', c', i', j' | IdColonAt(msg, k', c') && DigitRunAfter(msg, c', i', j')
      ensures i' == i && j' == j
    {
      IdColonUnique(msg, k, c, k', c');
      DigitRunUnique(msg, c, i, j, i', j');
    }
  }

  lemma IdColonUnique(msg: string, k: int, c: int, k': int, c': int)
    requires IdColonAt(msg, k, c) && IdColonAt(msg, k', c')
    ensures k == k' && c == c'
  {
    FirstOccurrenceUnique(msg, ID_KEY, 0, k, k');
    FirstOccurrenceUnique(msg, ":", k, c, c');
  }

  // ---------- mqttCallback ----------

  /** The message as `mqttCallback` matches it: `trim()` then `toLowerCase()`. */
  function Normalize(payload: string): string {
    ToLower(Trim(payload, C_SPACE))
  }

  /** `msg.substring(msg.lastIndexOf(' ') + 1)`: the longest suffix free of
      spaces, the whole message when it has none. */
  function LastToken(m: string): (t: string)
    ensures ' ' !in t
    ensures |t| <= |m| && m[|m| - |t|..] == t
    ensures |t| < |m| ==> m[|m| - |t| - 1] == ' '
  {
    m[LastIndexOf(m, ' ') + 1..]
  }

  /** The interval a `set_data_interval` message leaves behind: the value
      after the last space in seconds, turned into milliseconds in 32-bit
      arithmetic, when it is positive; the old interval otherwise. */
  function IntervalAfter(m: string, current: U32): U32 {
    var value := Atol(LastToken(m));
    if value > 0 then Wrap(value * 1000) else current
  }

  /** The `sensors_on` branch: "true" anywhere in the message switches the
      sensors and their power on, and is looked for first; otherwise "false"
      switches them off; otherwise nothing changes. */
  function SwitchSensors(s: DeviceState, m: string): (s': DeviceState)
    ensures s' == s.(sensorsOn := s'.sensorsOn, sensorPower := s'.sensorPower)
    ensures Contains(m, "true") ==> s'.sensorsOn && s'.sensorPower
    ensures !Contains(m, "true") && Contains(m, "false") ==> !s'.sensorsOn && !s'.sensorPower
    ensures !Contains(m, "true") && !Contains(m, "false") ==> s' == s
  {
    if IndexOf(m, "true", 0) != -1 then s.(sensorsOn := true, sensorPower := true)
    else if IndexOf(m, "false", 0) != -1 then s.(sensorsOn := false, sensorPower := false)
    else s
  }

  /** The `mcu/beacon_mode` branch: the beacon starts, with both its clock
      and the blink clock at `now`, only when the id in the message is this
      device's. */
  function TriggerBeacon(s: DeviceState, m: string, now: U32): (s': DeviceState)
    ensures s' == s.(beaconActive := s'.beaconActive, beaconStart := s'.beaconStart, lastBlink := s'.lastBlink)
    ensures ExtractId(m) == DEVICE_ID ==> s' == s.(beaconActive := true, beaconStart := now, lastBlink := now)
    ensures ExtractId(m) != DEVICE_ID ==> s' == s
  {
    if ExtractId(m) == DEVICE_ID then s.(beaconActive := true, beaconStart := now, lastBlink := now)
    else s
  }

  /** `mqttCallback`: the normalised message is matched against the
      `set_data_interval` prefix, then the `sensors_on` prefix, then the topic
      is compared with `mcu/beacon_mode`; the first match alone acts. Each
      branch touches only its own fields, and a message matching nothing
      changes nothing. */
  function HandleCommand(s: DeviceState, topic: string, payload: string, now: U32): (s': DeviceState)
    ensures IsPrefix(SET_INTERVAL, Normalize(payload)) ==>
      s' == s.(publishInterval := s'.publishInterval)
    ensures !IsPrefix(SET_INTERVAL, Normalize(payload)) && IsPrefix(SENSORS_ON, Normalize(payload)) ==>
      s' == s.(sensorsOn := s'.sensorsOn, sensorPower := s'.sensorPower)
    ensures && !IsPrefix(SET_INTERVAL, Normalize(payload))
            && !IsPrefix(SENSORS_ON, Normalize(payload))
            && topic == BEACON_TOPIC
      ==>
      s' == s.(beaconActive := s'.beaconActive, beaconStart := s'.beaconStart, lastBlink := s'.lastBlink)
    ensures && !IsPrefix(SET_INTERVAL, Normalize(payload))
            && !IsPrefix(SENSORS_ON, Normalize(payload))
            && topic != BEACON_TOPIC
      ==> s' == s
  {
    var m := Normalize(payload);
    if IsPrefix(SET_INTERVAL, m) then s.(publishInterval := IntervalAfter(m, s.publishInterval))
    else if IsPrefix(SENSORS_ON, m) then SwitchSensors(s, m)
    else if topic == BEACON_TOPIC then TriggerBeacon(s, m, now)
    else s
  }

  /** A `set_data_interval` message sets the interval to the positive value
      after its last space times 1000, reduced to 32 bits, and leaves it
      alone when that value is not positive. */
  lemma SetIntervalEffect(s: DeviceState, topic: string, payload: string, now: U32)
    requires IsPrefix(SET_INTERVAL, Normalize(payload))
    ensures var v := Atol(LastToken(Normalize(payload)));
      var s' := HandleCommand(s, topic, payload, now);
      && (v > 0 ==> s'.publishInterval == Wrap(v * 1000))
      && (v <= 0 ==> s' == s)
  {
  }

  /** On the `sensors_on` branch the message acts through `SwitchSensors`. */
  lemma SensorsEffect(s: DeviceState, topic: string, payload: string, now: U32)
    requires var m := Normalize(payload); !IsPrefix(SET_INTERVAL, m) && IsPrefix(SENSORS_ON, m)
    ensures HandleCommand(s, topic, payload, now) == SwitchSensors(s, Normalize(payload))
  {
  }

  /** On the beacon topic, a message matching neither prefix acts through
      `TriggerBeacon`. */
  lemma BeaconEffect(s: DeviceState, payload: string, now: U32)
    requires var m := Normalize(payload); !IsPrefix(SET_INTERVAL, m) && !IsPrefix(SENSORS_ON, m)
    ensures HandleCommand(s, BEACON_TOPIC, payload, now) == TriggerBeacon(s, Normalize(payload), now)
  {
  }

  /** The command `set_data_interval <v>` with `v` in decimal. */
  function IntervalMessage(v: nat): string {
    SET_INTERVAL + " " + Decimal(v)
  }

  /** `set_data_interval <v>`, with `v` written in decimal and within a
      `long`, sets the interval to `v * 1000` reduced to 32 bits. */
  lemma {:induction false} IntervalCommandValue(s: DeviceState, topic: string, v: nat, now: U32)
    requires 0 < v <= LONG_MAX
    ensures HandleCommand(s, topic, IntervalMessage(v), now).publishInterval == Wrap(v * 1000)
  {
    var p := IntervalMessage(v);
    IntervalMessageReads(v);
    SetIntervalEffect(s, topic, p, now);
  }

  /** The device reads back the value the command was written with. */
  lemma IntervalMessageReads(v: nat)
    requires v <= LONG_MAX
    ensures var m := Normalize(IntervalMessage(v));
      IsPrefix(SET_INTERVAL, m) && Atol(LastToken(m)) == v
  {
    var d := Decimal(v);
    IntervalMessageShape(d);
    AtolDigits(d);
    DecimalRoundTrip(v);
  }

  lemma IntervalMessageShape(d: string)
    requires |d| >= 1 && AllDigits(d)
    ensures var p := SET_INTERVAL + " " + d;
      Normalize(p) == p && IsPrefix(SET_INTERVAL, p) && LastToken(p) == d
  {
    CommandShape(SET_INTERVAL, d);
  }

  /** `<word> <digits>` with a lower-case word without spaces passes
      normalisation unchanged, starts with the word and ends in the digits. */
  lemma CommandShape(w: string, d: string)
    requires |w| >= 1 && w[0] !in C_SPACE
    requires forall k :: 0 <= k < |w| ==> w[k] != ' ' && !('A' <= w[k] <= 'Z')
    requires |d| >= 1 && AllDigits(d)
    ensures var p := w + " " + d;
      Normalize(p) == p && IsPrefix(w, p) && LastToken(p) == d
  {
    var p := w + " " + d;
    assert forall k :: 0 <= k < |d| ==> d[k] != ' ' && !('A' <= d[k] <= 'Z');
    assert p[0] == w[0];
    assert p[|p| - 1] == d[|d| - 1];
    TrimNoOp(p, C_SPACE);
    assert forall k :: 0 <= k < |p| ==> !('A' <= p[k] <= 'Z') by {
      forall k | 0 <= k < |p|
        ensures !('A' <= p[k] <= 'Z')
      {
        if k < |w| {
          assert p[k] == w[k];
        } else if k > |w| {
          assert p[k] == d[k - |w| - 1];
        }
      }
    }
    ToLowerNoOp(p);
    PrefixOfConcat(w, " ", d);
    LastTokenAfterSpace(w + " ", d);
  }

  /** The most seconds whose milliseconds fit in 32 bits. */
  const MAX_INTERVAL_SECONDS: nat := 4294967

  /** While `v * 1000` fits in 32 bits the interval is exactly `v` seconds. */
  lemma {:induction false} IntervalCommandSeconds(s: DeviceState, topic: string, v: nat, now: U32)
    requires 0 < v <= MAX_INTERVAL_SECONDS
    ensures HandleCommand(s, topic, IntervalMessage(v), now).publishInterval == v * 1000
  {
    IntervalCommandValue(s, topic, v, now);
    WrapSmall(v * 1000);
  }

  lemma WrapSmall(x: int)
    requires 0 <= x < TWO32
    ensures Wrap(x) == x
  {
  }

  /** `(unsigned long)value * 1000UL` wraps: a positive value that is a
      multiple of 2^29 (such as 536870912) sets an interval of 0, after which
      every pass of the loop publishes. */
  lemma {:induction false} IntervalWrapsToZero(s: DeviceState, topic: string, v: nat, now: U32)
    requires 0 < v <= LONG_MAX && v % 0x2000_0000 == 0
    ensures HandleCommand(s, topic, IntervalMessage(v), now).publishInterval == 0
  {
    IntervalCommandValue(s, topic, v, now);
    var k := v / 0x2000_0000;
    assert v * 1000 == (k * 125) * TWO32;
    MultipleWrapsToZero(k * 125);
  }

  lemma MultipleWrapsToZero(q: nat)
    ensures Wrap(q * TWO32) == 0
  {
  }

  lemma PrefixOfConcat(a: string, b: string, c: string)
    ensures IsPrefix(a, a + b + c)
  {
    assert (a + b + c)[..|a|] == a;
  }

  lemma LastTokenAfterSpace(a: string, t: string)
    requires |a| > 0 && a[|a| - 1] == ' ' && ' ' !in t
    ensures LastToken(a + t) == t
  {
    var m := a + t;
    assert m[|a| - 1] == ' ';
    assert forall k :: |a| <= k < |m| ==> m[k] == t[k - |a|] && t[k - |a|] in t;
    assert LastIndexOf(m, ' ') == |a| - 1;
  }

  // ---------- loop ----------

  /** What one pass of the publish rule leaves: the new state and whether a
      telemetry message went out. */
  datatype PublishOutcome = PublishOutcome(state: DeviceState, published: bool)

  /** The publish rule of `loop`: publish when the sensors are on and at
      least `publishInterval` ms have elapsed since the last publish, and
      remember `now` as the last publish. */
  function PublishStep(s: DeviceState, now: U32): (r: PublishOutcome)
    ensures r.published <==> s.sensorsOn && Elapsed(now, s.lastPublish) >= s.publishInterval
    ensures r.published ==> r.state == s.(lastPublish := now)
    ensures !r.published ==> r.state == s
  {
    if s.sensorsOn && Elapsed(now, s.lastPublish) >= s.publishInterval then
      PublishOutcome(s.(lastPublish := now), true)
    else
      PublishOutcome(s, false)
  }

  /** In real time: with the sensors on, a pass `d` ms after the last publish
      (`d` below 2^32) publishes exactly when `d` has reached the interval,
      even when the counter wrapped in between. */
  lemma PublishDueAfter(s: DeviceState, d: int)
    requires s.sensorsOn && 0 <= d < TWO32
    ensures PublishStep(s, Wrap(s.lastPublish + d)).published <==> d >= s.publishInterval
  {
    ElapsedAfter(s.lastPublish, d);
  }

  /** After a publish, no pass earlier than one interval later publishes. */
  lemma NoPublishWithinInterval(s: DeviceState, now: U32, d: int)
    requires PublishStep(s, now).published
    requires 0 <= d < s.publishInterval
    ensures !PublishStep(PublishStep(s, now).state, Wrap(now + d)).published
  {
    ElapsedAfter(now, d);
  }

  /** The beacon rule of `loop`: an active beacon ends, LED off, once
      `BEACON_DURATION` ms have elapsed since it started; before that the LED
      toggles whenever `BLINK_PERIOD` ms have elapsed since the last toggle. */
  function BeaconStep(s: DeviceState, now: U32): (s': DeviceState)
    ensures !s.beaconActive ==> s' == s
    ensures s.beaconActive && Elapsed(now, s.beaconStart) >= BEACON_DURATION ==>
      s' == s.(beaconActive := false, ledOn := false)
    ensures s.beaconActive && Elapsed(now, s.beaconStart) < BEACON_DURATION ==>
      && s'.beaconActive
      && (s'.ledOn != s.ledOn <==> Elapsed(now, s.lastBlink) >= BLINK_PERIOD)
      && (s'.ledOn != s.ledOn ==> s' == s.(ledOn := !s.ledOn, lastBlink := now))
      && (s'.ledOn == s.ledOn ==> s' == s)
  {
    if !s.beaconActive then s
    else if Elapsed(now, s.beaconStart) >= BEACON_DURATION then
      s.(beaconActive := false, ledOn := false)
    else if Elapsed(now, s.lastBlink) >= BLINK_PERIOD then
      s.(lastBlink := now, ledOn := !s.ledOn)
    else s
  }

  /** In real time: a pass `d` ms after the beacon started (`d` below 2^32)
      finds it still active exactly when `d` is under five minutes. */
  lemma BeaconLifetime(s: DeviceState, d: int)
    requires s.beaconActive && 0 <= d < TWO32
    ensures BeaconStep(s, Wrap(s.beaconStart + d)).beaconActive <==> d < BEACON_DURATION
  {
    ElapsedAfter(s.beaconStart, d);
  }

  /** In real time: while the beacon is within its five minutes, a pass
      `d` ms after the last toggle toggles the LED exactly when `d` has
      reached the blink period. */
  lemma BlinkDueAfter(s: DeviceState, d: int)
    requires s.beaconActive && 0 <= d < TWO32
    requires Elapsed(Wrap(s.lastBlink + d), s.beaconStart) < BEACON_DURATION
    ensures BeaconStep(s, Wrap(s.lastBlink + d)).ledOn != s.ledOn <==> d >= BLINK_PERIOD
  {
    ElapsedAfter(s.lastBlink, d);
  }

  /** A message whose first `"id"` and colon are followed by no digits at
      all reads as id 0, which is no device's beacon. */
  lemma EmptyRunReadsZero(msg: string, k: int, c: int)
    requires IdColonAt(msg, k, c) && DigitRunAfter(msg, c, |msg|, |msg|)
    ensures ExtractId(msg) == 0
  {
    assert msg[|msg|..|msg|] == [];
  }

  /** A beacon command received at `t` keeps the beacon on and the LED
      steady for any pass less than a blink period later. */
  lemma NoBlinkRightAfterActivation(s: DeviceState, payload: string, t: U32, d: int)
    requires var m := Normalize(payload);
      !IsPrefix(SET_INTERVAL, m) && !IsPrefix(SENSORS_ON, m) && ExtractId(m) == DEVICE_ID
    requires 0 <= d < BLINK_PERIOD
    ensures var s' := HandleCommand(s, BEACON_TOPIC, payload, t);
      BeaconStep(s', Wrap(t + d)) == s'
  {
    ElapsedAfter(t, d);
  }

  /** One pass of `loop` after the broker's callbacks: the publish rule at
      the first clock reading, then the beacon rule at a second reading
      (the source calls `millis()` again, after the slow sensor reads). */
  function Tick(s: DeviceState, publishNow: U32, beaconNow: U32): PublishOutcome {
    var p := PublishStep(s, publishNow);
    PublishOutcome(BeaconStep(p.state, beaconNow), p.published)
  }

  /** The two timer rules never touch each other's fields, nor the
      interval and sensor switch that only commands change. */
  lemma TickFrame(s: DeviceState, publishNow: U32, beaconNow: U32)
    ensures var s' := Tick(s, publishNow, beaconNow).state;
      && s'.publishInterval == s.publishInterval
      && s'.sensorsOn == s.sensorsOn
      && s'.sensorPower == s.sensorPower
      && s'.beaconStart == s.beaconStart
      && (s'.lastPublish != s.lastPublish ==> s'.lastPublish == publishNow)
      && (s'.lastBlink != s.lastBlink ==> s'.lastBlink == beaconNow)
  {
  }
}
