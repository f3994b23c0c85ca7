# Water-quality buoy: device commands, telemetry store and dashboard queries

The buoy is an ESP32 board. It publishes sensor readings over MQTT and obeys three commands from the broker:
- `set_data_interval <seconds>`;
- `sensors_on true|false`;
- a beacon request `{"id":<n>}` on `mcu/beacon_mode`, which blinks an LED for five minutes.

A Node.js server does four things:
- it stores every telemetry message in the MySQL table `sensor_readings`;
- it serves the newest row, the last fifty rows and a time range of rows;
- it publishes the beacon request when the dashboard's button is pressed;
- it reads its database credentials from a `key=value` file.

This project models those cores as pure Dafny functions over immutable data and proves what they promise.

Modules, one per part of the system:

- `Strings`: the string operations both sides use. These are substring search, trimming against a whitespace set, ASCII lower-casing, splitting on one character, and decimal digit strings.
- `Device` (mcu/src/main.cpp):
  - the firmware's globals, as a `DeviceState` record;
  - `extractId`;
  - the `mqttCallback` branches;
  - the publish and beacon timer rules of `loop`.

  `millis()` is a parameter. It is a 32-bit counter that wraps, and all time differences are taken modulo 2^32 as `unsigned long` arithmetic does. `String::toInt` is `atol`, saturating at the ends of a 32-bit `long`.
- `Store` (server/server.js:109-135): the ingestion handler and the append-only table. Row ids increase strictly; this is the subset type `Table`.
- `DateTimes`: DATETIME text `YYYY-MM-DD HH:MM:SS` and MySQL's order on it, the packed number YYYYMMDDHHMMSS. For text of that shape, character order is that order.
- `Queries` (server/server.js:25-76): `/api/live/latest`, `/api/history/latest50` and `/api/history`.
- `Http`: the replies (status and JSON body).
- `Command` (server/server.js:80-91): the beacon command endpoint.
- `Credentials` (server/db.js:10-16): the credentials parser.
- `Protocol`: the server and the device together. The payload the server publishes is read back by the device.

In these details the code differs from what its names and comments suggest; the model follows the code:
- `DEVICE_ID` is written `0004`, an octal literal equal to 4.
- The initial publish interval is 5 s; the comment says 30 s.
- `set_data_interval` multiplies in 32 bits, so a large value wraps. `Device.IntervalWrapsToZero` shows a value that leaves an interval of 0.
- `replace("T", " ")` replaces only the first `T`.
- The credentials parser drops the text after a second `=` in a line.

## Model

| member | source | states |
|---|---|---|
| Device.ElapsedAfter | mcu/src/main.cpp:189-190 | `now - since` in `unsigned long` arithmetic gives back the real delay below 2^32 ms, across a wrap of the counter too |
| Device.AtolDigits | mcu/src/main.cpp:66 | on a run of digits `toInt` is the decimal value of the digits, saturated |
| Device.ExtractId | mcu/src/main.cpp:52-67 | -1 exactly when the message lacks `"id"` followed by ':'; otherwise the saturated value of the first digit run after the first ':' after the first `"id"`, never negative |
| Device.DigitRunExists | mcu/src/main.cpp:59-63 | after any colon the two scanning loops find a digit run, possibly empty at the end of the message |
| Device.RunDetermined | mcu/src/main.cpp:53-63 | the first `"id"`, the first colon after it and the digit run after that are unique, so the id read is determined |
| Device.EmptyRunReadsZero | mcu/src/main.cpp:59-66 | a message with no digit after its colon reads as id 0 |
| Device.LastToken | mcu/src/main.cpp:101 | `substring(lastIndexOf(' ') + 1)` is the longest space-free suffix, preceded by a space unless it is the whole message |
| Device.SwitchSensors | mcu/src/main.cpp:104-111 | "true" anywhere switches sensors and power on and takes precedence; otherwise "false" switches them off; otherwise nothing changes; no other field changes |
| Device.TriggerBeacon | mcu/src/main.cpp:113-122 | the beacon starts with both clocks at `now` exactly when the extracted id is 4; otherwise the state is unchanged; only beacon fields change |
| Device.HandleCommand | mcu/src/main.cpp:91-125 | the trimmed, lower-cased message is matched against `set_data_interval`, then `sensors_on`, then the beacon topic; the first match alone acts and touches only its own fields; no match changes nothing |
| Device.SetIntervalEffect | mcu/src/main.cpp:100-102 | a `set_data_interval` message sets the interval to the positive value after its last space times 1000 mod 2^32, and changes nothing when that value is not positive |
| Device.SensorsEffect | mcu/src/main.cpp:104-111 | a `sensors_on` message that is not an interval command acts only through the sensor switch |
| Device.BeaconEffect | mcu/src/main.cpp:113-122 | on the beacon topic a message matching neither prefix acts only through the beacon trigger |
| Device.IntervalMessageReads | mcu/src/main.cpp:97-101 | the command `set_data_interval <v>` survives normalisation and reads back `v` |
| Device.IntervalCommandValue | mcu/src/main.cpp:100-102 | `set_data_interval <v>` for `0 < v` within a `long` sets the interval to `v * 1000` mod 2^32 |
| Device.IntervalCommandSeconds | mcu/src/main.cpp:100-102 | up to 4294967 seconds the interval becomes exactly `v * 1000` ms |
| Device.IntervalWrapsToZero | mcu/src/main.cpp:102 | a positive multiple of 2^29 seconds wraps to an interval of 0 ms |
| Device.CommandShape | mcu/src/main.cpp:97-101 | a lower-case word, a space and digits are left alone by `trim` and `toLowerCase`, start with the word and end in the digits |
| Device.PublishStep | mcu/src/main.cpp:189-191 | a telemetry message goes out exactly when the sensors are on and the wrapped time since the last publish reaches the interval; only `lastPublish` changes, to `now` |
| Device.PublishDueAfter | mcu/src/main.cpp:189-191 | with the sensors on, a pass `d` ms after the last publish publishes exactly when `d` reaches the interval, across a counter wrap too |
| Device.NoPublishWithinInterval | mcu/src/main.cpp:189-191 | after a publish no pass less than one interval later publishes |
| Device.BeaconStep | mcu/src/main.cpp:221-235 | an active beacon ends with the LED off once 300000 ms have elapsed; before that the LED toggles, recording `now`, exactly when 500 ms have elapsed since the last toggle |
| Device.BeaconLifetime | mcu/src/main.cpp:225-228 | a pass `d` ms after the beacon started finds it still active exactly when `d` is under five minutes |
| Device.BlinkDueAfter | mcu/src/main.cpp:229-234 | within the five minutes, a pass `d` ms after the last toggle toggles the LED exactly when `d` is at least 500 |
| Device.NoBlinkRightAfterActivation | mcu/src/main.cpp:113-122 | after activation the LED does not toggle for one blink period |
| Device.TickFrame | mcu/src/main.cpp:184-236 | one pass of `loop` never changes the interval, the sensor switch or the beacon start; `lastPublish` and `lastBlink` change only to their clock readings |
| Store.FieldOrNull | server/server.js:121-126 | `?? null` gives null for a missing or null member and the member itself otherwise, falsy values included |
| Store.NonObjectGivesNullRow | server/server.js:120-127 | a payload that is not an object, such as a bare number, becomes a row of six nulls |
| Store.Ingest | server/server.js:109-135 | a row is saved exactly when the payload parses, is not `null` and the write succeeds; then it holds the six `?? null` fields, is appended after every row and has a larger id; any failure leaves the table unchanged |
| Store.IngestAllAppends | server/server.js:109-135 | over a stream of messages, existing rows are kept and the new rows' values are exactly the accepted messages' values in arrival order |
| Store.MalformedMessageIsIsolated | server/server.js:110-134 | an unparsable message is dropped and the good message after it is still stored |
| Queries.ByIdDesc | server/server.js:28 | `ORDER BY id DESC` is a permutation of the table strictly descending by id |
| Queries.Latest | server/server.js:27-30 | `ORDER BY id DESC LIMIT 1` is a row of the table with the largest id, and none for an empty table |
| Queries.LiveLatest | server/server.js:25-34 | `/api/live/latest` answers the last-inserted row, `{}` for an empty table, and a 500 with the error when the query fails |
| Queries.LatestAfterIngest | server/server.js:25-34 | a row just ingested is what the next `latest` returns, whatever its timestamp |
| Queries.Latest50 | server/server.js:67-76 | the reply holds the newest `min(50, n)` rows, oldest first, all newer than any row left out |
| Queries.ReverseTakeReverse | server/server.js:70-72 | taking `k` rows in descending order and reversing them yields the last `min(k, n)` rows in table order |
| Queries.HistoryLatest50 | server/server.js:67-76 | `/api/history/latest50` answers 200 with the last `min(50, n)` rows of the table in table order, or a 500 with the error when the query fails |
| Queries.Filter | server/server.js:53 | `BETWEEN` keeps exactly the rows whose timestamps lie between the bounds, both included |
| Queries.SortByTime | server/server.js:53 | `ORDER BY timestamp ASC` is a permutation in non-decreasing timestamp order |
| Queries.RangeRows | server/server.js:52-56 | the range query returns the rows in the window and no other row, in timestamp order, no row twice |
| Queries.ReplaceFirstT | server/server.js:48-49 | `replace("T", " ")` changes only the first `T`, and nothing when there is none |
| Queries.History | server/server.js:40-60 | 400 unless both bounds are truthy; no reply when a bound is an array or object; otherwise the range rows between the normalised bounds, or a 500 when the query fails |
| Queries.MissingBoundIgnoresStore | server/server.js:43-45 | a request missing a bound gets the same 400 whatever the table and the database |
| Queries.DateTimeLocal | server/server.js:47-49 | a `datetime-local` value `date T time` becomes `date time` |
| Queries.WholeMinuteInWindow | server/server.js:48-53 | for `from = to =` one minute, every second 00 to 59 of that minute is inside the window |
| Queries.WholeMinuteReturned | server/server.js:40-57 | a row stamped within the requested minute is in the reply |
| Queries.MinuteBound | server/server.js:48-49 | a `datetime-local` minute with `:SS` appended is a DATETIME text, worth the minute shifted by two digits plus the seconds |
| Queries.BoundsPacked | server/server.js:48-49 | the bounds are second 00 of the `from` minute and second 59 of the `to` minute |
| Queries.WindowByPacked | server/server.js:53 | over DATETIME rows and bounds, the window holds exactly the rows whose DATETIME value lies between the bounds', in ascending DATETIME order |
| Queries.HistoryChronological | server/server.js:40-60 | for `datetime-local` bounds, `/api/history` returns exactly the rows from second 00 of `from` to second 59 of `to`, in chronological order, as MySQL compares DATETIME values |
| DateTimes.LexLeIsPacked | server/server.js:53 | on texts with digits in the same places and the same separators, character order is the order of the digits read as one number |
| DateTimes.DateTimeOrder | server/server.js:53 | two `YYYY-MM-DD HH:MM:SS` texts compare by character exactly as their DATETIME values compare |
| DateTimes.PackedAppend | server/server.js:48-49 | appending `:SS` shifts the packed value by two digits and adds the seconds |
| Command.EncodeIdInjective | server/server.js:82 | different ids encode differently |
| Command.BeaconPublication | server/server.js:81-84 | the endpoint publishes `{"id":4}` on `mcu/beacon_mode` with QoS 1 |
| Command.BeaconReply | server/server.js:84-91 | 200 `{status: "ok", command: "beacon"}` when the publish succeeds, 500 `{error: "MQTT publish failed", details}` otherwise |
| Credentials.ParseLine | server/db.js:12-14 | a line is stored exactly when the text before its first '=' and the text from there to the next '=' are both non-empty; key and value are those texts trimmed of JavaScript whitespace |
| Credentials.ApplyLast | server/db.js:11-16 | after the assignments a key is present exactly when some stored line names it and it is not `__proto__`, with the value of the last such line |
| Credentials.ParseLinesSpec | server/db.js:10-16 | a key is in the credentials exactly when a stored line names it and it is not `__proto__`; its value comes from the last such line, so a later line overrides an earlier one |
| Credentials.FileOfLines | server/db.js:11 | a file written as lines joined by newlines is read back line by line |
| Credentials.ParseLineAt | server/db.js:12-13 | `key=rest` is stored exactly when `key` and the part of `rest` before its next '=' are both non-empty |
| Credentials.KeyValueLine | server/db.js:12-14 | `key=value` without further '=' stores the trimmed pair |
| Credentials.CarriageReturnIgnored | server/db.js:11-14 | a Windows line ending changes nothing for a stored line |
| Credentials.BlankValueStoredEmpty | server/db.js:13-14 | `key=` followed only by whitespace passes the truthiness test and stores an empty value |
| Credentials.ValueCutAtEquals | server/db.js:12 | `key=a=b` stores `a`: text after a second '=' is dropped |
| Credentials.DoubleEqualsSkipped | server/db.js:12-13 | `key==...` has an empty value part and is skipped |
| Credentials.NoEqualsSkipped | server/db.js:12-13 | a line without '=' contributes nothing |
| Credentials.EmptyKeySkipped | server/db.js:12-13 | a line starting with '=' is skipped |
| Credentials.BlankKeyStoredEmpty | server/db.js:13-14 | a key part of only whitespace is truthy, so the value is stored under the empty key |
| Protocol.EncodeIdNormal | mcu/src/main.cpp:97-98 | the server's payload is left alone by the device's `trim` and `toLowerCase` |
| Protocol.ReadsDigitsAfterGap | mcu/src/main.cpp:52-67 | `{"id":`, any digit-free text, and the decimal digits of `n` read as `n` |
| Protocol.MinusSignSkipped | mcu/src/main.cpp:59-60 | `{"id": -4}` reads as 4: the sign is skipped, not applied |
| Protocol.ExtractEncodedId | server/server.js:82 | the device reads back every id the server encodes that fits in a `long` |
| Protocol.EncodedIdCommand | mcu/src/main.cpp:113-122 | an encoded id on the beacon topic starts the beacon exactly when it is 4, and otherwise changes nothing |
| Protocol.BeaconButtonActivates | server/server.js:80-84 | the dashboard's beacon payload goes out on the topic the device obeys, and starts device 4's beacon from any state |
| Strings.IndexOf | mcu/src/main.cpp:53-56 | `indexOf(pat, from)` is the first occurrence at or after `from`, or -1 exactly when there is none |
| Strings.LastIndexOf | mcu/src/main.cpp:101 | `lastIndexOf(c)` is the last index holding `c`, or -1 exactly when there is none |
| Strings.TrimIsMiddle | mcu/src/main.cpp:97 | `trim` keeps the contiguous middle that starts and ends outside the whitespace set, and removes only whitespace |
| Strings.Split | server/db.js:11-12 | `split(sep)` yields at least one part, no part holds `sep`, and joining the parts with `sep` gives back the text |
| Strings.SplitJoin | server/db.js:11-12 | splitting a join of separator-free parts gives back the parts |
| Strings.DecimalRoundTrip | server/server.js:82 | the decimal text of `n` reads back as `n` |

## Left out

- Device.HandleCommand: assumes the payload holds no NUL byte. The source appends the raw bytes to an Arduino `String`. Its `startsWith`, `indexOf`, `toLowerCase` and `toInt` are C-string routines that stop at the first NUL, so a message with a NUL can act differently from the model's reading of the whole text.
- Device.ExtractId: assumes no NUL byte in the message, for the same reason. `indexOf` stops at the first NUL, while the digit scan goes by the `String`'s length.
- Device.HandleCommand: the two `millis()` calls at beacon activation (main.cpp:119-120) are one `now`; they differ at most by the time between two calls.
- Device: WiFi and MQTT connection and reconnection, `setup`, and the re-publish after a failed publish (main.cpp:213-216) are I/O.
- Device: the analog and temperature reads and the telemetry payload's float formatting (main.cpp:193-210) are hardware and floating-point output. The model records only that a publish happened.
- Store.Ingest: `JSON.parse` is abstracted to its outcome, an `Option<Json>` with `None` when it throws. Numbers are opaque reals, and MySQL's coercion of a value into a column type is not modelled.
- Store.Insert: the row's timestamp is the store clock's reading, passed in as `now`.
- Queries.History: a bound that is not a `datetime-local` minute (with seconds, or with one-digit fields) gives text MySQL parses leniently into a DATETIME. The model compares it character by character, which agrees with MySQL only for `YYYY-MM-DDTHH:MM` bounds and `YYYY-MM-DD HH:MM:SS` rows (`Queries.HistoryChronological`).
- Queries.History: the `None` outcome for an array or object bound stands for the exception thrown before any reply. What the client then sees depends on Express's handling of a rejected async handler, which is outside the model.
- Queries.History: the rows carry timestamps as DATETIME text. The driver returns `Date` objects that `res.json` writes as ISO-8601 text.
- Queries.RangeRows: MySQL leaves the order of rows with equal timestamps unspecified. The model's sort keeps id order among them, and the contract states only sortedness and the set of rows, each once.
- Queries.LiveLatest: the `details: err` of a database error is the error's text; the serialised error object is not modelled.
- Command.BeaconReply: the broker and its delivery are outside the model; the callback's error, if any, is a parameter.
- Command.EncodeId: `JSON.stringify` of numbers of 10^21 and more uses exponent form, which is not modelled; the server sends only 4.
- Credentials: reading `logins.txt` (db.js:7-8) is the `text` parameter, and the connection pool (db.js:18-25) is not modelled.
- Express routing, static files and the MQTT subscription are framework wiring. server/public/js/history.js is not part of this model.
- Requests running at the same time on the server are not modelled. Each handler is one atomic step on the table.
