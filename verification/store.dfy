/** The `sensor_readings` table and the ingestion handler that fills it
    (server/server.js, the broker's "message" handler). The table is an
    append-only sequence of rows whose ids the store assigns in increasing
    order; `JSON.parse` is abstracted to its outcome (`None` when it throws),
    and the database's acceptance of an insert is a parameter. */
module Store {
  import opened Options

  /** A value `JSON.parse` can produce. Numbers are opaque reals: the model
      only moves them around. */
  datatype Json =
    | JNull
    | JBool(b: bool)
    | JNumber(n: real)
    | JString(s: string)
    | JArray(items: seq<Json>)
    | JObject(members: map<string, Json>)

  /** The six columns the INSERT fills, in its column order. */
  datatype Measurements = Measurements(
    deviceId: Json,
    tdsRaw: Json,
    tdsVolt: Json,
    turbRaw: Json,
    turbVolt: Json,
    tempC: Json)

  /** A stored row: the store-assigned id and write time, and the columns. */
  datatype Reading = Reading(id: nat, timestamp: string, values: Measurements)

  datatype Store = Store(rows: seq<Reading>, nextId: nat)

  /** Ids increase strictly along the table and stay below the next id the
      auto-increment counter hands out. */
  predicate Valid(st: Store) {
    && (forall i, j :: 0 <= i < j < |st.rows| ==> st.rows[i].id < st.rows[j].id)
    && (forall i :: 0 <= i < |st.rows| ==> st.rows[i].id < st.nextId)
  }

  type Table = st: Store | Valid(st) witness Store([], 1)

  /** A fresh table; MySQL's auto-increment starts at 1. */
  const EmptyTable: Table := Store([], 1)

  /** `json.<name>` on a value that is not `null`: the member of an object,
      and `undefined` (None) for a missing member or any other kind of value. */
  function Property(j: Json, name: string): (r: Option<Json>)
    requires !j.JNull?
    ensures r.Some? <==> j.JObject? && name in j.members
    ensures r.Some? ==> r.value == j.members[name]
  {
    if j.JObject? && name in j.members then Some(j.members[name]) else None
  }

  /** `json.<name> ?? null`: null for undefined and for null, the value
      itself for everything else, `0`, `""` and `false` included. */
  function FieldOrNull(j: Json, name: string): (v: Json)
    requires !j.JNull?
    ensures v.JNull? <==> !(j.JObject? && name in j.members) || j.members[name].JNull?
    ensures !v.JNull? ==> v == j.members[name]
  {
    Property(j, name).GetOr(JNull)
  }

  /** The parameters of the INSERT for a parsed payload. */
  function RowValues(j: Json): Measurements
    requires !j.JNull?
  {
    Measurements(
      FieldOrNull(j, "device_id"),
      FieldOrNull(j, "tds_raw"),
      FieldOrNull(j, "tds_volt"),
      FieldOrNull(j, "turb_raw"),
      FieldOrNull(j, "turb_volt"),
      FieldOrNull(j, "temp_c"))
  }

  /** Anything that is not an object, a bare number for one, has none of the
      six members and becomes a row of nulls. */
  lemma NonObjectGivesNullRow(j: Json)
    requires !j.JNull? && !j.JObject?
    ensures RowValues(j) == Measurements(JNull, JNull, JNull, JNull, JNull, JNull)
  {
  }

  /** The auto-increment insert: one row with the next id, written at `now`. */
  function Insert(t: Table, values: Measurements, now: string): (t': Table)
    ensures t'.rows == t.rows + [Reading(t.nextId, now, values)]
    ensures t'.nextId > t.nextId
  {
    Store(t.rows + [Reading(t.nextId, now, values)], t.nextId + 1)
  }

  /** Why a message was dropped: `JSON.parse` threw, the payload was `null`
      (reading a member of it throws), or the insert failed. */
  datatype Drop = ParseError | NullPayload | WriteError

  datatype IngestOutcome = Saved(row: Reading) | Dropped(reason: Drop)

  datatype IngestResult = IngestResult(table: Table, outcome: IngestOutcome)

  /** The "message" handler: parse, build the six parameters, insert. Every
      failure is caught inside the handler, so it always returns. */
  function Ingest(t: Table, parsed: Option<Json>, now: string, writeOk: bool): (r: IngestResult)
    ensures r.outcome.Saved? <==> parsed.Some? && !parsed.value.JNull? && writeOk
    ensures r.outcome.Dropped? ==> r.table == t
    ensures parsed.None? ==> r.outcome == Dropped(ParseError)
    ensures parsed == Some(JNull) ==> r.outcome == Dropped(NullPayload)
    ensures r.outcome.Saved? ==>
      && r.outcome.row.values == RowValues(parsed.value)
      && r.outcome.row.timestamp == now
      && r.table.rows == t.rows + [r.outcome.row]
      && (forall i :: 0 <= i < |t.rows| ==> t.rows[i].id < r.outcome.row.id)
  {
    match parsed
    case None => IngestResult(t, Dropped(ParseError))
    case Some(j) =>
      if j.JNull? then IngestResult(t, Dropped(NullPayload))
      else if !writeOk then IngestResult(t, Dropped(WriteError))
      else
        var t' := Insert(t, RowValues(j), now);
        IngestResult(t', Saved(t'.rows[|t.rows|]))
  }

  /** One message as the handler sees it: what `JSON.parse` made of it, the
      store's clock at the write, and whether the write succeeded. */
  datatype Delivery = Delivery(parsed: Option<Json>, now: string, writeOk: bool)

  predicate Accepts(d: Delivery) {
    d.parsed.Some? && !d.parsed.value.JNull? && d.writeOk
  }

  /** The handler run on each delivery in turn. */
  function IngestAll(t: Table, ds: seq<Delivery>): Table
    decreases |ds|
  {
    if |ds| == 0 then t
    else IngestAll(Ingest(t, ds[0].parsed, ds[0].now, ds[0].writeOk).table, ds[1..])
  }

  /** The column values of the deliveries that get written, in order. */
  function Accepted(ds: seq<Delivery>): seq<Measurements>
  {
    if |ds| == 0 then []
    else if Accepts(ds[0]) then [RowValues(ds[0].parsed.value)] + Accepted(ds[1..])
    else Accepted(ds[1..])
  }

  /** The column values of a run of rows. */
  function Values(rows: seq<Reading>): (vs: seq<Measurements>)
    ensures |vs| == |rows|
    ensures forall i :: 0 <= i < |rows| ==> vs[i] == rows[i].values
  {
    seq(|rows|, i requires 0 <= i < |rows| => rows[i].values)
  }

  /** Ingesting a stream keeps every existing row and appends one row per
      accepted message, in arrival order, so that id order is arrival order;
      dropped messages leave no trace and do not stop later ones. */
  lemma {:induction false} IngestAllAppends(t: Table, ds: seq<Delivery>)
    ensures var t' := IngestAll(t, ds);
      && |t.rows| <= |t'.rows|
      && t'.rows[..|t.rows|] == t.rows
      && Values(t'.rows[|t.rows|..]) == Accepted(ds)
    decreases |ds|
  {
    if |ds| == 0 {
      assert IngestAll(t, ds).rows[|t.rows|..] == [];
    } else {
      var r := Ingest(t, ds[0].parsed, ds[0].now, ds[0].writeOk);
      IngestAllAppends(r.table, ds[1..]);
      var out := IngestAll(r.table, ds[1..]).rows;
      assert IngestAll(t, ds).rows == out;
      if Accepts(ds[0]) {
        assert r.table.rows == t.rows + [r.outcome.row];
        assert Accepted(ds) == [r.outcome.row.values] + Accepted(ds[1..]);
        ShiftOne(t.rows, r.outcome.row, out);
      } else {
        assert r.table == t;
        assert Accepted(ds) == Accepted(ds[1..]);
      }
    }
  }

  /** The bookkeeping step of `IngestAllAppends`: rows that extend
      `rows + [row]` extend `rows`, and their new part is `row` and then
      the part after it. */
  lemma ShiftOne(rows: seq<Reading>, row: Reading, out: seq<Reading>)
    requires |rows| + 1 <= |out| && out[..|rows| + 1] == rows + [row]
    ensures out[..|rows|] == rows
    ensures Values(out[|rows|..]) == [row.values] + Values(out[|rows| + 1..])
  {
    assert out[..|rows|] == out[..|rows| + 1][..|rows|];
    assert out[|rows|] == out[..|rows| + 1][|rows|];
    assert out[|rows|..] == [row] + out[|rows| + 1..];
  }

  /** A malformed message between two good ones is dropped and the good one
      after it is still stored. */
  lemma MalformedMessageIsIsolated(t: Table, bad: Delivery, good: Delivery)
    requires bad.parsed.None? && Accepts(good)
    ensures var t' := IngestAll(t, [bad, good]);
      |t'.rows| == |t.rows| + 1 && t'.rows[|t.rows|].values == RowValues(good.parsed.value)
  {
    IngestAllAppends(t, [bad, good]);
    assert [bad, good][1..] == [good];
    assert [good][1..] == [];
    assert Accepted([good]) == [RowValues(good.parsed.value)];
    assert Accepted([bad, good]) == Accepted([good]);
    var t' := IngestAll(t, [bad, good]);
    assert Values(t'.rows[|t.rows|..])[0] == t'.rows[|t.rows|].values;
  }
}
