/** The three read handlers of server/server.js, each as a function of the
    table: the newest row (`/api/live/latest`), the last fifty rows
    (`/api/history/latest50`) and a time range (`/api/history`). The SQL is
    modelled by what it states: `ORDER BY id DESC LIMIT k` and
    `WHERE timestamp BETWEEN ? AND ? ORDER BY timestamp ASC`. A failing query
    is the `fault` parameter. Timestamps are DATETIME text
    `YYYY-MM-DD HH:MM:SS`, compared character by character, which for text
    of that shape is MySQL's chronological order (`HistoryChronological`). */
module Queries {
  import opened Options
  import opened Strings
  import opened Store
  import opened Http
  import opened DateTimes

  // ---------- id order ----------

  function Reverse<T>(xs: seq<T>): (r: seq<T>)
    ensures |r| == |xs|
    ensures forall i :: 0 <= i < |xs| ==> r[i] == xs[|xs| - 1 - i]
  {
    seq(|xs|, i requires 0 <= i < |xs| => xs[|xs| - 1 - i])
  }

  function Take<T>(xs: seq<T>, k: nat): (r: seq<T>)
    ensures |r| == if k < |xs| then k else |xs|
    ensures r == xs[..|r|]
  {
    if k < |xs| then xs[..k] else xs
  }

  function Min(a: nat, b: nat): nat {
    if a < b then a else b
  }

  /** `ORDER BY id DESC`: since ids increase along the table, the table read
      backwards is strictly descending by id, which is the only such order. */
  function ByIdDesc(t: Table): (r: seq<Reading>)
    ensures |r| == |t.rows|
    ensures forall i, j :: 0 <= i < j < |r| ==> r[i].id > r[j].id
    ensures multiset(r) == multiset(t.rows)
  {
    ReverseMultiset(t.rows);
    Reverse(t.rows)
  }

  lemma {:induction false} ReverseMultiset<T>(xs: seq<T>)
    ensures multiset(Reverse(xs)) == multiset(xs)
    decreases |xs|
  {
    if |xs| > 0 {
      var init := xs[..|xs| - 1];
      ReverseMultiset(init);
      assert Reverse(xs) == [xs[|xs| - 1]] + Reverse(init);
      assert xs == init + [xs[|xs| - 1]];
    }
  }

  /** `/api/live/latest`: `ORDER BY id DESC LIMIT 1`, and `{}` when that
      gives no row. */
  function Latest(t: Table): (r: Option<Reading>)
    ensures r.None? <==> |t.rows| == 0
    ensures r.Some? ==> r.value in t.rows && forall x <- t.rows :: x.id <= r.value.id
  {
    var top := Take(ByIdDesc(t), 1);
    if |top| == 0 then None else Some(top[0])
  }

  function LiveLatest(t: Table, fault: Option<string>): (resp: Response)
    ensures fault.Some? ==> resp == DbError(fault.value)
    ensures fault.None? && |t.rows| == 0 ==> resp == Response(200, EmptyObject)
    ensures fault.None? && |t.rows| > 0 ==> resp == Response(200, Row(t.rows[|t.rows| - 1]))
  {
    if fault.Some? then DbError(fault.value)
    else match Latest(t)
      case None => Response(200, EmptyObject)
      case Some(row) => Response(200, Row(row))
  }

  /** A row written after everything in the table is what `latest` then
      returns, whatever its timestamp. */
  lemma LatestAfterIngest(t: Table, j: Json, now: string)
    requires !j.JNull?
    ensures var r := Ingest(t, Some(j), now, true);
      Latest(r.table) == Some(r.outcome.row)
  {
  }

  /** The rows `/api/history/latest50` sends: `ORDER BY id DESC LIMIT 50`,
      then `reverse()`. They are the newest `min(50, n)` rows, oldest first:
      exactly the tail of the table. */
  function Latest50(t: Table): (r: seq<Reading>)
    ensures |r| == Min(50, |t.rows|)
    ensures r == t.rows[|t.rows| - |r|..]
    ensures forall i, j :: 0 <= i < j < |r| ==> r[i].id < r[j].id
    ensures forall x, y :: x in t.rows && x !in r && y in r ==> x.id < y.id
  {
    var r := Reverse(Take(ByIdDesc(t), 50));
    ReverseTakeReverse(t.rows, 50);
    TailHoldsNewest(t, |t.rows| - |r|);
    r
  }

  /** Taking `k` from the reversed sequence and reversing back leaves the
      last `min(k, n)` elements in their original order. */
  lemma ReverseTakeReverse<T>(xs: seq<T>, k: nat)
    ensures Reverse(Take(Reverse(xs), k)) == xs[|xs| - Min(k, |xs|)..]
  {
    var n := |xs|;
    var rev := Reverse(xs);
    var top := Take(rev, k);
    var r := Reverse(top);
    var m := Min(k, n);
    assert |top| == m;
    forall i | 0 <= i < m
      ensures r[i] == xs[n - m + i]
    {
      var j := m - 1 - i;
      assert r[i] == top[j];
      assert top[j] == rev[j];
      assert rev[j] == xs[n - 1 - j];
    }
    assert r == xs[n - m..];
  }

  /** Every row before position `p` is older than every row from `p` on. */
  lemma TailHoldsNewest(t: Table, p: nat)
    requires p <= |t.rows|
    ensures forall x, y :: x in t.rows && x !in t.rows[p..] && y in t.rows[p..] ==> x.id < y.id
  {
    forall x, y | x in t.rows && x !in t.rows[p..] && y in t.rows[p..]
      ensures x.id < y.id
    {
      var a :| 0 <= a < |t.rows| && t.rows[a] == x;
      var b :| 0 <= b < |t.rows[p..]| && t.rows[p..][b] == y;
      assert forall k :: p <= k < |t.rows| ==> t.rows[k] == t.rows[p..][k - p] && t.rows[p..][k - p] in t.rows[p..];
      assert a < p;
      assert t.rows[p + b] == y;
    }
  }

  /** `/api/history/latest50`: the newest `min(50, n)` rows of the table in
      table order, or a 500 with the error when the query fails. */
  function HistoryLatest50(t: Table, fault: Option<string>): (resp: Response)
    ensures fault.Some? ==> resp == DbError(fault.value)
    ensures fault.None? ==> resp == Response(200, Rows(t.rows[|t.rows| - Min(50, |t.rows|)..]))
  {
    if fault.Some? then DbError(fault.value) else Response(200, Rows(Latest50(t)))
  }

  // ---------- time ranges ----------

  /** `BETWEEN lo AND hi`, both ends included. */
  predicate InWindow(x: Reading, lo: string, hi: string) {
    LexLe(lo, x.timestamp) && LexLe(x.timestamp, hi)
  }

  ghost predicate SortedByTime(xs: seq<Reading>) {
    forall i, j :: 0 <= i < j < |xs| ==> LexLe(xs[i].timestamp, xs[j].timestamp)
  }

  /** The `WHERE` clause: the rows in the window, in table order. */
  function Filter(xs: seq<Reading>, lo: string, hi: string): (r: seq<Reading>)
    ensures forall x :: x in r <==> x in xs && InWindow(x, lo, hi)
    ensures |r| <= |xs|
  {
    if |xs| == 0 then []
    else
      var rest := Filter(xs[1..], lo, hi);
      assert forall x :: x in xs <==> x == xs[0] || x in xs[1..];
      if InWindow(xs[0], lo, hi) then [xs[0]] + rest else rest
  }

  /** Puts `x` in front of the first row not earlier than it; rows with
      equal timestamps keep their order. */
  function InsertByTime(x: Reading, xs: seq<Reading>): (r: seq<Reading>)
    requires SortedByTime(xs)
    ensures SortedByTime(r)
    ensures multiset(r) == multiset(xs) + multiset{x}
  {
    if |xs| == 0 then [x]
    else if LexLe(x.timestamp, xs[0].timestamp) then
      InsertFront(x, xs);
      [x] + xs
    else
      LexLeTotal(x.timestamp, xs[0].timestamp);
      var rest := InsertByTime(x, xs[1..]);
      assert xs == [xs[0]] + xs[1..];
      HeadBelowInserted(xs, x, rest);
      InsertBehind(xs[0], rest);
      [xs[0]] + rest
  }

  lemma InsertFront(x: Reading, xs: seq<Reading>)
    requires SortedByTime(xs) && |xs| > 0 && LexLe(x.timestamp, xs[0].timestamp)
    ensures SortedByTime([x] + xs)
  {
    var r := [x] + xs;
    forall i, j | 0 <= i < j < |r|
      ensures LexLe(r[i].timestamp, r[j].timestamp)
    {
      if i == 0 && j > 1 {
        LexLeTrans(x.timestamp, xs[0].timestamp, xs[j - 1].timestamp);
      }
    }
  }

  lemma HeadBelowInserted(xs: seq<Reading>, x: Reading, rest: seq<Reading>)
    requires SortedByTime(xs) && |xs| > 0 && LexLe(xs[0].timestamp, x.timestamp)
    requires multiset(rest) == multiset(xs[1..]) + multiset{x}
    ensures forall z <- rest :: LexLe(xs[0].timestamp, z.timestamp)
  {
    forall z | z in rest
      ensures LexLe(xs[0].timestamp, z.timestamp)
    {
      assert z in multiset(rest);
      if z != x {
        assert z in multiset(xs[1..]);
        var k :| 0 <= k < |xs[1..]| && xs[1..][k] == z;
        assert xs[k + 1] == z;
      }
    }
  }

  lemma InsertBehind(y: Reading, rest: seq<Reading>)
    requires SortedByTime(rest)
    requires forall z <- rest :: LexLe(y.timestamp, z.timestamp)
    ensures SortedByTime([y] + rest)
  {
    var r := [y] + rest;
    forall i, j | 0 <= i < j < |r|
      ensures LexLe(r[i].timestamp, r[j].timestamp)
    {
      if i == 0 {
        assert r[j] in rest;
      }
    }
  }

  /** `ORDER BY timestamp ASC` as a stable insertion sort: ascending by
      timestamp, the same rows. */
  function SortByTime(xs: seq<Reading>): (r: seq<Reading>)
    ensures SortedByTime(r)
    ensures multiset(r) == multiset(xs)
  {
    if |xs| == 0 then []
    else
      assert xs == [xs[0]] + xs[1..];
      InsertByTime(xs[0], SortByTime(xs[1..]))
  }

  /** The rows of the range query: exactly the rows in the window, each once,
      in ascending timestamp order. */
  function RangeRows(t: Table, lo: string, hi: string): (r: seq<Reading>)
    ensures SortedByTime(r)
    ensures forall x :: x in r <==> x in t.rows && InWindow(x, lo, hi)
    ensures multiset(r) == multiset(Filter(t.rows, lo, hi))
    ensures forall i, j :: 0 <= i < j < |r| ==> r[i] != r[j]
  {
    var f := Filter(t.rows, lo, hi);
    var r := SortByTime(f);
    assert forall x :: x in r <==> x in multiset(r);
    assert forall x :: x in f <==> x in multiset(f);
    FilterShrinks(t.rows, lo, hi);
    TableDistinct(t);
    SubDistinct(t.rows, f);
    SubDistinct(f, r);
    r
  }

  /** The filter only drops rows: it never repeats one. */
  lemma {:induction false} FilterShrinks(xs: seq<Reading>, lo: string, hi: string)
    ensures multiset(Filter(xs, lo, hi)) <= multiset(xs)
    decreases |xs|
  {
    if |xs| > 0 {
      FilterShrinks(xs[1..], lo, hi);
      assert xs == [xs[0]] + xs[1..];
      assert multiset(xs) == multiset{xs[0]} + multiset(xs[1..]);
      if InWindow(xs[0], lo, hi) {
        assert Filter(xs, lo, hi) == [xs[0]] + Filter(xs[1..], lo, hi);
      } else {
        assert Filter(xs, lo, hi) == Filter(xs[1..], lo, hi);
      }
    }
  }

  /** No two positions hold the same element. */
  predicate Distinct<T(==)>(xs: seq<T>) {
    forall i, j :: 0 <= i < j < |xs| ==> xs[i] != xs[j]
  }

  /** Rows of a table differ in their ids. */
  lemma TableDistinct(t: Table)
    ensures Distinct(t.rows)
  {
  }

  lemma {:induction false} DistinctCount<T>(xs: seq<T>, v: T)
    requires Distinct(xs)
    ensures multiset(xs)[v] <= 1
    decreases |xs|
  {
    if |xs| > 0 {
      var init := xs[..|xs| - 1];
      assert forall i :: 0 <= i < |init| ==> init[i] == xs[i];
      DistinctCount(init, v);
      assert xs == init + [xs[|xs| - 1]];
      if v == xs[|xs| - 1] {
        assert v !in init;
      }
    }
  }

  lemma RepeatCount<T>(ys: seq<T>, i: int, j: int)
    requires 0 <= i < j < |ys| && ys[i] == ys[j]
    ensures multiset(ys)[ys[i]] >= 2
  {
    assert ys == ys[..j] + [ys[j]] + ys[j + 1..];
    assert ys[..j][i] == ys[i];
  }

  /** What holds no element more often than a distinct sequence is
      distinct. */
  lemma SubDistinct<T>(xs: seq<T>, ys: seq<T>)
    requires Distinct(xs) && multiset(ys) <= multiset(xs)
    ensures Distinct(ys)
  {
    forall i, j | 0 <= i < j < |ys|
      ensures ys[i] != ys[j]
    {
      if ys[i] == ys[j] {
        RepeatCount(ys, i, j);
        DistinctCount(xs, ys[i]);
        assert false;
      }
    }
  }

  /** `s.replace("T", " ")`: only the first 'T' becomes a space. */
  function ReplaceFirstT(s: string): (r: string)
    ensures |r| == |s|
    ensures 'T' !in s ==> r == s
    ensures 'T' in s ==> exists i :: FirstTAt(s, i) && r == s[i := ' ']
  {
    var i := FirstIndex(s, 'T');
    if i == |s| then
      assert s[..i] == s;
      s
    else
      assert FirstTAt(s, i);
      s[i := ' ']
  }

  ghost predicate FirstTAt(s: string, i: int) {
    0 <= i < |s| && s[i] == 'T' && 'T' !in s[..i]
  }

  /** The bounds the query runs with: `from` with its first 'T' made a space
      and ":00" appended, `to` likewise with ":59", whatever their shape. */
  function NormalizeBounds(from: string, to: string): (string, string) {
    (ReplaceFirstT(from) + ":00", ReplaceFirstT(to) + ":59")
  }

  /** A query-string value as Express's parser gives it: absent, a string,
      or an array or object (`?from=a&from=b`, `?from[x]=1`). */
  datatype Param = Absent | Text(s: string) | Composite

  /** The value passes `!from` when it is a non-empty string, an array or
      an object. */
  predicate Truthy(p: Param) {
    p.Composite? || (p.Text? && p.s != "")
  }

  /** `/api/history`: 400 unless both bounds are truthy; the rows between
      the normalised bounds, or 500 when the query fails. When a truthy
      bound is an array or object, `from.replace` throws inside the async
      handler before any reply: `None`. */
  function History(t: Table, from: Param, to: Param, fault: Option<string>): (r: Option<Response>)
    ensures r.None? <==> Truthy(from) && Truthy(to) && (from.Composite? || to.Composite?)
    ensures !Truthy(from) || !Truthy(to) ==>
      r == Some(Response(400, Message("Missing from/to parameters")))
    ensures Truthy(from) && Truthy(to) && from.Text? && to.Text? && fault.Some? ==>
      r == Some(DbError(fault.value))
    ensures Truthy(from) && Truthy(to) && from.Text? && to.Text? && fault.None? ==>
      var b := NormalizeBounds(from.s, to.s);
      r == Some(Response(200, Rows(RangeRows(t, b.0, b.1))))
  {
    if !Truthy(from) || !Truthy(to) then Some(Response(400, Message("Missing from/to parameters")))
    else if from.Composite? || to.Composite? then None
    else
      var b := NormalizeBounds(from.s, to.s);
      if fault.Some? then Some(DbError(fault.value))
      else Some(Response(200, Rows(RangeRows(t, b.0, b.1))))
  }

  /** A request missing a bound is answered without the table: any two
      tables, and any query outcome, give the same 400. */
  lemma MissingBoundIgnoresStore(t1: Table, t2: Table, from: Param, to: Param,
                                 f1: Option<string>, f2: Option<string>)
    requires !Truthy(from) || !Truthy(to)
    ensures History(t1, from, to, f1) == History(t2, from, to, f2)
    ensures History(t1, from, to, f1).Some? && History(t1, from, to, f1).value.status == 400
  {
  }

  /** The HTML `datetime-local` shape `YYYY-MM-DDTHH:MM` becomes
      `YYYY-MM-DD HH:MM`, so the bounds cover whole minutes:
      `HH:MM:00` for `from` and `HH:MM:59` for `to`. */
  lemma DateTimeLocal(date: string, time: string)
    requires 'T' !in date
    ensures ReplaceFirstT(date + "T" + time) == date + " " + time
  {
    var s := date + "T" + time;
    assert s[|date|] == 'T';
    assert forall k :: 0 <= k < |date| ==> s[k] == date[k] && date[k] in date;
    assert FirstIndex(s, 'T') == |date|;
    assert s[|date| := ' '] == date + " " + time;
  }

  /** Two-digit seconds lie between "00" and "59" when they are at most "59". */
  lemma SecondsAtLeastZero(ss: string)
    requires |ss| == 2 && AllDigits(ss)
    ensures LexLe("00", ss)
  {
    assert IsDigit(ss[0]) && IsDigit(ss[1]);
    assert ss[1..][1..] == [];
  }

  /** Both bounds taken from the same `datetime-local` minute cover that
      whole minute: any row stamped `HH:MM:SS` of it, from second 00 to
      second 59, lies in the window. */
  lemma WholeMinuteInWindow(date: string, hm: string, ss: string, x: Reading)
    requires 'T' !in date
    requires |ss| == 2 && AllDigits(ss) && LexLe(ss, "59")
    requires x.timestamp == date + " " + hm + ":" + ss
    ensures var b := NormalizeBounds(date + "T" + hm, date + "T" + hm);
      InWindow(x, b.0, b.1)
  {
    DateTimeLocal(date, hm);
    var q := date + " " + hm + ":";
    assert date + " " + hm + ":00" == q + "00";
    assert date + " " + hm + ":59" == q + "59";
    SecondsAtLeastZero(ss);
    LexLeSharedPrefix(q, "00", ss);
    LexLeSharedPrefix(q, ss, "59");
  }

  /** A row stamped within the requested minute is among the rows
      `/api/history` returns for `from = to = that minute`. */
  lemma WholeMinuteReturned(t: Table, date: string, hm: string, ss: string, x: Reading)
    requires 'T' !in date
    requires |ss| == 2 && AllDigits(ss) && LexLe(ss, "59")
    requires x in t.rows && x.timestamp == date + " " + hm + ":" + ss
    ensures var r := History(t, Text(date + "T" + hm), Text(date + "T" + hm), None);
      r.Some? && r.value.status == 200 && r.value.body.Rows? && x in r.value.body.readings
  {
    WholeMinuteInWindow(date, hm, ss, x);
    assert (date + "T" + hm)[|date|] == 'T';
  }

  // ---------- the window as MySQL compares it ----------

  /** A `datetime-local` minute with seconds appended is a DATETIME text,
      worth the minute's packed value shifted by two digits plus the
      seconds. */
  lemma MinuteBound(m: string, tail: string)
    requires MinuteText(m)
    requires |tail| == 3 && tail[0] == ':' && IsDigit(tail[1]) && IsDigit(tail[2])
    ensures DateTimeText(ReplaceFirstT(m) + tail)
    ensures Packed(ReplaceFirstT(m) + tail) == 100 * Packed(m) + Packed(tail)
  {
    assert FirstIndex(m, 'T') == 10;
    var r := m[10 := ' '];
    assert ReplaceFirstT(m) == r;
    PackedReplace(m, 10, ' ');
    PackedAppend(r, tail);
    assert tail[1..][1..][1..] == [];
    assert tail[1..][0] == tail[1] && tail[1..][1..][0] == tail[2];
    assert DigitCount(tail[1..][1..]) == 1;
    assert DigitCount(tail) == 2;
    var s := r + tail;
    forall i | 0 <= i < 19 && i != 4 && i != 7 && i != 10 && i != 13 && i != 16
      ensures IsDigit(s[i])
    {
      if i < 16 {
        assert s[i] == m[i];
      } else {
        assert s[i] == tail[i - 16];
      }
    }
  }

  /** The seconds the two bounds append. */
  lemma BoundSeconds()
    ensures Packed(":00") == 0 && Packed(":59") == 59
  {
    assert ":00"[1..] == "00" && "00"[1..] == "0" && "0"[1..] == [];
    assert ":59"[1..] == "59" && "59"[1..] == "9" && "9"[1..] == [];
  }

  /** Over DATETIME rows and DATETIME bounds, the range rows are those whose
      packed time lies between the bounds', ascending in packed time. */
  lemma WindowByPacked(t: Table, lo: string, hi: string)
    requires DateTimeText(lo) && DateTimeText(hi)
    requires forall x <- t.rows :: DateTimeText(x.timestamp)
    ensures var rows := RangeRows(t, lo, hi);
      && (forall x :: x in rows <==> x in t.rows && Packed(lo) <= Packed(x.timestamp) <= Packed(hi))
      && (forall i, j :: 0 <= i < j < |rows| ==> Packed(rows[i].timestamp) <= Packed(rows[j].timestamp))
  {
    var rows := RangeRows(t, lo, hi);
    forall x | x in t.rows
      ensures InWindow(x, lo, hi) <==> Packed(lo) <= Packed(x.timestamp) <= Packed(hi)
    {
      DateTimeOrder(lo, x.timestamp);
      DateTimeOrder(x.timestamp, hi);
    }
    SortedByPacked(t, rows);
  }

  lemma SortedByPacked(t: Table, rows: seq<Reading>)
    requires SortedByTime(rows)
    requires forall x <- rows :: x in t.rows
    requires forall x <- t.rows :: DateTimeText(x.timestamp)
    ensures forall i, j :: 0 <= i < j < |rows| ==> Packed(rows[i].timestamp) <= Packed(rows[j].timestamp)
  {
    forall i, j | 0 <= i < j < |rows|
      ensures Packed(rows[i].timestamp) <= Packed(rows[j].timestamp)
    {
      assert rows[i] in rows && rows[j] in rows;
      DateTimeOrder(rows[i].timestamp, rows[j].timestamp);
    }
  }

  /** For `datetime-local` bounds and DATETIME rows, `/api/history` returns
      exactly the rows from second 00 of the `from` minute to second 59 of
      the `to` minute, in chronological order, as MySQL compares them. */
  lemma HistoryChronological(t: Table, from: string, to: string)
    requires MinuteText(from) && MinuteText(to)
    requires forall x <- t.rows :: DateTimeText(x.timestamp)
    ensures var r := History(t, Text(from), Text(to), None);
      && r.Some? && r.value.status == 200 && r.value.body.Rows?
      && (forall x :: x in r.value.body.readings <==>
            x in t.rows && 100 * Packed(from) <= Packed(x.timestamp) <= 100 * Packed(to) + 59)
      && (forall i, j :: 0 <= i < j < |r.value.body.readings| ==>
            Packed(r.value.body.readings[i].timestamp) <= Packed(r.value.body.readings[j].timestamp))
  {
    var b := NormalizeBounds(from, to);
    var rows := RangeRows(t, b.0, b.1);
    HistoryRows(t, from, to);
    MinuteWindow(t, from, to);
    assert History(t, Text(from), Text(to), None).value.body.readings == rows;
  }

  /** The range rows for two `datetime-local` minutes, by packed time. */
  lemma MinuteWindow(t: Table, from: string, to: string)
    requires MinuteText(from) && MinuteText(to)
    requires forall x <- t.rows :: DateTimeText(x.timestamp)
    ensures var b := NormalizeBounds(from, to);
      var rows := RangeRows(t, b.0, b.1);
      && (forall x :: x in rows <==> x in t.rows && 100 * Packed(from) <= Packed(x.timestamp) <= 100 * Packed(to) + 59)
      && (forall i, j :: 0 <= i < j < |rows| ==> Packed(rows[i].timestamp) <= Packed(rows[j].timestamp))
  {
    var b := NormalizeBounds(from, to);
    BoundsPacked(from, to);
    WindowByPacked(t, b.0, b.1);
  }

  /** The bounds built from two `datetime-local` minutes are DATETIME texts
      at second 00 and second 59 of those minutes. */
  lemma BoundsPacked(from: string, to: string)
    requires MinuteText(from) && MinuteText(to)
    ensures var b := NormalizeBounds(from, to);
      && DateTimeText(b.0) && DateTimeText(b.1)
      && Packed(b.0) == 100 * Packed(from) && Packed(b.1) == 100 * Packed(to) + 59
  {
    MinuteBound(from, ":00");
    MinuteBound(to, ":59");
    BoundSeconds();
  }

  lemma HistoryRows(t: Table, from: string, to: string)
    requires from != "" && to != ""
    ensures var b := NormalizeBounds(from, to);
      History(t, Text(from), Text(to), None) == Some(Response(200, Rows(RangeRows(t, b.0, b.1))))
  {
  }
}
