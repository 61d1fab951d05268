/**
  The query logic behind the routes of the climate API (SurfsUp/app.py),
  over the `measurement` and `station` tables given as sequences of rows in
  scan order. Every operation is a function of the two tables and its
  arguments; none changes them.
 */
module Climate {

  import opened Outcomes
  import opened TextOrder
  import opened Calendar
  import opened IsoDate
  import opened Rows
  import opened Aggregates

  /** A row of the `measurement` table; `prcp` may be NULL. */
  datatype Measurement = Measurement(station: string, date: string, prcp: Option<real>, tobs: real)

  /** A row of the `station` table; the routes read only its id. */
  datatype Station = Station(station: string)

  /**
    The ways a route fails: the table is empty (the latest date or the most
    active station is None), the latest date does not parse, or stepping back
    a year leaves the range of representable dates.
   */
  datatype Failure = NoMeasurements | MalformedDate(text: string) | DateOutOfRange

  /** The trailing window is a fixed count of days, not a calendar year. */
  const WindowDays: nat := 365

  function DateOf(m: Measurement): string { m.date }

  /** `func.max(Measurement.date)`: the greatest date string, or None over no rows. */
  function MaxDate(ms: seq<Measurement>): (r: Option<string>)
    ensures r.None? <==> |ms| == 0
    ensures r.Some? ==> exists i | 0 <= i < |ms| :: ms[i].date == r.value
    ensures r.Some? ==> forall i | 0 <= i < |ms| :: LexLe(ms[i].date, r.value)
  {
    if |ms| == 0 then None
    else
      var dates := Select(ms, DateOf);
      var latest := LexMax(dates);
      assert forall i | 0 <= i < |ms| :: dates[i] in dates;
      Some(latest)
  }

  /**
    `strptime(latest, "%Y-%m-%d") - timedelta(days=365)`: the first day of
    the trailing window, counted back from the latest measurement date.
   */
  function WindowStart(ms: seq<Measurement>): (r: Result<Date, Failure>)
    ensures |ms| == 0 <==> r == Err(NoMeasurements)
    ensures |ms| > 0 ==>
      var latest := MaxDate(ms).value;
      && (Parse(latest).None? <==> r == Err(MalformedDate(latest)))
      && (Parse(latest).Some? ==>
            && (ToOrdinal(Parse(latest).value) <= WindowDays <==> r == Err(DateOutOfRange))
            && (ToOrdinal(Parse(latest).value) > WindowDays ==> r.Ok?)
            && (r.Ok? ==> ValidDate(r.value) && ToOrdinal(r.value) == ToOrdinal(Parse(latest).value) - WindowDays))
  {
    match MaxDate(ms)
    case None => Err(NoMeasurements)
    case Some(latest) =>
      match Parse(latest)
      case None => Err(MalformedDate(latest))
      case Some(d) =>
        match SubtractDays(d, WindowDays)
        case None => Err(DateOutOfRange)
        case Some(w) => Ok(w)
  }

  /** The window start as the ISO string the date column is compared with. */
  function WindowText(ms: seq<Measurement>): (r: Result<string, Failure>)
    ensures r.Ok? <==> WindowStart(ms).Ok?
    ensures r.Ok? ==> HasIsoShape(r.value) && Parse(r.value) == Some(WindowStart(ms).value)
    ensures r.Err? ==> r.error == WindowStart(ms).error
  {
    match WindowStart(ms)
    case Err(e) => Err(e)
    case Ok(w) =>
      ParseFormat(w);
      Ok(Format(w))
  }

  lemma FormatOfLatestExample()
    ensures Format(Date(2017, 8, 23)) == "2017-08-23"
    ensures Format(Date(2016, 8, 23)) == "2016-08-23"
  {
    assert Pad2(20) == "20" && Pad2(17) == "17" && Pad2(16) == "16";
    assert Pad2(8) == "08" && Pad2(23) == "23";
  }

  lemma OrdinalOfLatestExample()
    ensures ToOrdinal(Date(2017, 8, 23)) == ToOrdinal(Date(2016, 8, 23)) + WindowDays
  {
    assert DaysBeforeYear(2017) == DaysBeforeYear(2016) + 366;
    assert DaysBeforeMonth(2017, 8) == 212 && DaysBeforeMonth(2016, 8) == 213;
  }

  /** With the latest measurement on 2017-08-23 the window opens on 2016-08-23. */
  lemma WindowOfLatestExample(ms: seq<Measurement>)
    requires MaxDate(ms) == Some("2017-08-23")
    ensures WindowStart(ms) == Ok(Date(2016, 8, 23))
    ensures WindowText(ms) == Ok("2016-08-23")
  {
    var latest, start := Date(2017, 8, 23), Date(2016, 8, 23);
    FormatOfLatestExample();
    ParseFormat(latest);
    assert Parse("2017-08-23") == Some(latest);
    OrdinalOfLatestExample();
    var w := WindowStart(ms).value;
    ToOrdinalInjective(w, start);
  }

  lemma FormatOfLeapExample()
    ensures Format(Date(2015, 8, 24)) == "2015-08-24"
  {
    assert Pad2(20) == "20" && Pad2(15) == "15";
    assert Pad2(8) == "08" && Pad2(24) == "24";
  }

  lemma OrdinalOfLeapExample()
    ensures ToOrdinal(Date(2016, 8, 23)) == ToOrdinal(Date(2015, 8, 24)) + WindowDays
  {
    assert DaysBeforeYear(2016) == DaysBeforeYear(2015) + 365;
    assert DaysBeforeMonth(2016, 8) == 213 && DaysBeforeMonth(2015, 8) == 212;
  }

  /**
    A window that contains 2016-02-29: 365 days before 2016-08-23 is
    2015-08-24, one day short of a calendar year.
   */
  lemma WindowAcrossLeapDayExample(ms: seq<Measurement>)
    requires MaxDate(ms) == Some("2016-08-23")
    ensures WindowStart(ms) == Ok(Date(2015, 8, 24))
    ensures WindowText(ms) == Ok("2015-08-24")
  {
    var latest, start := Date(2016, 8, 23), Date(2015, 8, 24);
    FormatOfLatestExample();
    FormatOfLeapExample();
    ParseFormat(latest);
    assert Parse("2016-08-23") == Some(latest);
    OrdinalOfLeapExample();
    var w := WindowStart(ms).value;
    ToOrdinalInjective(w, start);
  }

  // ---------------------------------------------------------------------
  // precipitation: date -> prcp over the trailing window

  /** `.filter(Measurement.date >= start)`, comparing ISO date strings. */
  function OnOrAfter(start: string): Measurement -> bool
  {
    (m: Measurement) => LexLe(start, m.date)
  }

  function DatePrcp(m: Measurement): (string, Option<real>) { (m.date, m.prcp) }

  /** `session.query(Measurement.date, Measurement.prcp).filter(date >= start).all()`. */
  function PrecipitationRows(ms: seq<Measurement>, start: string): seq<(string, Option<real>)>
  {
    Select(Where(ms, OnOrAfter(start)), DatePrcp)
  }

  /**
    `{date: prcp for date, prcp in rows}`: each row in turn sets the entry for
    its date, so a later row overwrites an earlier one with the same date.
   */
  function DateMap(rows: seq<(string, Option<real>)>): (p: map<string, Option<real>>)
    ensures IsLastRowMap(rows, p)
  {
    if |rows| == 0 then map[]
    else
      var front, last := rows[..|rows| - 1], rows[|rows| - 1];
      assert rows == front + [last];
      LastRowMapSnoc(front, DateMap(front), last);
      DateMap(front)[last.0 := last.1]
  }

  /**
    What a dict comprehension over `rows` builds: one key per distinct first
    component, and for each key the second component of the last row with it.
   */
  ghost predicate IsLastRowMap(rows: seq<(string, Option<real>)>, p: map<string, Option<real>>)
  {
    && (forall k :: k in p <==> exists i | 0 <= i < |rows| :: rows[i].0 == k)
    && (forall k | k in p :: exists i | 0 <= i < |rows| ::
          rows[i].0 == k && p[k] == rows[i].1 && forall j | i < j < |rows| :: rows[j].0 != k)
  }

  /** Setting the entry of one more row keeps the map a last-row map. */
  lemma LastRowMapSnoc(rows: seq<(string, Option<real>)>, p: map<string, Option<real>>, row: (string, Option<real>))
    requires IsLastRowMap(rows, p)
    ensures IsLastRowMap(rows + [row], p[row.0 := row.1])
  {
    var rows', p' := rows + [row], p[row.0 := row.1];
    forall k
      ensures k in p' <==> exists i | 0 <= i < |rows'| :: rows'[i].0 == k
    {
      if k in p && k != row.0 {
        var i :| 0 <= i < |rows| && rows[i].0 == k;
        assert rows'[i].0 == k;
      }
      if k == row.0 {
        assert rows'[|rows|].0 == k;
      }
      if exists i | 0 <= i < |rows'| :: rows'[i].0 == k {
        var i :| 0 <= i < |rows'| && rows'[i].0 == k;
        if i < |rows| {
          assert rows[i].0 == k;
        }
      }
    }
    forall k | k in p'
      ensures exists i | 0 <= i < |rows'| ::
        rows'[i].0 == k && p'[k] == rows'[i].1 && forall j | i < j < |rows'| :: rows'[j].0 != k
    {
      if k == row.0 {
        assert rows'[|rows|] == row;
      } else {
        var i :| 0 <= i < |rows| && rows[i].0 == k && p[k] == rows[i].1 && forall j | i < j < |rows| :: rows[j].0 != k;
        assert rows'[i] == rows[i];
        assert forall j | i < j < |rows'| :: rows'[j].0 != k;
      }
    }
  }

  /** Some measurement row carries date `k`. */
  ghost predicate HasDate(ms: seq<Measurement>, k: string)
  {
    exists i | 0 <= i < |ms| :: ms[i].date == k
  }

  /** Row `i` is the last row, in scan order, dated `k`. */
  ghost predicate IsLastWithDate(ms: seq<Measurement>, i: int, k: string)
  {
    0 <= i < |ms| && ms[i].date == k && forall j | i < j < |ms| :: ms[j].date != k
  }

  /**
    What the precipitation result must be: one key per distinct date on or
    after `start`, no other key, and for each key the prcp of the last row
    in scan order that carries that date.
   */
  ghost predicate IsWindowPrecipitation(ms: seq<Measurement>, start: string, p: map<string, Option<real>>)
  {
    && (forall k :: k in p <==> LexLe(start, k) && HasDate(ms, k))
    && (forall k | k in p :: exists i :: IsLastWithDate(ms, i, k) && p[k] == ms[i].prcp)
  }

  /** Adding one row at the end of the scan extends the rows by that row if it is in the window. */
  lemma PrecipitationRowsSnoc(ms: seq<Measurement>, m: Measurement, start: string)
    ensures PrecipitationRows(ms + [m], start) ==
      PrecipitationRows(ms, start) + (if LexLe(start, m.date) then [(m.date, m.prcp)] else [])
  {
    var keep := OnOrAfter(start);
    var tail := Where([m], keep);
    WhereAppend(ms, [m], keep);
    WhereSingle(m, keep);
    assert keep(m) == LexLe(start, m.date);
    SelectAppend(Where(ms, keep), tail, DatePrcp);
    if keep(m) {
      assert Select(tail, DatePrcp) == [(m.date, m.prcp)];
    } else {
      assert Select(tail, DatePrcp) == [];
    }
  }

  /** The in-window rows are the (date, prcp) of the kept measurements, at increasing positions. */
  lemma PrecipitationRowsSelect(ms: seq<Measurement>, start: string)
    ensures IsSelection(ms, OnOrAfter(start), KeptIndices(ms, OnOrAfter(start)))
    ensures |PrecipitationRows(ms, start)| == |KeptIndices(ms, OnOrAfter(start))|
    ensures forall i | 0 <= i < |KeptIndices(ms, OnOrAfter(start))| ::
      PrecipitationRows(ms, start)[i] == DatePrcp(ms[KeptIndices(ms, OnOrAfter(start))[i]])
  {
    WhereIsSelection(ms, OnOrAfter(start));
  }

  lemma PrecipitationKeys(ms: seq<Measurement>, start: string)
    ensures forall k :: k in DateMap(PrecipitationRows(ms, start)) <==> LexLe(start, k) && HasDate(ms, k)
  {
    forall k
      ensures k in DateMap(PrecipitationRows(ms, start)) <==> LexLe(start, k) && HasDate(ms, k)
    {
      PrecipitationKey(ms, start, k);
    }
  }

  /**
    The keys of the precipitation result, stated over any selection of the
    rows whose dates are `>=` start and any last-row map built from it.
   */
  lemma SelectedDateKeys(ms: seq<Measurement>, start: string, keep: Measurement -> bool,
                         idx: seq<int>, rows: seq<(string, Option<real>)>, p: map<string, Option<real>>, k: string)
    requires IsSelection(ms, keep, idx) && |rows| == |idx|
    requires forall i | 0 <= i < |idx| :: rows[i] == DatePrcp(ms[idx[i]])
    requires forall j | 0 <= j < |ms| :: keep(ms[j]) == LexLe(start, ms[j].date)
    requires IsLastRowMap(rows, p)
    ensures k in p <==> LexLe(start, k) && HasDate(ms, k)
  {
    if k in p {
      var i :| 0 <= i < |rows| && rows[i].0 == k;
      assert keep(ms[idx[i]]) && ms[idx[i]].date == k;
    }
    if LexLe(start, k) && HasDate(ms, k) {
      var j :| 0 <= j < |ms| && ms[j].date == k;
      assert keep(ms[j]);
      var i :| 0 <= i < |idx| && idx[i] == j;
      assert rows[i].0 == k;
    }
  }

  /** The value of each key, over the same selection: the prcp of the last row with that date. */
  lemma SelectedDateLastWins(ms: seq<Measurement>, start: string, keep: Measurement -> bool,
                             idx: seq<int>, rows: seq<(string, Option<real>)>, p: map<string, Option<real>>, k: string)
    requires IsSelection(ms, keep, idx) && |rows| == |idx|
    requires forall i | 0 <= i < |idx| :: rows[i] == DatePrcp(ms[idx[i]])
    requires forall j | 0 <= j < |ms| :: keep(ms[j]) == LexLe(start, ms[j].date)
    requires IsLastRowMap(rows, p) && k in p
    ensures exists n :: IsLastWithDate(ms, n, k) && p[k] == ms[n].prcp
  {
    var i :| 0 <= i < |rows| && rows[i].0 == k && p[k] == rows[i].1 && forall j | i < j < |rows| :: rows[j].0 != k;
    var n := idx[i];
    assert keep(ms[n]) && ms[n].date == k;
    forall j | n < j < |ms|
      ensures ms[j].date != k
    {
      if keep(ms[j]) {
        KeptLaterIsSelectedLater(ms, keep, idx, i, j);
        var l :| i < l < |idx| && idx[l] == j;
        assert ms[j].date == rows[l].0;
      } else {
        assert ms[j].date != ms[n].date;
      }
    }
    assert IsLastWithDate(ms, n, k);
  }

  lemma PrecipitationKey(ms: seq<Measurement>, start: string, k: string)
    ensures k in DateMap(PrecipitationRows(ms, start)) <==> LexLe(start, k) && HasDate(ms, k)
  {
    var keep := OnOrAfter(start);
    PrecipitationRowsSelect(ms, start);
    SelectedDateKeys(ms, start, keep, KeptIndices(ms, keep), PrecipitationRows(ms, start), DateMap(PrecipitationRows(ms, start)), k);
  }

  lemma PrecipitationLastWins(ms: seq<Measurement>, start: string, k: string)
    requires k in DateMap(PrecipitationRows(ms, start))
    ensures exists i :: IsLastWithDate(ms, i, k) && DateMap(PrecipitationRows(ms, start))[k] == ms[i].prcp
  {
    var keep := OnOrAfter(start);
    PrecipitationRowsSelect(ms, start);
    SelectedDateLastWins(ms, start, keep, KeptIndices(ms, keep), PrecipitationRows(ms, start), DateMap(PrecipitationRows(ms, start)), k);
  }

  /** The map built from the in-window rows is exactly the window precipitation. */
  lemma PrecipitationMapIsWindow(ms: seq<Measurement>, start: string)
    ensures IsWindowPrecipitation(ms, start, DateMap(PrecipitationRows(ms, start)))
  {
    PrecipitationKeys(ms, start);
    forall k | k in DateMap(PrecipitationRows(ms, start))
      ensures exists i :: IsLastWithDate(ms, i, k) && DateMap(PrecipitationRows(ms, start))[k] == ms[i].prcp
    {
      PrecipitationLastWins(ms, start, k);
    }
  }

  /**
    On well-formed dates the string filter of the window is the calendar one:
    a row is kept exactly when its date is at most 365 days before the latest.
   */
  lemma WindowFilterIsChronological(ms: seq<Measurement>, m: Measurement)
    requires WindowStart(ms).Ok? && Parse(m.date).Some?
    ensures OnOrAfter(WindowText(ms).value)(m) <==>
      ToOrdinal(Parse(m.date).value) >= ToOrdinal(Parse(MaxDate(ms).value).value) - WindowDays
  {
    var w, d := WindowStart(ms).value, Parse(m.date).value;
    assert WindowText(ms).value == Format(w);
    assert m.date == Format(d);
    FormatOrder(w, d);
  }

  /**
    The `precipitation` route: the latest date's trailing window, then the
    date-to-prcp map of the measurements on or after its first day.
   */
  function Precipitation(ms: seq<Measurement>): (r: Result<map<string, Option<real>>, Failure>)
    ensures r.Err? <==> WindowStart(ms).Err?
    ensures r.Err? ==> r.error == WindowStart(ms).error
    ensures r.Ok? ==> IsWindowPrecipitation(ms, WindowText(ms).value, r.value)
  {
    match WindowText(ms)
    case Err(e) => Err(e)
    case Ok(start) =>
      PrecipitationMapIsWindow(ms, start);
      Ok(DateMap(PrecipitationRows(ms, start)))
  }

  // ---------------------------------------------------------------------
  // stations: every station id, in row order

  function StationId(s: Station): string { s.station }

  /** `[station[0] for station in session.query(Station.station).all()]`. */
  function StationIds(ss: seq<Station>): (r: seq<string>)
    ensures |r| == |ss|
    ensures forall i | 0 <= i < |ss| :: r[i] == ss[i].station
  {
    Select(ss, StationId)
  }

  /** The number of Station rows with id `id`. */
  function RowsWithId(ss: seq<Station>, id: string): nat
  {
    if |ss| == 0 then 0 else (if ss[0].station == id then 1 else 0) + RowsWithId(ss[1..], id)
  }

  /** Nothing is merged or dropped: each id occurs in the listing once per row that has it. */
  lemma {:induction false} StationIdsKeepDuplicates(ss: seq<Station>, id: string)
    ensures multiset(StationIds(ss))[id] == RowsWithId(ss, id)
  {
    if |ss| > 0 {
      StationIdsKeepDuplicates(ss[1..], id);
      assert StationIds(ss) == [ss[0].station] + StationIds(ss[1..]);
    }
  }

  /** The listing of a concatenation of tables is the concatenation of their listings. */
  lemma StationIdsAppend(a: seq<Station>, b: seq<Station>)
    ensures StationIds(a + b) == StationIds(a) + StationIds(b)
  {
  }

  // ---------------------------------------------------------------------
  // the most active station

  /** `func.count(Measurement.station)` within the group of station `s`. */
  function StationOf(m: Measurement): string { m.station }

  function CountFor(ms: seq<Measurement>, s: string): (c: nat)
    ensures c == multiset(Select(ms, StationOf))[s]
  {
    if |ms| == 0 then 0
    else
      var rest := CountFor(ms[1..], s);
      assert Select(ms, StationOf) == [StationOf(ms[0])] + Select(ms[1..], StationOf);
      (if ms[0].station == s then 1 else 0) + rest
  }

  ghost predicate HasStation(ms: seq<Measurement>, s: string)
  {
    exists i | 0 <= i < |ms| :: ms[i].station == s
  }

  /** A station has a non-empty group exactly when some row names it. */
  lemma {:induction false} CountForPositive(ms: seq<Measurement>, s: string)
    ensures CountFor(ms, s) > 0 <==> HasStation(ms, s)
  {
    if |ms| > 0 {
      CountForPositive(ms[1..], s);
      if HasStation(ms, s) && ms[0].station != s {
        var i :| 0 <= i < |ms| && ms[i].station == s;
        assert ms[1..][i - 1].station == s;
      }
      if HasStation(ms[1..], s) {
        var i :| 0 <= i < |ms[1..]| && ms[1..][i].station == s;
        assert ms[i + 1].station == s;
      }
    }
  }

  /**
    `a` comes no later than `b` in `order_by(count desc)`, ties broken
    towards the lexicographically smaller id.
   */
  predicate Outranks(ms: seq<Measurement>, a: string, b: string)
  {
    CountFor(ms, a) > CountFor(ms, b) || (CountFor(ms, a) == CountFor(ms, b) && LexLe(a, b))
  }

  lemma OutranksTotalOrder(ms: seq<Measurement>, a: string, b: string, c: string)
    ensures Outranks(ms, a, a)
    ensures Outranks(ms, a, b) || Outranks(ms, b, a)
    ensures Outranks(ms, a, b) && Outranks(ms, b, c) ==> Outranks(ms, a, c)
    ensures Outranks(ms, a, b) && Outranks(ms, b, a) ==> a == b
  {
    LexLeReflexive(a);
    LexLeTotal(a, b);
    if Outranks(ms, a, b) && Outranks(ms, b, c) && CountFor(ms, a) == CountFor(ms, c) {
      LexLeTransitive(a, b, c);
    }
    if Outranks(ms, a, b) && Outranks(ms, b, a) {
      LexLeAntisymmetric(a, b);
    }
  }

  /** The first of `cands` in the ranking. */
  function Leader(ms: seq<Measurement>, cands: seq<string>): (r: string)
    requires |cands| > 0
    ensures r in cands
    ensures forall c | c in cands :: Outranks(ms, r, c)
  {
    if |cands| == 1 then
      OutranksTotalOrder(ms, cands[0], cands[0], cands[0]);
      cands[0]
    else
      var rest := Leader(ms, cands[1..]);
      OutranksTotalOrder(ms, cands[0], rest, rest);
      var r := if Outranks(ms, cands[0], rest) then cands[0] else rest;
      LeaderStep(ms, cands, rest, r);
      r
  }

  lemma LeaderStep(ms: seq<Measurement>, cands: seq<string>, rest: string, r: string)
    requires |cands| > 1
    requires forall c | c in cands[1..] :: Outranks(ms, rest, c)
    requires Outranks(ms, r, cands[0]) && Outranks(ms, r, rest)
    ensures forall c | c in cands :: Outranks(ms, r, c)
  {
    forall c | c in cands
      ensures Outranks(ms, r, c)
    {
      if c != cands[0] {
        assert c in cands[1..];
        OutranksTotalOrder(ms, r, rest, c);
      }
    }
  }

  /**
    `s` is the station the `tobs` route reports: it has rows, no station has
    more, and among those with as many it has the smallest id.
   */
  ghost predicate IsMostActive(ms: seq<Measurement>, s: string)
  {
    && HasStation(ms, s)
    && (forall t :: CountFor(ms, t) <= CountFor(ms, s))
    && (forall t :: CountFor(ms, t) == CountFor(ms, s) ==> LexLe(s, t))
  }


  /**
    `query(station).group_by(station).order_by(count desc).first()[0]`: the
    station with the most rows; None (the route then fails) over no rows.
   */
  function MostActiveStation(ms: seq<Measurement>): (r: Option<string>)
    ensures r.None? <==> |ms| == 0
    ensures r.Some? ==> IsMostActive(ms, r.value)
  {
    if |ms| == 0 then None
    else
      var s := Leader(ms, Select(ms, StationOf));
      LeaderIsMostActive(ms, s);
      Some(s)
  }

  lemma LeaderIsMostActive(ms: seq<Measurement>, s: string)
    requires |ms| > 0 && s == Leader(ms, Select(ms, StationOf))
    ensures IsMostActive(ms, s)
  {
    LeaderOccurs(ms, s);
    CountForPositive(ms, s);
    forall t
      ensures CountFor(ms, t) <= CountFor(ms, s)
      ensures CountFor(ms, t) == CountFor(ms, s) ==> LexLe(s, t)
    {
      LeaderOutranks(ms, s, t);
    }
  }

  lemma LeaderOccurs(ms: seq<Measurement>, s: string)
    requires |ms| > 0 && s == Leader(ms, Select(ms, StationOf))
    ensures HasStation(ms, s)
  {
    var stations := Select(ms, StationOf);
    var j :| 0 <= j < |stations| && stations[j] == s;
    assert ms[j].station == s;
  }

  lemma LeaderOutranks(ms: seq<Measurement>, s: string, t: string)
    requires |ms| > 0 && s == Leader(ms, Select(ms, StationOf)) && CountFor(ms, s) > 0
    ensures CountFor(ms, t) <= CountFor(ms, s)
    ensures CountFor(ms, t) == CountFor(ms, s) ==> LexLe(s, t)
  {
    var stations := Select(ms, StationOf);
    CountForPositive(ms, t);
    if HasStation(ms, t) {
      var i :| 0 <= i < |ms| && ms[i].station == t;
      assert stations[i] == t;
      assert t in stations;
      assert Outranks(ms, s, t);
    }
  }

  /** At most one station fits the description, so the choice is reproducible. */
  lemma MostActiveUnique(ms: seq<Measurement>, a: string, b: string)
    requires IsMostActive(ms, a) && IsMostActive(ms, b)
    ensures a == b
  {
    assert CountFor(ms, a) == CountFor(ms, b);
    LexLeAntisymmetric(a, b);
  }

  /** A station with strictly more rows than every other station is the one chosen. */
  lemma StrictLeaderChosen(ms: seq<Measurement>, s: string)
    requires HasStation(ms, s)
    requires forall t | t != s :: CountFor(ms, t) < CountFor(ms, s)
    ensures MostActiveStation(ms) == Some(s)
  {
    LexLeReflexive(s);
    var r := MostActiveStation(ms).value;
    MostActiveUnique(ms, r, s);
  }

  // ---------------------------------------------------------------------
  // tobs: the most active station's observations over the trailing window

  /** `.filter(station == s).filter(date >= start)`. */
  function AtStationOnOrAfter(s: string, start: string): Measurement -> bool
  {
    (m: Measurement) => m.station == s && LexLe(start, m.date)
  }

  function DateTobs(m: Measurement): (string, real) { (m.date, m.tobs) }

  /** `[{date: tobs} for date, tobs in rows]`: one entry per row, duplicates kept. */
  function StationTobs(ms: seq<Measurement>, s: string, start: string): seq<(string, real)>
  {
    Select(Where(ms, AtStationOnOrAfter(s, start)), DateTobs)
  }

  /**
    `out` holds, in scan order, the (date, tobs) of exactly the rows of
    station `s` dated on or after `start`, one entry per row.
   */
  ghost predicate IsStationWindowTobs(ms: seq<Measurement>, s: string, start: string, out: seq<(string, real)>)
  {
    exists idx ::
      && IsSelection(ms, AtStationOnOrAfter(s, start), idx)
      && |out| == |idx|
      && forall k | 0 <= k < |idx| :: out[k] == (ms[idx[k]].date, ms[idx[k]].tobs)
  }

  lemma StationTobsSelects(ms: seq<Measurement>, s: string, start: string)
    ensures IsStationWindowTobs(ms, s, start, StationTobs(ms, s, start))
  {
    var keep := AtStationOnOrAfter(s, start);
    WhereIsSelection(ms, keep);
    var idx := KeptIndices(ms, keep);
    assert IsSelection(ms, keep, idx);
  }

  /** Every entry is an observation of station `s` on or after `start`. */
  lemma StationTobsEntries(ms: seq<Measurement>, s: string, start: string, e: (string, real))
    requires e in StationTobs(ms, s, start)
    ensures exists i | 0 <= i < |ms| :: ms[i].station == s && LexLe(start, ms[i].date) && e == (ms[i].date, ms[i].tobs)
  {
    var keep := AtStationOnOrAfter(s, start);
    WhereIsSelection(ms, keep);
    var idx := KeptIndices(ms, keep);
    var k :| 0 <= k < |StationTobs(ms, s, start)| && StationTobs(ms, s, start)[k] == e;
    assert keep(ms[idx[k]]);
  }

  /**
    The `tobs` route: the most active station, the trailing window, and that
    station's (date, tobs) rows from the window start on.
   */
  function MostActiveTobs(ms: seq<Measurement>): (r: Result<seq<(string, real)>, Failure>)
    ensures |ms| == 0 ==> r == Err(NoMeasurements)
    ensures r.Err? <==> WindowStart(ms).Err?
    ensures r.Err? ==> r.error == WindowStart(ms).error
    ensures r.Ok? ==> IsStationWindowTobs(ms, MostActiveStation(ms).value, WindowText(ms).value, r.value)
  {
    match MostActiveStation(ms)
    case None => Err(NoMeasurements)
    case Some(s) =>
      match WindowText(ms)
      case Err(e) => Err(e)
      case Ok(start) =>
        StationTobsSelects(ms, s, start);
        Ok(StationTobs(ms, s, start))
  }

  // ---------------------------------------------------------------------
  // temp_stats: TMIN, TAVG, TMAX over a date range

  /** `if not end`: an absent or empty end leaves the range open above. */
  predicate HasEnd(end: Option<string>)
  {
    end.Some? && end.value != ""
  }

  /** The rows the range query aggregates: `date >= start`, and `date <= end` when an end is given. */
  predicate InRange(m: Measurement, start: string, end: Option<string>)
  {
    LexLe(start, m.date) && (HasEnd(end) ==> LexLe(m.date, end.value))
  }

  function RangeFilter(start: string, end: Option<string>): Measurement -> bool
  {
    if HasEnd(end) then (m: Measurement) => LexLe(start, m.date) && LexLe(m.date, end.value)
    else OnOrAfter(start)
  }

  function TobsOf(m: Measurement): real { m.tobs }

  /** The tobs column of the rows in range, in scan order. */
  function RangeTobs(ms: seq<Measurement>, start: string, end: Option<string>): seq<real>
  {
    Select(Where(ms, RangeFilter(start, end)), TobsOf)
  }

  /** The number of rows in range, counted row by row. */
  function InRangeCount(ms: seq<Measurement>, start: string, end: Option<string>): (c: nat)
    ensures c > 0 <==> exists i | 0 <= i < |ms| :: InRange(ms[i], start, end)
  {
    if |ms| == 0 then 0
    else
      var rest := InRangeCount(ms[1..], start, end);
      InRangeShift(ms, start, end);
      (if InRange(ms[0], start, end) then 1 else 0) + rest
  }

  lemma InRangeShift(ms: seq<Measurement>, start: string, end: Option<string>)
    requires |ms| > 0
    ensures (exists i | 0 <= i < |ms| :: InRange(ms[i], start, end)) <==>
      InRange(ms[0], start, end) || exists i | 0 <= i < |ms[1..]| :: InRange(ms[1..][i], start, end)
  {
    if exists i | 0 <= i < |ms| :: InRange(ms[i], start, end) {
      var i :| 0 <= i < |ms| && InRange(ms[i], start, end);
      if i > 0 {
        assert InRange(ms[1..][i - 1], start, end);
      }
    }
    if exists i | 0 <= i < |ms[1..]| :: InRange(ms[1..][i], start, end) {
      var i :| 0 <= i < |ms[1..]| && InRange(ms[1..][i], start, end);
      assert InRange(ms[i + 1], start, end);
    }
  }

  /** The sum of tobs over the rows in range, counted row by row. */
  function InRangeTotal(ms: seq<Measurement>, start: string, end: Option<string>): real
  {
    if |ms| == 0 then 0.0
    else (if InRange(ms[0], start, end) then ms[0].tobs else 0.0) + InRangeTotal(ms[1..], start, end)
  }

  /** The aggregated column grows by the first row's tobs exactly when that row is in range. */
  lemma RangeTobsCons(ms: seq<Measurement>, start: string, end: Option<string>)
    requires |ms| > 0
    ensures RangeTobs(ms, start, end) ==
      (if InRange(ms[0], start, end) then [ms[0].tobs] else []) + RangeTobs(ms[1..], start, end)
  {
    var keep := RangeFilter(start, end);
    RangeFilterIsInRange(start, end, ms[0]);
    assert Where(ms, keep) == (if keep(ms[0]) then [ms[0]] else []) + Where(ms[1..], keep);
    SelectAppend(if keep(ms[0]) then [ms[0]] else [], Where(ms[1..], keep), TobsOf);
  }

  /** The aggregated column has as many entries as rows in range, and sums to their tobs. */
  lemma {:induction false} RangeTobsCountsRows(ms: seq<Measurement>, start: string, end: Option<string>)
    ensures |RangeTobs(ms, start, end)| == InRangeCount(ms, start, end)
    ensures Sum(RangeTobs(ms, start, end)) == InRangeTotal(ms, start, end)
  {
    if |ms| > 0 {
      RangeTobsCons(ms, start, end);
      RangeTobsCountsRows(ms[1..], start, end);
      var obs := RangeTobs(ms, start, end);
      if InRange(ms[0], start, end) {
        assert obs[0] == ms[0].tobs && obs[1..] == RangeTobs(ms[1..], start, end);
      } else {
        assert obs == RangeTobs(ms[1..], start, end);
      }
    }
  }

  /** A temperature is aggregated exactly when some row in range has it. */
  lemma RangeTobsMembers(ms: seq<Measurement>, start: string, end: Option<string>)
    ensures forall t :: t in RangeTobs(ms, start, end) <==>
      exists i | 0 <= i < |ms| :: InRange(ms[i], start, end) && ms[i].tobs == t
  {
    var keep := RangeFilter(start, end);
    var kept := Where(ms, keep);
    WhereMembers(ms, keep);
    assert forall m :: keep(m) == InRange(m, start, end);
    forall t
      ensures t in RangeTobs(ms, start, end) <==>
        exists i | 0 <= i < |ms| :: InRange(ms[i], start, end) && ms[i].tobs == t
    {
      if t in RangeTobs(ms, start, end) {
        var k :| 0 <= k < |kept| && kept[k].tobs == t;
        assert kept[k] in ms;
        var i :| 0 <= i < |ms| && ms[i] == kept[k];
      }
      if exists i | 0 <= i < |ms| :: InRange(ms[i], start, end) && ms[i].tobs == t {
        var i :| 0 <= i < |ms| && InRange(ms[i], start, end) && ms[i].tobs == t;
        assert ms[i] in kept;
        var k :| 0 <= k < |kept| && kept[k] == ms[i];
        assert RangeTobs(ms, start, end)[k] == t;
      }
    }
  }

  /**
    The facts about the rows in range that the summary of their temperatures
    must satisfy: all null when no row is in range, otherwise a minimum and a
    maximum taken from rows in range, bounding every such row, with the mean
    between them.
   */
  ghost predicate IsRangeSummary(ms: seq<Measurement>, start: string, end: Option<string>, r: Summary)
  {
    && (r == Summary(None, None, None) <==> forall i | 0 <= i < |ms| :: !InRange(ms[i], start, end))
    && ((exists i | 0 <= i < |ms| :: InRange(ms[i], start, end)) ==>
          && r.tmin.Some? && r.tavg.Some? && r.tmax.Some?
          && r.tmin.value <= r.tavg.value <= r.tmax.value
          && r.tavg.value == InRangeTotal(ms, start, end) / (InRangeCount(ms, start, end) as real)
          && (exists i | 0 <= i < |ms| :: InRange(ms[i], start, end) && ms[i].tobs == r.tmin.value)
          && (exists i | 0 <= i < |ms| :: InRange(ms[i], start, end) && ms[i].tobs == r.tmax.value)
          && (forall i | 0 <= i < |ms| && InRange(ms[i], start, end) :: r.tmin.value <= ms[i].tobs <= r.tmax.value))
  }

  /** TAVG is the sum of tobs over the rows in range divided by their number. */
  lemma RangeMeanOverRows(ms: seq<Measurement>, start: string, end: Option<string>)
    ensures var r := Summarise(RangeTobs(ms, start, end));
      r.tavg.Some? ==> InRangeCount(ms, start, end) > 0 && r.tavg.value == InRangeTotal(ms, start, end) / (InRangeCount(ms, start, end) as real)
  {
    RangeTobsCountsRows(ms, start, end);
    var obs := RangeTobs(ms, start, end);
    if |obs| > 0 {
      MeanIsQuotient(obs, InRangeCount(ms, start, end), InRangeTotal(ms, start, end));
    }
  }

  lemma SummaryOfRangeTobs(ms: seq<Measurement>, start: string, end: Option<string>)
    ensures IsRangeSummary(ms, start, end, Summarise(RangeTobs(ms, start, end)))
  {
    var obs := RangeTobs(ms, start, end);
    var r := Summarise(obs);
    RangeTobsMembers(ms, start, end);
    SomeMatchIsAggregated(ms, start, end);
    RangeMeanOverRows(ms, start, end);
    if |obs| > 0 {
      assert r.tmin.value in obs;
      assert r.tmax.value in obs;
      forall i | 0 <= i < |ms| && InRange(ms[i], start, end)
        ensures r.tmin.value <= ms[i].tobs <= r.tmax.value
      {
        assert ms[i].tobs in obs;
      }
    }
  }

  /** The `temp_stats` route: MIN, AVG and MAX of tobs over the rows in range. */
  function TempStats(ms: seq<Measurement>, start: string, end: Option<string>): (r: Summary)
    ensures IsRangeSummary(ms, start, end, r)
  {
    SummaryOfRangeTobs(ms, start, end);
    Summarise(RangeTobs(ms, start, end))
  }

  lemma SomeMatchIsAggregated(ms: seq<Measurement>, start: string, end: Option<string>)
    ensures (exists i | 0 <= i < |ms| :: InRange(ms[i], start, end)) <==> |RangeTobs(ms, start, end)| > 0
  {
    RangeTobsMembers(ms, start, end);
    if exists i | 0 <= i < |ms| :: InRange(ms[i], start, end) {
      var i :| 0 <= i < |ms| && InRange(ms[i], start, end);
      assert ms[i].tobs in RangeTobs(ms, start, end);
    }
    if |RangeTobs(ms, start, end)| > 0 {
      assert RangeTobs(ms, start, end)[0] in RangeTobs(ms, start, end);
    }
  }

  /** A range whose end precedes its start matches nothing: all three results are null. */
  lemma TempStatsEndBeforeStart(ms: seq<Measurement>, start: string, end: string)
    requires end != "" && LexLt(end, start)
    ensures TempStats(ms, start, Some(end)) == Summary(None, None, None)
  {
    forall i | 0 <= i < |ms|
      ensures !InRange(ms[i], start, Some(end))
    {
      LexLtIffNotLe(end, start);
      if InRange(ms[i], start, Some(end)) {
        LexLeTransitive(start, ms[i].date, end);
      }
    }
  }

  /** The aggregated column has one entry per row in range, in scan order. */
  lemma RangeTobsSelects(ms: seq<Measurement>, start: string, end: Option<string>)
    ensures exists idx ::
      && IsSelection(ms, RangeFilter(start, end), idx)
      && |RangeTobs(ms, start, end)| == |idx|
      && forall k | 0 <= k < |idx| :: RangeTobs(ms, start, end)[k] == ms[idx[k]].tobs
  {
    var keep := RangeFilter(start, end);
    WhereIsSelection(ms, keep);
    var idx := KeptIndices(ms, keep);
    assert IsSelection(ms, keep, idx);
  }

  /** The filter the query applies keeps exactly the rows in range. */
  lemma RangeFilterIsInRange(start: string, end: Option<string>, m: Measurement)
    ensures RangeFilter(start, end)(m) == InRange(m, start, end)
  {
  }

  // ---------------------------------------------------------------------
  // worked examples

  /**
    With the latest date 2017-08-23, a row dated 2016-08-23 is in the
    precipitation result and no row dated 2016-08-22 is.
   */
  lemma PrecipitationWindowEdgeExample(ms: seq<Measurement>)
    requires MaxDate(ms) == Some("2017-08-23")
    ensures Precipitation(ms).Ok?
    ensures "2016-08-22" !in Precipitation(ms).value
    ensures HasDate(ms, "2016-08-23") ==> "2016-08-23" in Precipitation(ms).value
  {
    WindowOfLatestExample(ms);
    assert !LexLe("2016-08-23", "2016-08-22");
    LexLeReflexive("2016-08-23");
  }

  function JanuaryRows(): seq<Measurement>
  {
    [Measurement("USC00519281", "2017-01-05", None, 60.0),
     Measurement("USC00519281", "2017-01-12", Some(0.5), 65.0),
     Measurement("USC00519397", "2017-01-20", None, 70.0),
     Measurement("USC00519397", "2017-02-02", None, 90.0)]
  }

  /** January rows are in range by a character-by-character comparison of their dates. */
  lemma JanuaryDateInRange(date: string)
    requires date == "2017-01-05" || date == "2017-01-12" || date == "2017-01-20"
    ensures LexLe("2017-01-01", date) && LexLe(date, "2017-01-31")
  {
    assert date[..8] == "2017-01-";
    assert "2017-01-01"[..8] == "2017-01-" && "2017-01-31"[..8] == "2017-01-";
    LexLeCommonPrefix("2017-01-", "01", date[8..]);
    LexLeCommonPrefix("2017-01-", date[8..], "31");
    assert "2017-01-01" == "2017-01-" + "01" && date == "2017-01-" + date[8..] && "2017-01-31" == "2017-01-" + "31";
  }

  /** A February date is past the end of January. */
  lemma FebruaryAfterJanuary()
    ensures !LexLe("2017-02-02", "2017-01-31")
  {
    assert "2017-02-02" == "2017-0" + "2-02" && "2017-01-31" == "2017-0" + "1-31";
    LexLeCommonPrefix("2017-0", "2-02", "1-31");
    assert !LexLe("2-02", "1-31");
  }

  lemma JanuaryRowsKept()
    ensures var keep := RangeFilter("2017-01-01", Some("2017-01-31"));
      keep(JanuaryRows()[0]) && keep(JanuaryRows()[1]) && keep(JanuaryRows()[2]) && !keep(JanuaryRows()[3])
  {
    var rows, start, end := JanuaryRows(), "2017-01-01", Some("2017-01-31");
    RangeFilterIsInRange(start, end, rows[0]);
    RangeFilterIsInRange(start, end, rows[1]);
    RangeFilterIsInRange(start, end, rows[2]);
    RangeFilterIsInRange(start, end, rows[3]);
    assert HasEnd(end);
    JanuaryDateInRange(rows[0].date);
    JanuaryDateInRange(rows[1].date);
    JanuaryDateInRange(rows[2].date);
    FebruaryAfterJanuary();
  }

  lemma RangeTobsOfFirstThree(ms: seq<Measurement>, start: string, end: Option<string>)
    requires |ms| == 4
    requires var keep := RangeFilter(start, end); keep(ms[0]) && keep(ms[1]) && keep(ms[2]) && !keep(ms[3])
    ensures RangeTobs(ms, start, end) == [ms[0].tobs, ms[1].tobs, ms[2].tobs]
  {
    var keep := RangeFilter(start, end);
    var t1 := ms[1..];
    var t2 := t1[1..];
    var t3 := t2[1..];
    assert t3[1..] == [];
    assert Where(t3, keep) == [];
    assert Where(t2, keep) == [ms[2]];
    assert Where(t1, keep) == [ms[1], ms[2]];
    assert Where(ms, keep) == [ms[0], ms[1], ms[2]];
  }

  lemma JanuaryRowsInRange()
    ensures RangeTobs(JanuaryRows(), "2017-01-01", Some("2017-01-31")) == [60.0, 65.0, 70.0]
  {
    JanuaryRowsKept();
    RangeTobsOfFirstThree(JanuaryRows(), "2017-01-01", Some("2017-01-31"));
  }

  lemma JanuarySummary()
    ensures Summarise([60.0, 65.0, 70.0]) == Summary(Some(60.0), Some(65.0), Some(70.0))
  {
    var obs := [60.0, 65.0, 70.0];
    assert obs[1..] == [65.0, 70.0] && obs[1..][1..] == [70.0] && obs[1..][1..][1..] == [];
    assert Min(obs) == 60.0 && Max(obs) == 70.0;
    assert Sum(obs) == 195.0;
  }

  /** Three January readings of 60, 65 and 70 give TMIN 60, TAVG 65 and TMAX 70; a February row is left out. */
  lemma JanuaryStatsExample()
    ensures TempStats(JanuaryRows(), "2017-01-01", Some("2017-01-31")) == Summary(Some(60.0), Some(65.0), Some(70.0))
  {
    JanuaryRowsInRange();
    JanuarySummary();
  }

  /** A start after every measurement's year gives three nulls, not an error. */
  lemma FutureStartExample(ms: seq<Measurement>)
    requires forall i | 0 <= i < |ms| :: Parse(ms[i].date).Some? && Parse(ms[i].date).value.year < 2099
    ensures TempStats(ms, "2099-01-01", None) == Summary(None, None, None)
  {
    var start := Date(2099, 1, 1);
    assert Format(start) == "2099-01-01" by {
      assert Pad2(20) == "20" && Pad2(99) == "99" && Pad2(1) == "01";
    }
    forall i | 0 <= i < |ms|
      ensures !InRange(ms[i], "2099-01-01", None)
    {
      var d := Parse(ms[i].date).value;
      assert ms[i].date == Format(d);
      FormatOrder(start, d);
      ToOrdinalMonotone(start, d);
    }
  }
}
