/** Fetching daily RTS futures bars from MOEX ISS (futures_scraper.py and
    update_futures_RTS_day_rss.py): bounded retry, the last-trading-day lookup with its
    fallbacks, the choice of the front contract, the day-by-day fill below "today", and
    the two scripts' different start-date policies. The HTTP replies are parameters. */
module FuturesFetch {
  import opened Base
  import opened Calendar
  import opened TimeText
  import opened FuturesStore

  // ---------------------------------------------------------------------------
  // request_moex

  /** `request_moex`: attempt `k` (from 0) yields `attempt(k)`, `None` where `session.get`
      or `raise_for_status` raised. At most `retries` attempts are made; the first reply
      is returned, and `None` once every attempt has failed (at once when `retries <= 0`). */
  method RequestMoex<J>(attempt: nat -> Option<J>, retries: int) returns (r: Option<J>, made: nat)
    ensures made <= (if retries < 0 then 0 else retries)
    ensures forall k :: 0 <= k < made - 1 ==> attempt(k).None?
    ensures r.Some? ==> made >= 1 && r == attempt(made - 1)
    ensures r.None? ==> made == (if retries < 0 then 0 else retries)
    ensures r.None? ==> forall k :: 0 <= k < made ==> attempt(k).None?
  {
    var k: nat := 0;
    while k < retries
      invariant k <= (if retries < 0 then 0 else retries)
      invariant forall i :: 0 <= i < k ==> attempt(i).None?
    {
      var reply := attempt(k);
      if reply.Some? {
        return reply, k + 1;
      }
      k := k + 1;
    }
    return None, k;
  }

  // ---------------------------------------------------------------------------
  // get_info_future

  /** One `(name, value)` row of the `description` block of `/iss/securities/<SECID>.json`. */
  datatype DescRow = DescRow(name: string, value: string)

  /** The last-trading-day text used when nothing better is known. */
  const FarLsttrade: string := "2130-01-01"

  predicate HasName(rows: seq<DescRow>, name: string) {
    exists i :: 0 <= i < |rows| && rows[i].name == name
  }

  /** `v` is the value of the first row called `name` (`.values[0]` of the match). */
  predicate IsFirstValue(rows: seq<DescRow>, name: string, v: string) {
    exists i :: 0 <= i < |rows| && rows[i].name == name && rows[i].value == v
      && forall j :: 0 <= j < i ==> rows[j].name != name
  }

  function FirstValue(rows: seq<DescRow>, name: string): (r: Option<string>)
    ensures r.None? <==> !HasName(rows, name)
    ensures r.Some? ==> IsFirstValue(rows, name, r.value)
  {
    if |rows| == 0 then None
    else if rows[0].name == name then Some(rows[0].value)
    else
      var r := FirstValue(rows[1..], name);
      assert HasName(rows, name) <==> HasName(rows[1..], name) by {
        assert forall i :: 1 <= i < |rows| ==> rows[i] == rows[1..][i - 1];
        if HasName(rows[1..], name) {
          var i :| 0 <= i < |rows[1..]| && rows[1..][i].name == name;
          assert rows[i + 1].name == name;
        }
      }
      if r.Some? then
        assert IsFirstValue(rows, name, r.value) by {
          var i :| 0 <= i < |rows[1..]| && rows[1..][i].name == name && rows[1..][i].value == r.value
            && forall j :: 0 <= j < i ==> rows[1..][j].name != name;
          assert forall j :: 1 <= j < i + 1 ==> rows[j] == rows[1..][j - 1];
          assert rows[i + 1] == rows[1..][i];
        }
        r
      else r
  }

  /** `(SHORTNAME, LSTTRADE)` of one contract. */
  datatype Info = Info(shortname: string, lsttrade: string)

  /** `get_info_future`: no reply gives `("", "2130-01-01")`. A reply whose description has
      no rows builds a frame without a `name` column, and looking it up raises KeyError.
      Otherwise SHORTNAME is the first SHORTNAME value or `""`, and LSTTRADE is the first
      LSTTRADE value, else the first LSTDELDATE value, else "2130-01-01". */
  function GetInfoFuture(reply: Option<seq<DescRow>>): (r: Result<Info>)
    ensures reply.None? ==> r == Ok(Info("", FarLsttrade))
    ensures r.Err? <==> reply == Some([])
    ensures r.Err? ==> r.error == "KeyError: 'name'"
    ensures r.Ok? && reply.Some? ==> var rows := reply.value;
      && (HasName(rows, "SHORTNAME") ==> IsFirstValue(rows, "SHORTNAME", r.value.shortname))
      && (!HasName(rows, "SHORTNAME") ==> r.value.shortname == "")
      && (HasName(rows, "LSTTRADE") ==> IsFirstValue(rows, "LSTTRADE", r.value.lsttrade))
      && (!HasName(rows, "LSTTRADE") && HasName(rows, "LSTDELDATE") ==> IsFirstValue(rows, "LSTDELDATE", r.value.lsttrade))
      && (!HasName(rows, "LSTTRADE") && !HasName(rows, "LSTDELDATE") ==> r.value.lsttrade == FarLsttrade)
  {
    match reply
    case None => Ok(Info("", FarLsttrade))
    case Some(rows) =>
      if |rows| == 0 then Err("KeyError: 'name'")
      else
        var shortname := match FirstValue(rows, "SHORTNAME") case Some(v) => v case None => "";
        var lsttrade :=
          match FirstValue(rows, "LSTTRADE")
          case Some(v) => v
          case None => (match FirstValue(rows, "LSTDELDATE") case Some(v) => v case None => FarLsttrade);
        Ok(Info(shortname, lsttrade))
  }

  // ---------------------------------------------------------------------------
  // pd.to_datetime(..., errors='coerce').dt.date

  /** The dates a pandas `Timestamp` can hold: 1677-09-22 to 2262-04-11. */
  predicate InTimestampRange(d: Date) {
    DateLessEq(Date(1677, 9, 22), d) && DateLessEq(d, Date(2262, 4, 11))
  }

  /** `to_datetime(errors='coerce').dt.date` on one ISO date text; `None` is NaT. */
  function CoerceDate(text: string): (r: Option<Date>)
    ensures r.Some? ==> ValidDate(r.value) && InTimestampRange(r.value) && FormatDate(r.value) == text
    ensures forall d :: ValidDate(d) && InTimestampRange(d) && text == FormatDate(d) ==> r == Some(d)
  {
    match ParseDate(text)
    case Some(d) =>
      forall e | ValidDate(e) && text == FormatDate(e)
        ensures e == d
      {
        FormatDateParses(e);
      }
      if InTimestampRange(d) then Some(d) else None
    case None =>
      ParseDateComplete(text);
      None
  }

  /** The far fallback survives the conversion. */
  lemma FarLsttradeCoerces()
    ensures CoerceDate(FarLsttrade) == Some(Date(2130, 1, 1))
  {
    assert FormatDate(Date(2130, 1, 1)) == FarLsttrade;
  }

  // ---------------------------------------------------------------------------
  // The candidates of one day

  /** One row of the `history` block: trade date, contract, and prices (`None` for null). */
  datatype Quote = Quote(tradedate: Date, secid: string, open: Option<int>, low: Option<int>, high: Option<int>, close: Option<int>)

  /** Survives `dropna(subset=['OPEN', 'LOW', 'HIGH', 'CLOSE'])`. */
  predicate HasPrices(q: Quote) {
    q.open.Some? && q.low.Some? && q.high.Some? && q.close.Some?
  }

  /** `get_info_future` for every priced quote, in frame order; the first KeyError aborts. */
  function InfosOf(qs: seq<Quote>, info: string -> Option<seq<DescRow>>): (r: Result<seq<Info>>)
    ensures r.Ok? <==> forall i :: 0 <= i < |qs| ==> GetInfoFuture(info(qs[i].secid)).Ok?
    ensures r.Err? ==> r.error == "KeyError: 'name'"
  {
    if |qs| == 0 then Ok([])
    else
      var head := GetInfoFuture(info(qs[0].secid));
      var rest := InfosOf(qs[1..], info);
      assert forall i :: 1 <= i < |qs| ==> qs[i] == qs[1..][i - 1];
      if head.Err? then Err(head.error)
      else if rest.Err? then Err(rest.error)
      else Ok([head.value] + rest.value)
  }

  /** A quote priced and dated as a bar. */
  function ToBar(q: Quote, lsttrade: Date): Bar
    requires HasPrices(q)
  {
    Bar(q.tradedate, q.secid, q.open.value, q.low.value, q.high.value, q.close.value, lsttrade)
  }

  /** One priced quote with its contract's last trading day; `None` when the lookup raises
      or the value becomes NaT. */
  function CandidateOf(q: Quote, info: string -> Option<seq<DescRow>>): (r: Option<Bar>)
    requires HasPrices(q)
    ensures r.Some? ==> r.value == ToBar(q, r.value.lsttrade) && ValidDate(r.value.lsttrade)
  {
    match GetInfoFuture(info(q.secid))
    case Err(_) => None
    case Ok(x) =>
      match CoerceDate(x.lsttrade)
      case None => None
      case Some(d) => Some(ToBar(q, d))
  }

  function BarsOf(qs: seq<Quote>, info: string -> Option<seq<DescRow>>): (r: Option<seq<Bar>>)
    requires forall i :: 0 <= i < |qs| ==> HasPrices(qs[i])
  {
    if forall i :: 0 <= i < |qs| ==> CandidateOf(qs[i], info).Some? then
      Some(seq(|qs|, i requires 0 <= i < |qs| => CandidateOf(qs[i], info).value))
    else None
  }

  /** The frame of one day after the info lookup and the date conversion: one bar per
      priced quote, in reply order, each with its contract's last trading day. A failed
      lookup raises KeyError first; otherwise a NaT, filled with the text "2130-01-01",
      makes the comparison with the trade date raise TypeError. */
  function Candidates(qs: seq<Quote>, info: string -> Option<seq<DescRow>>): (r: Result<seq<Bar>>)
    requires forall i :: 0 <= i < |qs| ==> HasPrices(qs[i])
    ensures r.Ok? <==> forall i :: 0 <= i < |qs| ==> CandidateOf(qs[i], info).Some?
    ensures r.Ok? ==> |r.value| == |qs| && forall i :: 0 <= i < |qs| ==> r.value[i] == CandidateOf(qs[i], info).value
    ensures r.Err? && (exists i :: 0 <= i < |qs| && GetInfoFuture(info(qs[i].secid)).Err?) ==>
      r.error == "KeyError: 'name'"
  {
    match InfosOf(qs, info)
    case Err(e) => Err(e)
    case Ok(_) =>
      match BarsOf(qs, info)
      case None => Err("TypeError: '>' not supported between instances of 'str' and 'datetime.date'")
      case Some(bars) => Ok(bars)
  }

  // ---------------------------------------------------------------------------
  // Choosing the front contract

  /** `df['LSTTRADE'] > tradedate`: the contract still trades after this day. */
  predicate Eligible(b: Bar, day: Date) {
    DateLess(day, b.lsttrade)
  }

  /** `df['LSTTRADE'].min()` over the eligible rows; `None` when there are none. */
  function EarliestLsttrade(cands: seq<Bar>, day: Date): (r: Option<Date>)
    ensures r.None? <==> forall i :: 0 <= i < |cands| ==> !Eligible(cands[i], day)
    ensures r.Some? ==> exists i :: 0 <= i < |cands| && Eligible(cands[i], day) && cands[i].lsttrade == r.value
    ensures r.Some? ==> forall i :: 0 <= i < |cands| && Eligible(cands[i], day) ==> DateLessEq(r.value, cands[i].lsttrade)
  {
    if |cands| == 0 then None
    else
      var c := cands[0];
      var rest := EarliestLsttrade(cands[1..], day);
      assert forall i :: 1 <= i < |cands| ==> cands[i] == cands[1..][i - 1];
      var r :=
        if !Eligible(c, day) then rest
        else if rest.Some? && DateLess(rest.value, c.lsttrade) then rest
        else Some(c.lsttrade);
      assert r.Some? ==> exists i :: 0 <= i < |cands| && Eligible(cands[i], day) && cands[i].lsttrade == r.value by {
        if r.Some? && r == rest {
          var k :| 0 <= k < |cands[1..]| && Eligible(cands[1..][k], day) && cands[1..][k].lsttrade == rest.value;
          assert cands[k + 1] == cands[1..][k];
        }
      }
      DateLessTotal(c.lsttrade, if rest.Some? then rest.value else c.lsttrade);
      r
  }

  /** The rows left by the two filters: eligible, with the earliest last trading day. */
  predicate IsFront(cands: seq<Bar>, day: Date, b: Bar) {
    Eligible(b, day) && EarliestLsttrade(cands, day) == Some(b.lsttrade)
  }

  function FrontOf(cands: seq<Bar>, day: Date): Bar -> bool {
    (b: Bar) => IsFront(cands, day, b)
  }

  /** `if len(df) == 1`: a bar is chosen only when the filters leave exactly one row. */
  function SelectBar(cands: seq<Bar>, day: Date): (r: Option<Bar>)
    ensures r.Some? ==> r.value in cands && Eligible(r.value, day)
    ensures r.Some? ==> forall b :: b in cands && Eligible(b, day) ==> DateLessEq(r.value.lsttrade, b.lsttrade)
  {
    var rest := Filter(cands, FrontOf(cands, day));
    if |rest| == 1 then
      assert rest[0] in rest;
      Some(rest[0])
    else None
  }

  /** Row `i` is the one eligible contract that expires strictly before every other
      eligible contract. */
  predicate UniqueEarliest(cands: seq<Bar>, day: Date, i: int) {
    && 0 <= i < |cands|
    && Eligible(cands[i], day)
    && forall j :: 0 <= j < |cands| && j != i && Eligible(cands[j], day) ==> DateLess(cands[i].lsttrade, cands[j].lsttrade)
  }

  lemma FrontIsUniqueEarliest(cands: seq<Bar>, day: Date, i: int)
    ensures OnlyAt(cands, FrontOf(cands, day), i) <==> UniqueEarliest(cands, day, i)
  {
    var p := FrontOf(cands, day);
    if OnlyAt(cands, p, i) {
      forall j | 0 <= j < |cands| && j != i && Eligible(cands[j], day)
        ensures DateLess(cands[i].lsttrade, cands[j].lsttrade)
      {
        assert !p(cands[j]);
      }
    }
    if UniqueEarliest(cands, day, i) {
      var m := EarliestLsttrade(cands, day).value;
      var k :| 0 <= k < |cands| && Eligible(cands[k], day) && cands[k].lsttrade == m;
      DateLessTotal(cands[i].lsttrade, m);
      assert m == cands[i].lsttrade;
      forall j | 0 <= j < |cands| && j != i
        ensures !p(cands[j])
      {
        DateLessTotal(cands[i].lsttrade, cands[j].lsttrade);
      }
    }
  }

  /** A bar is written exactly when one eligible contract expires strictly first, and it
      is that contract's bar; ties or no eligible contract write nothing. */
  lemma SelectBarExactlyOne(cands: seq<Bar>, day: Date)
    ensures SelectBar(cands, day).Some? <==> exists i :: UniqueEarliest(cands, day, i)
    ensures forall i :: UniqueEarliest(cands, day, i) ==> SelectBar(cands, day) == Some(cands[i])
  {
    var p := FrontOf(cands, day);
    FilterSingleton(cands, p);
    forall i | 0 <= i < |cands|
      ensures OnlyAt(cands, p, i) <==> UniqueEarliest(cands, day, i)
    {
      FrontIsUniqueEarliest(cands, day, i);
    }
  }

  /** Two eligible contracts with the same last trading day: nothing is written. */
  lemma TieWritesNothing(cands: seq<Bar>, day: Date, i: int, j: int)
    requires 0 <= i < |cands| && 0 <= j < |cands| && i != j
    requires Eligible(cands[i], day) && Eligible(cands[j], day)
    requires cands[i].lsttrade == cands[j].lsttrade
    requires forall k :: 0 <= k < |cands| && Eligible(cands[k], day) ==> DateLessEq(cands[i].lsttrade, cands[k].lsttrade)
    ensures SelectBar(cands, day) == None
  {
    SelectBarExactlyOne(cands, day);
    forall k | 0 <= k < |cands|
      ensures !UniqueEarliest(cands, day, k)
    {
      DateLessTotal(cands[i].lsttrade, cands[k].lsttrade);
    }
  }

  // ---------------------------------------------------------------------------
  // One day of get_future_date_results

  datatype DayOutcome =
    | NoData            // no reply, no `history` block, or no rows in it
    | NoPricedRows      // every row had a null price
    | NotWritten        // the filters did not leave exactly one row
    | Written(bar: Bar) // the bar handed to add_tradedate_future
    | Crashed(error: string)

  /** What one trade date yields, given the history reply after retries (`None` for none)
      and the description reply for each contract. */
  function ProcessDay(day: Date, history: Option<seq<Quote>>, info: string -> Option<seq<DescRow>>): (r: DayOutcome)
    ensures r == NoData <==> history.None? || history == Some([])
    ensures r.Written? ==> exists q :: q in history.value && HasPrices(q) && r.bar == ToBar(q, r.bar.lsttrade)
    ensures r.Written? ==> Eligible(r.bar, day) && ValidDate(r.bar.lsttrade)
  {
    match history
    case None => NoData
    case Some(quotes) =>
      if |quotes| == 0 then NoData
      else
        var priced := Filter(quotes, HasPrices);
        if |priced| == 0 then NoPricedRows
        else
          PricedRows(quotes, priced);
          match Candidates(priced, info)
          case Err(e) => Crashed(e)
          case Ok(cands) =>
            match SelectBar(cands, day)
            case None => NotWritten
            case Some(b) =>
              assert exists q :: q in quotes && HasPrices(q) && b == ToBar(q, b.lsttrade) by {
                var k :| 0 <= k < |cands| && cands[k] == b;
                assert priced[k] in priced;
              }
              Written(b)
  }

  lemma PricedRows(quotes: seq<Quote>, priced: seq<Quote>)
    requires priced == Filter(quotes, HasPrices)
    ensures forall i :: 0 <= i < |priced| ==> priced[i] in quotes && HasPrices(priced[i])
  {
    forall i | 0 <= i < |priced|
      ensures priced[i] in quotes && HasPrices(priced[i])
    {
      assert priced[i] in priced;
    }
  }

  /** Every bar MOEX reports carries a valid trade date. */
  predicate ValidHistory(h: Option<seq<Quote>>) {
    h.Some? ==> forall q :: q in h.value ==> ValidDate(q.tradedate)
  }

  // ---------------------------------------------------------------------------
  // get_future_date_results: the fill loop

  /** `b` is the bar written for one of the requested days. */
  predicate WrittenFor(requested: seq<Date>, history: Date -> Option<seq<Quote>>,
                       info: string -> Option<seq<DescRow>>, b: Bar) {
    exists i :: 0 <= i < |requested| && ProcessDay(requested[i], history(requested[i]), info) == Written(b)
  }

  lemma WrittenForGrows(requested: seq<Date>, d: Date, history: Date -> Option<seq<Quote>>,
                        info: string -> Option<seq<DescRow>>, b: Bar)
    requires WrittenFor(requested, history, info, b) || ProcessDay(d, history(d), info) == Written(b)
    ensures WrittenFor(requested + [d], history, info, b)
  {
    var ext := requested + [d];
    if ProcessDay(d, history(d), info) == Written(b) {
      assert ext[|requested|] == d;
    } else {
      var i :| 0 <= i < |requested| && ProcessDay(requested[i], history(requested[i]), info) == Written(b);
      assert ext[i] == requested[i];
    }
  }

  /** The requested days so far: valid, in `[start, upto)`, before `today`, missing from
      the original table, strictly ascending. */
  predicate RequestedWithin(requested: seq<Date>, start: Date, upto: Date, today: Date, store: Store) {
    && (forall i :: 0 <= i < |requested| ==>
          && ValidDate(requested[i]) && DateLessEq(start, requested[i]) && DateLess(requested[i], upto)
          && DateLess(requested[i], today) && requested[i] !in store)
    && (forall i, j :: 0 <= i < j < |requested| ==> DateLess(requested[i], requested[j]))
  }

  /** Every date in `[start, upto)` is in the table or was requested. */
  ghost predicate Covered(start: Date, upto: Date, r: Store, requested: seq<Date>) {
    forall e :: ValidDate(e) && DateLessEq(start, e) && DateLess(e, upto) ==> e in r || e in requested
  }

  /** The table grew from `store` only by bars written for requested days. */
  ghost predicate Filled(store: Store, r: Store, requested: seq<Date>,
                         history: Date -> Option<seq<Quote>>, info: string -> Option<seq<DescRow>>) {
    && Consistent(r)
    && (forall k :: k in store ==> k in r && r[k] == store[k])
    && (forall k :: k in r && k !in store ==> WrittenFor(requested, history, info, r[k]))
  }

  /** The table after one requested day: its bar, if one is written, is added; a bar whose
      date is already stored is rejected, and no stored row changes. */
  function VisitStore(r: Store, d: Date, history: Date -> Option<seq<Quote>>,
                      info: string -> Option<seq<DescRow>>): (s: Store)
    ensures forall k :: k in r ==> k in s && s[k] == r[k]
    ensures forall k :: k in s && k !in r ==> ProcessDay(d, history(d), info) == Written(s[k])
    ensures ProcessDay(d, history(d), info).Written? ==> ProcessDay(d, history(d), info).bar.tradedate in s
    ensures !ProcessDay(d, history(d), info).Written? ==> s == r
  {
    match ProcessDay(d, history(d), info)
    case Written(b) => AddTradedate(r, b).store
    case _ => r
  }

  lemma VisitFilled(store: Store, r: Store, requested: seq<Date>, d: Date,
                    history: Date -> Option<seq<Quote>>, info: string -> Option<seq<DescRow>>)
    requires Filled(store, r, requested, history, info)
    requires forall e :: ValidHistory(history(e))
    ensures Filled(store, VisitStore(r, d, history, info), requested + [d], history, info)
    ensures forall k :: k in r ==> k in VisitStore(r, d, history, info)
  {
    var r2 := VisitStore(r, d, history, info);
    var outcome := ProcessDay(d, history(d), info);
    if outcome.Written? {
      var b := outcome.bar;
      var q :| q in history(d).value && HasPrices(q) && b == ToBar(q, b.lsttrade);
      assert ValidDate(b.tradedate);
    }
    forall k | k in r2 && k !in store
      ensures WrittenFor(requested + [d], history, info, r2[k])
    {
      WrittenForGrows(requested, d, history, info, r2[k]);
    }
  }

  /** Moving on to the next day keeps the loop facts, once day `d` itself is settled. */
  lemma {:induction false} NextDayKeeps(requested: seq<Date>, start: Date, d: Date, today: Date, store: Store, r: Store)
    requires ValidDate(d) && ValidDate(today) && DateLess(d, today)
    requires forall i :: 0 <= i < |requested| ==>
      && ValidDate(requested[i]) && DateLessEq(start, requested[i]) && DateLessEq(requested[i], d)
      && DateLess(requested[i], today) && requested[i] !in store
    requires forall i, j :: 0 <= i < j < |requested| ==> DateLess(requested[i], requested[j])
    requires Covered(start, d, r, requested) && (d in r || d in requested)
    ensures !IsLastDate(d)
    ensures DayNumber(NextDay(d)) <= DayNumber(today)
    ensures RequestedWithin(requested, start, NextDay(d), today, store)
    ensures Covered(start, NextDay(d), r, requested)
  {
    DayNumberOrder(d, today);
    var next := NextDay(d);
    forall e | ValidDate(e) && DateLessEq(start, e) && DateLess(e, next)
      ensures e in r || e in requested
    {
      NextDayIsSuccessor(d, e);
      DateLessTotal(d, e);
    }
    forall i | 0 <= i < |requested|
      ensures DateLess(requested[i], next)
    {
      NextDayIsSuccessor(d, requested[i]);
      DateLessTotal(d, requested[i]);
    }
  }

  /** A new request for day `d` keeps the requested days ascending and up to `d`. */
  lemma AppendRequest(requested: seq<Date>, start: Date, d: Date, today: Date, store: Store, r: Store)
    requires RequestedWithin(requested, start, d, today, store)
    requires ValidDate(d) && DateLessEq(start, d) && DateLess(d, today) && d !in store
    requires Covered(start, d, r, requested)
    ensures var q := requested + [d];
      && (forall i :: 0 <= i < |q| ==>
            && ValidDate(q[i]) && DateLessEq(start, q[i]) && DateLessEq(q[i], d)
            && DateLess(q[i], today) && q[i] !in store)
      && (forall i, j :: 0 <= i < j < |q| ==> DateLess(q[i], q[j]))
    ensures forall s2 :: (forall k :: k in r ==> k in s2) ==> Covered(start, d, s2, requested + [d])
    ensures d in requested + [d]
  {
  }

  /** The log of the loop: one outcome per requested day, in request order. It records
      which line the script logs for the day, or the exception the day raised. */
  predicate Logged(requested: seq<Date>, log: seq<DayOutcome>,
                   history: Date -> Option<seq<Quote>>, info: string -> Option<seq<DescRow>>) {
    && |log| == |requested|
    && forall i :: 0 <= i < |log| ==> log[i] == ProcessDay(requested[i], history(requested[i]), info)
  }

  /** Each bar the log shows written is in the table under its trade date, and no day was
      requested once a bar with that date had been written. */
  predicate WrittenKept(r: Store, requested: seq<Date>, log: seq<DayOutcome>) {
    && (forall i :: 0 <= i < |log| && log[i].Written? ==> log[i].bar.tradedate in r)
    && (forall i, j :: 0 <= j < i < |log| && i < |requested| && log[j].Written? ==>
          log[j].bar.tradedate != requested[i])
  }

  /** No requested day raised. */
  predicate NoneCrashed(log: seq<DayOutcome>) {
    forall i :: 0 <= i < |log| ==> !log[i].Crashed?
  }

  /** The log ends with the exception `e`, and every earlier day ran to the end. */
  predicate CrashedLast(log: seq<DayOutcome>, e: string) {
    && |log| > 0
    && log[|log| - 1] == Crashed(e)
    && NoneCrashed(log[..|log| - 1])
  }

  /** Requesting a day the table lacks keeps every bar written so far, adds the day's own
      bar, and raises only if that day does. */
  lemma VisitKeeps(r: Store, requested: seq<Date>, log: seq<DayOutcome>, d: Date,
                   history: Date -> Option<seq<Quote>>, info: string -> Option<seq<DescRow>>)
    requires Logged(requested, log, history, info)
    requires WrittenKept(r, requested, log) && NoneCrashed(log)
    requires d !in r
    ensures var o := ProcessDay(d, history(d), info);
      && Logged(requested + [d], log + [o], history, info)
      && WrittenKept(VisitStore(r, d, history, info), requested + [d], log + [o])
      && (!o.Crashed? ==> NoneCrashed(log + [o]))
      && (o.Crashed? ==> CrashedLast(log + [o], o.error))
  {
    var o := ProcessDay(d, history(d), info);
    var q, l := requested + [d], log + [o];
    assert forall i :: 0 <= i < |requested| ==> q[i] == requested[i] && l[i] == log[i];
    assert q[|requested|] == d && l[|log|] == o;
    assert l[..|log|] == log;
  }

  /** The days covered before the last request, with that day itself, are every day up to it. */
  lemma CoveredThroughLast(start: Date, d: Date, r: Store, requested: seq<Date>)
    requires Covered(start, d, r, requested)
    requires |requested| > 0 && requested[|requested| - 1] == d
    ensures forall e :: ValidDate(e) && DateLessEq(start, e) && DateLessEq(e, requested[|requested| - 1]) ==>
      e in r || e in requested
  {
  }

  /** What the loop keeps on reaching day `d`, before any day has raised. */
  ghost predicate Filling(store: Store, start: Date, today: Date, d: Date, r: Store, requested: seq<Date>,
                          log: seq<DayOutcome>,
                          history: Date -> Option<seq<Quote>>, info: string -> Option<seq<DescRow>>) {
    && ValidDate(d) && DateLessEq(start, d)
    && Filled(store, r, requested, history, info)
    && RequestedWithin(requested, start, d, today, store)
    && Covered(start, d, r, requested)
    && Logged(requested, log, history, info)
    && WrittenKept(r, requested, log)
    && NoneCrashed(log)
    && (start !in store && d != start ==> |requested| > 0 && requested[0] == start)
  }

  /** A day the table already holds is skipped. */
  lemma SkipStep(store: Store, start: Date, today: Date, d: Date, r: Store, requested: seq<Date>,
                 log: seq<DayOutcome>,
                 history: Date -> Option<seq<Quote>>, info: string -> Option<seq<DescRow>>)
    requires ValidDate(today) && DateLess(d, today) && d in r
    requires Filling(store, start, today, d, r, requested, log, history, info)
    ensures !IsLastDate(d) && DayNumber(NextDay(d)) <= DayNumber(today)
    ensures Filling(store, start, today, NextDay(d), r, requested, log, history, info)
  {
    NextDayKeeps(requested, start, d, today, store, r);
    if start !in store && d == start {
      // the start was not stored, so only a requested day could have written it, yet no
      // day is requested before the loop reaches the start
      assert false;
    }
  }

  /** A day the table lacks is requested: its bar, if any, is stored, and either the day
      raises and ends the run, or the loop moves on to the next day. */
  lemma RequestStep(store: Store, start: Date, today: Date, d: Date, r: Store, requested: seq<Date>,
                    log: seq<DayOutcome>,
                    history: Date -> Option<seq<Quote>>, info: string -> Option<seq<DescRow>>)
    requires ValidDate(today) && DateLess(d, today) && d !in r
    requires forall e :: ValidHistory(history(e))
    requires Filling(store, start, today, d, r, requested, log, history, info)
    ensures var r2, q, l := VisitStore(r, d, history, info), requested + [d], log + [ProcessDay(d, history(d), info)];
      && Filled(store, r2, q, history, info)
      && Logged(q, l, history, info)
      && WrittenKept(r2, q, l)
      && (forall i :: 0 <= i < |q| ==> DateLessEq(start, q[i]) && DateLess(q[i], today) && q[i] !in store)
      && (forall i, j :: 0 <= i < j < |q| ==> DateLess(q[i], q[j]))
      && (start !in store ==> q[0] == start)
      && (ProcessDay(d, history(d), info).Crashed? ==>
            && CrashedLast(l, ProcessDay(d, history(d), info).error)
            && forall e :: ValidDate(e) && DateLessEq(start, e) && DateLessEq(e, q[|q| - 1]) ==> e in r2 || e in q)
    ensures !ProcessDay(d, history(d), info).Crashed? ==>
      && !IsLastDate(d) && DayNumber(NextDay(d)) <= DayNumber(today)
      && Filling(store, start, today, NextDay(d), VisitStore(r, d, history, info), requested + [d],
                 log + [ProcessDay(d, history(d), info)], history, info)
  {
    var r2, q := VisitStore(r, d, history, info), requested + [d];
    VisitFilled(store, r, requested, d, history, info);
    AppendRequest(requested, start, d, today, store, r);
    VisitKeeps(r, requested, log, d, history, info);
    if ProcessDay(d, history(d), info).Crashed? {
      CoveredThroughLast(start, d, r2, q);
    } else {
      NextDayKeeps(q, start, d, today, store, r2);
    }
  }

  /** Starting at `start`, every date before `today` that the table lacks (at the moment
      the loop reaches it) is requested, in ascending order; a written bar is inserted
      under its own trade date, rows already present are never altered, and an exception
      ends the loop with the rows inserted so far kept. The error is exactly the exception
      of the last requested day, and every earlier day ran to the end. */
  method FillDays(store: Store, start: Date, today: Date,
                  history: Date -> Option<seq<Quote>>, info: string -> Option<seq<DescRow>>)
    returns (r: Store, requested: seq<Date>, log: seq<DayOutcome>, error: Option<string>)
    requires Consistent(store) && ValidDate(start) && ValidDate(today)
    requires forall d :: ValidHistory(history(d))
    ensures Consistent(r)
    ensures forall d :: d in store ==> d in r && r[d] == store[d]
    ensures forall i :: 0 <= i < |requested| ==>
      DateLessEq(start, requested[i]) && DateLess(requested[i], today) && requested[i] !in store
    ensures forall i, j :: 0 <= i < j < |requested| ==> DateLess(requested[i], requested[j])
    ensures forall d :: d in r && d !in store ==> WrittenFor(requested, history, info, r[d])
    ensures error.None? ==> forall d :: ValidDate(d) && DateLessEq(start, d) && DateLess(d, today) ==>
      d in r || d in requested
    ensures Logged(requested, log, history, info)
    ensures WrittenKept(r, requested, log)
    ensures error.None? ==> NoneCrashed(log)
    ensures error.Some? ==> CrashedLast(log, error.value)
    ensures error.Some? ==> |requested| > 0 && forall d ::
      ValidDate(d) && DateLessEq(start, d) && DateLessEq(d, requested[|requested| - 1]) ==> d in r || d in requested
    ensures DateLess(start, today) && start !in store ==> |requested| > 0 && requested[0] == start
  {
    r, requested, log, error := store, [], [], None;
    var d := start;
    while DateLess(d, today)
      invariant Filling(store, start, today, d, r, requested, log, history, info)
      decreases DayNumber(today) - DayNumber(d)
    {
      if d !in r {
        var outcome := ProcessDay(d, history(d), info);
        RequestStep(store, start, today, d, r, requested, log, history, info);
        r, requested, log := VisitStore(r, d, history, info), requested + [d], log + [outcome];
        if outcome.Crashed? {
          return r, requested, log, Some(outcome.error);
        }
      } else {
        SkipStep(store, start, today, d, r, requested, log, history, info);
      }
      d := NextDay(d);
    }
    forall e | ValidDate(e) && DateLessEq(start, e) && DateLess(e, today)
      ensures e in r || e in requested
    {
      DateLessTotal(d, today);
      assert DateLess(e, d);
    }
  }

  // ---------------------------------------------------------------------------
  // Start-date policies

  /** The first date both scripts load when the table is empty. */
  const DefaultStart: Date := Date(2025, 1, 1)

  /** The table once the start-up deletion is committed, and the first date to request or
      the error that ends the run. The deletion stays committed when the start fails. */
  datatype Start = Start(store: Store, start: Result<Date>)

  /** Every date of a table whose dates are at most `m` comes before the day after `m`. */
  lemma AllBeforeNextDay(s: Store, m: Date)
    requires Consistent(s) && ValidDate(m) && !IsLastDate(m)
    requires forall d :: d in s ==> DateLessEq(d, m)
    ensures forall d :: d in s ==> DateLess(d, NextDay(m))
  {
    forall d | d in s
      ensures DateLess(d, NextDay(m))
    {
      NextDayIsSuccessor(m, m);
      DayNumberOrder(d, m);
      DayNumberOrder(d, NextDay(m));
    }
  }

  /** Deleting the only row of a table empties it. */
  lemma DeleteOnlyRow(s: Store, m: Date)
    requires |s| == 1 && m in s
    ensures Delete(s, m) == map[]
  {
    assert s.Keys == {m} by {
      forall d | d in s
        ensures d == m
      {
        if d != m {
          assert {d, m} <= s.Keys;
          assert |{d, m}| == 2;
          SubsetCardinality({d, m}, s.Keys);
        }
      }
    }
  }

  lemma SubsetCardinality(a: set<Date>, b: set<Date>)
    requires a <= b
    ensures |a| <= |b|
  {
    assert b == a + (b - a);
  }

  /** futures_scraper.py `main` as written: on a non-empty table, delete the newest bar and
      commit, then start the day after it. `date + timedelta(days=1)` overflows after
      9999-12-31, after the deletion is committed. */
  function ScraperStart(s: Store): (r: Start)
    requires Consistent(s)
    ensures !NonEmpty(s) ==> r == Start(s, Ok(DefaultStart))
    ensures NonEmpty(s) ==> var m := MaxDate(s).value;
      && r.store == Delete(s, m)
      && (r.start.Ok? <==> !IsLastDate(m))
      && (r.start.Ok? ==>
            && DateLess(m, r.start.value)
            && forall d :: d in r.store ==> DateLess(d, r.start.value))
  {
    match MaxDate(s)
    case None => Start(s, Ok(DefaultStart))
    case Some(m) =>
      if IsLastDate(m) then Start(Delete(s, m), Err("OverflowError: date value out of range"))
      else
        NextDayIsSuccessor(m, m);
        AllBeforeNextDay(Delete(s, m), m);
        Start(Delete(s, m), Ok(NextDay(m)))
  }

  /** The scraper deletes its newest bar and starts after it, so this run never asks for
      that date. It is fetched again only if a later run's delete drops the maximum below
      it. */
  lemma ScraperStartDropsNewest(s: Store)
    requires Consistent(s) && NonEmpty(s)
    requires ScraperStart(s).start.Ok?
    ensures var m := MaxDate(s).value;
      m !in ScraperStart(s).store && !DateLessEq(ScraperStart(s).start.value, m)
  {
    var m := MaxDate(s).value;
    DateLessTotal(m, ScraperStart(s).start.value);
  }

  /** The same policy with the evident intent: delete the newest bar and start at its date,
      so that the possibly incomplete bar is fetched afresh. */
  function ScraperStartRefetching(s: Store): (r: Start)
    requires Consistent(s)
    ensures !NonEmpty(s) ==> r == Start(s, Ok(DefaultStart))
    ensures NonEmpty(s) ==> var m := MaxDate(s).value;
      r.store == Delete(s, m) && r.start == Ok(m) && m !in r.store
      && forall d :: d in r.store ==> DateLess(d, m)
  {
    match MaxDate(s)
    case None => Start(s, Ok(DefaultStart))
    case Some(m) =>
      assert forall d :: d in Delete(s, m) ==> DateLess(d, m) by {
        forall d | d in Delete(s, m)
          ensures DateLess(d, m)
        {
          DateLessTotal(d, m);
        }
      }
      Start(Delete(s, m), Ok(m))
  }

  /** update_futures_RTS_day_rss.py as written: on a non-empty table, delete the newest bar
      and commit, then start the day after the newest remaining one. When the deleted bar
      was the only one, `get_max_date_futures` gives `None` and `strptime(None, ...)` raises
      TypeError, leaving the table empty. */
  function UpdateStart(s: Store): (r: Start)
    requires Consistent(s)
    ensures !NonEmpty(s) ==> r == Start(s, Ok(DefaultStart))
    ensures NonEmpty(s) ==> r.store == Delete(s, MaxDate(s).value) && (r.start.Err? <==> |s| == 1)
    ensures NonEmpty(s) && r.start.Ok? ==>
      && DateLessEq(r.start.value, MaxDate(s).value)
      && forall d :: d in r.store ==> DateLess(d, r.start.value)
  {
    match MaxDate(s)
    case None => Start(s, Ok(DefaultStart))
    case Some(m) =>
      var rest := Delete(s, m);
      DeleteMaxLowersMax(s);
      match MaxDate(rest)
      case None => Start(rest, Err("TypeError: strptime() argument 1 must be str, not None"))
      case Some(m2) =>
        BeforeIsNotLast(m2, m);
        NextDayIsSuccessor(m2, m);
        AllBeforeNextDay(rest, m2);
        Start(rest, Ok(NextDay(m2)))
  }

  /** A failed update on a one-row table has emptied it, so the next run starts over from
      the default date: every bar already loaded is requested again. */
  lemma UpdateFailureRestartsAtDefault(s: Store)
    requires Consistent(s) && |s| == 1
    ensures UpdateStart(s).store == map[]
    ensures UpdateStart(UpdateStart(s).store) == Start(map[], Ok(DefaultStart))
  {
  }

  /** The update policy with the empty case handled: when the deleted bar was the only one,
      start again from the default date. */
  function UpdateStartFallback(s: Store): (r: Start)
    requires Consistent(s)
    ensures r.start.Ok?
    ensures !NonEmpty(s) ==> r == Start(s, Ok(DefaultStart))
    ensures NonEmpty(s) ==> r.store == Delete(s, MaxDate(s).value)
    ensures |s| == 1 ==> r.start == Ok(DefaultStart)
    ensures |s| != 1 ==> UpdateStart(s) == r
  {
    var st := UpdateStart(s);
    if st.start.Ok? then st else Start(st.store, Ok(DefaultStart))
  }

  // ---------------------------------------------------------------------------
  // Whole runs: start policy, then the fill loop.

  /** futures_scraper.py `main`: the newest bar is deleted and never requested again by
      this run; any exception is caught and logged, after the deletion is committed. */
  method RunScraper(s: Store, today: Date,
                    history: Date -> Option<seq<Quote>>, info: string -> Option<seq<DescRow>>)
    returns (r: Store, requested: seq<Date>, log: seq<DayOutcome>, error: Option<string>)
    requires Consistent(s) && ValidDate(today)
    requires forall d :: ValidHistory(history(d))
    ensures Consistent(r)
    ensures NonEmpty(s) ==> MaxDate(s).value !in requested
    ensures NonEmpty(s) ==> MaxDate(s).value !in r || WrittenFor(requested, history, info, r[MaxDate(s).value])
    ensures NonEmpty(s) && IsLastDate(MaxDate(s).value) ==>
      error.Some? && r == Delete(s, MaxDate(s).value) && requested == []
  {
    var st := ScraperStart(s);
    match st.start {
      case Err(e) =>
        return st.store, [], [], Some(e);
      case Ok(start) =>
        r, requested, log, error := FillDays(st.store, start, today, history, info);
        if NonEmpty(s) {
          var m := MaxDate(s).value;
          forall i | 0 <= i < |requested|
            ensures requested[i] != m
          {
            ScraperStartDropsNewest(s);
          }
        }
    }
  }

  /** The scraper with the newest bar fetched afresh: when the deleted date is before
      today it is the first date requested, whether or not a later day raises; the error
      is the exception of the last requested day. */
  method RunScraperRefetching(s: Store, today: Date,
                              history: Date -> Option<seq<Quote>>, info: string -> Option<seq<DescRow>>)
    returns (r: Store, requested: seq<Date>, log: seq<DayOutcome>, error: Option<string>)
    requires Consistent(s) && ValidDate(today)
    requires forall d :: ValidHistory(history(d))
    ensures Consistent(r)
    ensures NonEmpty(s) && DateLess(MaxDate(s).value, today) && error.None? ==>
      MaxDate(s).value in requested || MaxDate(s).value in r
    ensures NonEmpty(s) && DateLess(MaxDate(s).value, today) ==> |requested| > 0 && requested[0] == MaxDate(s).value
    ensures Logged(requested, log, history, info)
    ensures error.None? ==> NoneCrashed(log)
    ensures error.Some? ==> CrashedLast(log, error.value)
  {
    var st := ScraperStartRefetching(s);
    r, requested, log, error := FillDays(st.store, st.start.value, today, history, info);
  }

  /** update_futures_RTS_day_rss.py `__main__`: when the start is found, the deleted newest
      date lies in the range the fill revisits, so when it is before today it is requested
      again, or its bar came back with another day's reply, unless an earlier day raised.
      Any other error is the exception of the last requested day. On a one-row table the
      only bar is deleted and committed before the script raises, so the table is left
      empty. */
  method RunUpdate(s: Store, today: Date,
                   history: Date -> Option<seq<Quote>>, info: string -> Option<seq<DescRow>>)
    returns (r: Store, requested: seq<Date>, log: seq<DayOutcome>, error: Option<string>)
    requires Consistent(s) && ValidDate(today)
    requires forall d :: ValidHistory(history(d))
    ensures Consistent(r)
    ensures |s| == 1 ==> error.Some? && r == map[] && requested == []
    ensures NonEmpty(s) && DateLess(MaxDate(s).value, today) && error.None? ==>
      MaxDate(s).value in requested || MaxDate(s).value in r
    ensures Logged(requested, log, history, info)
    ensures |s| != 1 && error.None? ==> NoneCrashed(log)
    ensures |s| != 1 && error.Some? ==> CrashedLast(log, error.value)
    ensures |s| > 1 && DateLess(MaxDate(s).value, today) ==>
      || MaxDate(s).value in requested || MaxDate(s).value in r
      || (error.Some? && |requested| > 0 && DateLess(requested[|requested| - 1], MaxDate(s).value))
  {
    var st := UpdateStart(s);
    match st.start {
      case Err(e) =>
        DeleteOnlyRow(s, MaxDate(s).value);
        return st.store, [], [], Some(e);
      case Ok(start) =>
        r, requested, log, error := FillDays(st.store, start, today, history, info);
        if error.Some? && NonEmpty(s) {
          DateLessTotal(requested[|requested| - 1], MaxDate(s).value);
        }
    }
  }

  // ---------------------------------------------------------------------------
  // A concrete store showing the two policies apart.

  const Jan9: Date := Date(2025, 1, 9)
  const Jan10: Date := Date(2025, 1, 10)

  function BarOn(d: Date): Bar {
    Bar(d, "RIH5", 1, 1, 1, 1, Date(2025, 3, 20))
  }

  /** Bars for January 9 and 10: the scraper drops the 10th and starts on the 11th, the
      update script restarts on the 10th, and with only the 10th stored the update script
      deletes it and raises. */
  lemma StartPoliciesExample()
    ensures ScraperStart(map[Jan9 := BarOn(Jan9), Jan10 := BarOn(Jan10)]) ==
      Start(map[Jan9 := BarOn(Jan9)], Ok(Date(2025, 1, 11)))
    ensures UpdateStart(map[Jan9 := BarOn(Jan9), Jan10 := BarOn(Jan10)]) ==
      Start(map[Jan9 := BarOn(Jan9)], Ok(Jan10))
    ensures UpdateStart(map[Jan10 := BarOn(Jan10)]).store == map[]
    ensures UpdateStart(map[Jan10 := BarOn(Jan10)]).start.Err?
    ensures UpdateStartFallback(map[Jan10 := BarOn(Jan10)]) == Start(map[], Ok(DefaultStart))
  {
    var two := map[Jan9 := BarOn(Jan9), Jan10 := BarOn(Jan10)];
    var one := map[Jan10 := BarOn(Jan10)];
    assert MaxDate(two) == Some(Jan10);
    assert Delete(two, Jan10) == map[Jan9 := BarOn(Jan9)];
    assert Jan9 in map[Jan9 := BarOn(Jan9)];
    assert MaxDate(map[Jan9 := BarOn(Jan9)]) == Some(Jan9);
    assert MaxDate(one) == Some(Jan10);
    assert Delete(one, Jan10) == map[];
    assert |one| == 1;
  }
}
