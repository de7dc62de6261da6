/** The `Futures` table of daily bars (sqlighter3_RTS_day.py, and the same helpers copied
    into futures_scraper.py), keyed by its primary key TRADEDATE. */
module FuturesStore {
  import opened Base
  import opened Calendar

  /** One row: trade date, contract code, prices and the contract's last trading day.
      Prices are kept as integers; the model only ever compares them. */
  datatype Bar = Bar(tradedate: Date, secid: string, open: int, low: int, high: int, close: int, lsttrade: Date)

  /** `TRADEDATE DATE PRIMARY KEY`: at most one bar per date, found under its own date. */
  type Store = map<Date, Bar>

  predicate Consistent(s: Store) {
    forall d :: d in s ==> s[d].tradedate == d && ValidDate(d) && ValidDate(s[d].lsttrade)
  }

  /** The greatest date of a set. */
  predicate IsGreatest(m: Date, keys: set<Date>) {
    m in keys && forall d :: d in keys ==> DateLessEq(d, m)
  }

  lemma {:induction false} GreatestExists(keys: set<Date>)
    requires keys != {}
    ensures exists m :: IsGreatest(m, keys)
    decreases |keys|
  {
    var x :| x in keys;
    var rest := keys - {x};
    if rest == {} {
      forall d | d in keys
        ensures d == x
      {
        assert d !in rest;
      }
      assert IsGreatest(x, keys);
    } else {
      GreatestExists(rest);
      var m :| IsGreatest(m, rest);
      DateLessTotal(x, m);
      if DateLess(m, x) {
        forall d | d in keys
          ensures DateLessEq(d, x)
        {
          if d != x {
            assert DateLessEq(d, m);
          }
        }
        assert IsGreatest(x, keys);
      } else {
        assert IsGreatest(m, keys);
      }
    }
  }

  /** `MAX(...)` over a DATE column. The column holds ISO `YYYY-MM-DD` text, whose
      string order is date order; `None` is SQL NULL from an empty table. */
  function MaxOf(keys: set<Date>): (r: Option<Date>)
    ensures r.None? <==> keys == {}
    ensures r.Some? ==> IsGreatest(r.value, keys)
  {
    if keys == {} then None
    else
      GreatestExists(keys);
      var m :| IsGreatest(m, keys);
      Some(m)
  }

  /** The outcome of `add_tradedate_future`: the new table, and whether SQLite raised the
      `IntegrityError` that the helper catches and prints. */
  datatype AddOutcome = AddOutcome(store: Store, rejected: bool)

  /** `add_tradedate_future`: an absent date gains exactly the given bar; a present date
      violates the primary key, the insert is rejected and the table is unchanged. */
  function AddTradedate(s: Store, b: Bar): (r: AddOutcome)
    ensures r.rejected <==> b.tradedate in s
    ensures r.rejected ==> r.store == s
    ensures !r.rejected ==> r.store.Keys == s.Keys + {b.tradedate} && r.store[b.tradedate] == b
    ensures forall d :: d in s ==> d in r.store && r.store[d] == s[d]
    ensures Consistent(s) && ValidDate(b.tradedate) && ValidDate(b.lsttrade) ==> Consistent(r.store)
  {
    if b.tradedate in s then AddOutcome(s, true) else AddOutcome(s[b.tradedate := b], false)
  }

  /** `tradedate_futures_exists`: some row carries this trade date. */
  function TradedateExists(s: Store, d: Date): (r: bool)
    requires Consistent(s)
    ensures r <==> exists b :: b in s.Values && b.tradedate == d
  {
    assert d in s ==> s[d] in s.Values;
    d in s
  }

  /** `non_empty_table_futures`: `SELECT 1 ... LIMIT 1` finds a row. */
  function NonEmpty(s: Store): (r: bool)
    ensures r <==> exists d :: d in s
  {
    s != map[]
  }

  /** `get_max_date_futures` of sqlighter3_RTS_day.py: the latest trade date, `None` on an
      empty table. */
  function MaxDate(s: Store): (r: Option<Date>)
    ensures r.None? <==> !NonEmpty(s)
    ensures r.Some? ==> r.value in s && forall d :: d in s ==> DateLessEq(d, r.value)
  {
    MaxOf(s.Keys)
  }

  /** The date futures_scraper.py falls back to when the table is empty. */
  const EmptyTableDate: Date := Date(2014, 1, 1)

  /** `get_max_date_futures` of futures_scraper.py: the latest trade date, or 2014-01-01. */
  function MaxDateOrDefault(s: Store): (r: Date)
    ensures !NonEmpty(s) ==> r == EmptyTableDate
    ensures NonEmpty(s) ==> r in s && forall d :: d in s ==> DateLessEq(d, r)
  {
    match MaxDate(s)
    case None => EmptyTableDate
    case Some(m) => m
  }

  /** `get_max_lsttrade`: the latest last-trading day over all rows. */
  function MaxLsttrade(s: Store): (r: Option<Date>)
    ensures r.None? <==> !NonEmpty(s)
    ensures r.Some? ==> (exists d :: d in s && s[d].lsttrade == r.value)
    ensures r.Some? ==> forall d :: d in s ==> DateLessEq(s[d].lsttrade, r.value)
  {
    var lsttrades := set d | d in s :: s[d].lsttrade;
    assert forall d :: d in s ==> s[d].lsttrade in lsttrades;
    MaxOf(lsttrades)
  }

  /** `DELETE FROM Futures WHERE TRADEDATE = ?`. */
  function Delete(s: Store, d: Date): (r: Store)
    ensures d !in r
    ensures forall e :: e != d ==> (e in r <==> e in s) && (e in r ==> r[e] == s[e])
  {
    s - {d}
  }

  // ---------------------------------------------------------------------------
  // How the helpers fit together.

  /** Once added, a bar's date exists, and adding the same bar again changes nothing. */
  lemma AddThenExists(s: Store, b: Bar)
    requires Consistent(s) && ValidDate(b.tradedate) && ValidDate(b.lsttrade)
    ensures TradedateExists(AddTradedate(s, b).store, b.tradedate)
    ensures AddTradedate(AddTradedate(s, b).store, b).store == AddTradedate(s, b).store
  {
  }

  /** Adding moves the latest date up to the added date if it is later. */
  lemma AddMaxDate(s: Store, b: Bar)
    requires b.tradedate !in s
    ensures var m := MaxDate(AddTradedate(s, b).store).value;
      if MaxDate(s).Some? && DateLess(b.tradedate, MaxDate(s).value) then m == MaxDate(s).value
      else m == b.tradedate
  {
    var r := AddTradedate(s, b).store;
    var m := MaxDate(r).value;
    if MaxDate(s).Some? {
      var prev := MaxDate(s).value;
      DateLessTotal(b.tradedate, prev);
      DateLessTotal(m, prev);
      DateLessTotal(m, b.tradedate);
    }
  }

  /** Deleting the latest row leaves only strictly earlier dates. */
  lemma DeleteMaxLowersMax(s: Store)
    requires NonEmpty(s)
    ensures var m := MaxDate(s).value;
      forall d :: d in Delete(s, m) ==> DateLess(d, m)
    ensures var m := MaxDate(s).value;
      MaxDate(Delete(s, m)).Some? ==> DateLess(MaxDate(Delete(s, m)).value, m)
    ensures |Delete(s, MaxDate(s).value)| == |s| - 1
  {
    var m := MaxDate(s).value;
    assert Delete(s, m).Keys == s.Keys - {m};
  }
}
