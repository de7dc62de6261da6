/** The three ways the scripts remove repeated news. They differ in the grouping key and in
    which member of a group is kept, and each is modelled as its own file writes it. */
module Dedup {
  import opened Base
  import opened Calendar
  import opened NewsTable

  // ===========================================================================
  // (calendar day, title), earliest date: the `ROW_NUMBER() OVER (PARTITION BY
  // DATE(date), title ORDER BY date ASC)` purge of main_server_beget.py and
  // dublicates_db_delete.py.

  /** `(DATE(date), title)`; `DATE(NULL)` is NULL, and NULLs fall in one partition. */
  datatype DayKey = DayKey(day: Option<Date>, title: Option<string>)

  function DayOf(s: Option<DateTime>): Option<Date> {
    if s.Some? then Some(s.value.date) else None
  }

  function DayKeyOf(r: Row): DayKey {
    DayKey(DayOf(r.stamp), r.title)
  }

  function DayKeys(t: seq<Row>): (ks: seq<DayKey>)
    ensures |ks| == |t|
    ensures forall i :: 0 <= i < |t| ==> ks[i] == DayKeyOf(t[i])
  {
    seq(|t|, i requires 0 <= i < |t| => DayKeyOf(t[i]))
  }

  /** `ORDER BY date ASC` in SQLite: NULL sorts before every date, and the stored text
      orders dates chronologically. */
  predicate EarlierNullFirst(a: Option<DateTime>, b: Option<DateTime>) {
    match a
    case None => b.Some?
    case Some(x) => b.Some? && DateTimeLess(x, b.value)
  }

  /** The rank inside a partition. SQLite leaves the order of equal dates unspecified;
      the model ranks them by rowid. */
  predicate RanksBeforeByDate(a: Row, b: Row) {
    EarlierNullFirst(a.stamp, b.stamp) || (a.stamp == b.stamp && a.rowid < b.rowid)
  }

  /** `rn = 1`: no row of the same (day, title) partition ranks before `x`. */
  predicate FirstOfDay(t: seq<Row>, x: Row) {
    forall i :: 0 <= i < |t| && DayKeyOf(t[i]) == DayKeyOf(x) ==> !RanksBeforeByDate(t[i], x)
  }

  function IsFirstOfDay(t: seq<Row>): Row -> bool {
    (x: Row) => FirstOfDay(t, x)
  }

  lemma RanksBeforeByDateOrder(a: Row, b: Row, c: Row)
    ensures !RanksBeforeByDate(a, a)
    ensures RanksBeforeByDate(a, b) && RanksBeforeByDate(b, c) ==> RanksBeforeByDate(a, c)
  {
  }

  /** Two different rows of one partition are ranked one way or the other. */
  lemma RanksBeforeByDateTotal(a: Row, b: Row)
    ensures DayKeyOf(a) == DayKeyOf(b) && a.rowid != b.rowid ==>
      RanksBeforeByDate(a, b) || RanksBeforeByDate(b, a)
  {
    if a.stamp.Some? && b.stamp.Some? {
      DateTimeLessTotal(a.stamp.value, b.stamp.value);
    }
  }

  /** `DELETE FROM news WHERE rowid NOT IN (SELECT rowid ... WHERE rn = 1)`: the rows
      that rank first in their (day, title) partition, in table order. */
  function PurgeByDay(t: seq<Row>): (r: seq<Row>)
    requires WellFormed(t)
    ensures IsSubsequence(r, t) && WellFormed(r)
    ensures forall x :: x in r <==> x in t && FirstOfDay(t, x)
  {
    var r := Filter(t, IsFirstOfDay(t));
    FilterIsSubsequence(t, IsFirstOfDay(t));
    SubsequenceWellFormed(r, t);
    r
  }

  /** After the purge no two rows share a (day, title) key. */
  lemma PurgeByDayOnePerKey(t: seq<Row>)
    requires WellFormed(t)
    ensures var r := PurgeByDay(t);
      forall i, j :: 0 <= i < j < |r| ==> DayKeyOf(r[i]) != DayKeyOf(r[j])
  {
    var r := PurgeByDay(t);
    forall i, j | 0 <= i < j < |r|
      ensures DayKeyOf(r[i]) != DayKeyOf(r[j])
    {
      assert r[i] in r && r[j] in r;
      assert r[i].rowid < r[j].rowid;
      RanksBeforeByDateTotal(r[i], r[j]);
    }
  }

  /** Every (day, title) key of the table still has a row after the purge. */
  lemma PurgeByDayKeepsEveryKey(t: seq<Row>, x: Row)
    requires WellFormed(t) && x in t
    ensures exists y :: y in PurgeByDay(t) && DayKeyOf(y) == DayKeyOf(x)
  {
    var inGroup := (y: Row) => DayKeyOf(y) == DayKeyOf(x);
    var before := (a: Row, b: Row) => RanksBeforeByDate(a, b);
    forall a | a in t
      ensures !before(a, a)
    {
      RanksBeforeByDateOrder(a, a, a);
    }
    forall a, b, c | a in t && b in t && c in t && before(a, b) && before(b, c)
      ensures before(a, c)
    {
      RanksBeforeByDateOrder(a, b, c);
    }
    MinimalExists(t, inGroup, before, x);
    var m :| m in t && inGroup(m) && forall y :: y in t && inGroup(y) ==> !before(y, m);
    forall i | 0 <= i < |t| && DayKeyOf(t[i]) == DayKeyOf(m)
      ensures !RanksBeforeByDate(t[i], m)
    {
      assert t[i] in t && inGroup(t[i]);
    }
  }

  /** The surviving row of a group has the earliest date of the group (NULL first). */
  lemma PurgeByDayKeepsEarliest(t: seq<Row>, x: Row, y: Row)
    requires WellFormed(t) && x in t && y in PurgeByDay(t) && DayKeyOf(x) == DayKeyOf(y)
    ensures !EarlierNullFirst(x.stamp, y.stamp)
  {
    var i :| 0 <= i < |t| && t[i] == x;
  }

  /** A row whose (day, title) key occurs nowhere else is never deleted. */
  lemma UniqueDayKeySurvives(t: seq<Row>, x: Row)
    requires WellFormed(t) && x in t
    requires forall i :: 0 <= i < |t| && DayKeyOf(t[i]) == DayKeyOf(x) ==> t[i] == x
    ensures x in PurgeByDay(t)
  {
  }

  /** A second purge deletes nothing. */
  lemma PurgeByDayIdempotent(t: seq<Row>)
    requires WellFormed(t)
    ensures PurgeByDay(PurgeByDay(t)) == PurgeByDay(t)
  {
    var r := PurgeByDay(t);
    SubsequenceElements(r, t);
    forall k | 0 <= k < |r|
      ensures IsFirstOfDay(r)(r[k])
    {
      assert r[k] in r;
      forall i | 0 <= i < |r| && DayKeyOf(r[i]) == DayKeyOf(r[k])
        ensures !RanksBeforeByDate(r[i], r[k])
      {
        assert r[i] in r;
        var m :| 0 <= m < |t| && t[m] == r[i];
      }
    }
    FilterAll(r, IsFirstOfDay(r));
  }

  /** The number of rows left is the number of distinct (day, title) keys, so the count
      the script logs, before minus after, is the row count minus that number. */
  lemma PurgeByDayCount(t: seq<Row>)
    requires WellFormed(t)
    ensures |PurgeByDay(t)| == |Distinct(DayKeys(t))|
  {
    var r := PurgeByDay(t);
    SubsequenceElements(r, t);
    forall k
      ensures k in DayKeys(r) <==> k in DayKeys(t)
    {
      if k in DayKeys(r) {
        var i :| 0 <= i < |r| && DayKeys(r)[i] == k;
        assert r[i] in r;
        var m :| 0 <= m < |t| && t[m] == r[i];
        assert DayKeys(t)[m] == k;
      }
      if k in DayKeys(t) {
        var m :| 0 <= m < |t| && DayKeys(t)[m] == k;
        assert t[m] in t;
        PurgeByDayKeepsEveryKey(t, t[m]);
        var y :| y in r && DayKeyOf(y) == DayKeyOf(t[m]);
        var i :| 0 <= i < |r| && r[i] == y;
        assert DayKeys(r)[i] == k;
      }
    }
    PurgeByDayOnePerKey(t);
    DistinctCount(DayKeys(r), DayKeys(t));
  }

  /** The outcome of `remove_duplicates_from_db`: the table afterwards and the deleted
      count it logs (`None` when an exception was logged instead). */
  datatype PurgeOutcome = PurgeOutcome(table: seq<Row>, deleted: Option<int>)

  /** `remove_duplicates_from_db` in main_server_beget.py. `fails` stands for any
      exception inside the `with` block, after which the connection rolls the delete back. */
  function RemoveDuplicatesByDay(t: seq<Row>, fails: bool): (o: PurgeOutcome)
    requires WellFormed(t)
    ensures fails ==> o.table == t && o.deleted == None
    ensures !fails ==> o.table == PurgeByDay(t)
    ensures !fails ==> o.deleted == Some(|t| - |Distinct(DayKeys(t))|)
  {
    if fails then PurgeOutcome(t, None)
    else
      PurgeByDayCount(t);
      var after := PurgeByDay(t);
      PurgeOutcome(after, Some(|t| - |after|))
  }

  /** dublicates_db_delete.py: the same purge, committed; on `sqlite3.Error` the
      transaction is rolled back and the table is as it was. */
  function DeleteDuplicatesScript(t: seq<Row>, fails: bool): (r: seq<Row>)
    requires WellFormed(t)
    ensures fails ==> r == t
    ensures !fails ==> r == PurgeByDay(t)
    ensures IsSubsequence(r, t)
  {
    if fails then
      IsSubsequenceRefl(t);
      t
    else PurgeByDay(t)
  }

  // ===========================================================================
  // Exact (date, title), minimum rowid: the `GROUP BY date, title` purge of main_01.py.

  /** `(date, title)` compared as stored; NULLs group together. */
  datatype StampKey = StampKey(stamp: Option<DateTime>, title: Option<string>)

  function StampKeyOf(r: Row): StampKey {
    StampKey(r.stamp, r.title)
  }

  function StampKeys(t: seq<Row>): (ks: seq<StampKey>)
    ensures |ks| == |t|
    ensures forall i :: 0 <= i < |t| ==> ks[i] == StampKeyOf(t[i])
  {
    seq(|t|, i requires 0 <= i < |t| => StampKeyOf(t[i]))
  }

  /** `rowid = MIN(rowid)` over the row's (date, title) group. */
  predicate MinRowidOfGroup(t: seq<Row>, x: Row) {
    forall i :: 0 <= i < |t| && StampKeyOf(t[i]) == StampKeyOf(x) ==> x.rowid <= t[i].rowid
  }

  function IsMinRowidOfGroup(t: seq<Row>): Row -> bool {
    (x: Row) => MinRowidOfGroup(t, x)
  }

  /** `DELETE FROM news WHERE rowid NOT IN (SELECT MIN(rowid) FROM news GROUP BY date, title)`:
      the rows holding the smallest rowid of their exact (date, title) group. */
  function PurgeByStamp(t: seq<Row>): (r: seq<Row>)
    requires WellFormed(t)
    ensures IsSubsequence(r, t) && WellFormed(r)
    ensures forall x :: x in r <==> x in t && MinRowidOfGroup(t, x)
  {
    var r := Filter(t, IsMinRowidOfGroup(t));
    FilterIsSubsequence(t, IsMinRowidOfGroup(t));
    SubsequenceWellFormed(r, t);
    r
  }

  /** After the purge no two rows share a (date, title) key. */
  lemma PurgeByStampOnePerKey(t: seq<Row>)
    requires WellFormed(t)
    ensures var r := PurgeByStamp(t);
      forall i, j :: 0 <= i < j < |r| ==> StampKeyOf(r[i]) != StampKeyOf(r[j])
  {
    var r := PurgeByStamp(t);
    forall i, j | 0 <= i < j < |r|
      ensures StampKeyOf(r[i]) != StampKeyOf(r[j])
    {
      assert r[i] in r && r[j] in r;
    }
  }

  /** Every (date, title) key of the table still has a row after the purge. */
  lemma PurgeByStampKeepsEveryKey(t: seq<Row>, x: Row)
    requires WellFormed(t) && x in t
    ensures exists y :: y in PurgeByStamp(t) && StampKeyOf(y) == StampKeyOf(x)
  {
    var inGroup := (y: Row) => StampKeyOf(y) == StampKeyOf(x);
    var before := (a: Row, b: Row) => a.rowid < b.rowid;
    MinimalExists(t, inGroup, before, x);
    var m :| m in t && inGroup(m) && forall y :: y in t && inGroup(y) ==> !before(y, m);
    forall i | 0 <= i < |t| && StampKeyOf(t[i]) == StampKeyOf(m)
      ensures m.rowid <= t[i].rowid
    {
      assert t[i] in t && inGroup(t[i]);
    }
  }

  /** The surviving row of a group has the smallest rowid of the group. */
  lemma PurgeByStampKeepsMinRowid(t: seq<Row>, x: Row, y: Row)
    requires WellFormed(t) && x in t && y in PurgeByStamp(t) && StampKeyOf(x) == StampKeyOf(y)
    ensures y.rowid <= x.rowid
  {
    var i :| 0 <= i < |t| && t[i] == x;
  }

  lemma PurgeByStampIdempotent(t: seq<Row>)
    requires WellFormed(t)
    ensures PurgeByStamp(PurgeByStamp(t)) == PurgeByStamp(t)
  {
    var r := PurgeByStamp(t);
    SubsequenceElements(r, t);
    forall k | 0 <= k < |r|
      ensures IsMinRowidOfGroup(r)(r[k])
    {
      assert r[k] in r;
      forall i | 0 <= i < |r| && StampKeyOf(r[i]) == StampKeyOf(r[k])
        ensures r[k].rowid <= r[i].rowid
      {
        assert r[i] in r;
        var m :| 0 <= m < |t| && t[m] == r[i];
      }
    }
    FilterAll(r, IsMinRowidOfGroup(r));
  }

  lemma PurgeByStampCount(t: seq<Row>)
    requires WellFormed(t)
    ensures |PurgeByStamp(t)| == |Distinct(StampKeys(t))|
  {
    var r := PurgeByStamp(t);
    forall k
      ensures k in StampKeys(r) <==> k in StampKeys(t)
    {
      PurgedStampKeyIsKey(t, k);
      StampKeyIsPurgedKey(t, k);
    }
    PurgeByStampOnePerKey(t);
    DistinctCount(StampKeys(r), StampKeys(t));
  }

  /** Every key left after the purge was a key before it. */
  lemma PurgedStampKeyIsKey(t: seq<Row>, k: StampKey)
    requires WellFormed(t)
    ensures k in StampKeys(PurgeByStamp(t)) ==> k in StampKeys(t)
  {
    var r := PurgeByStamp(t);
    if k in StampKeys(r) {
      SubsequenceElements(r, t);
      var i :| 0 <= i < |r| && StampKeys(r)[i] == k;
      assert r[i] in r;
      var m :| 0 <= m < |t| && t[m] == r[i];
      assert StampKeys(t)[m] == k;
    }
  }

  /** Every key before the purge is still a key after it. */
  lemma StampKeyIsPurgedKey(t: seq<Row>, k: StampKey)
    requires WellFormed(t)
    ensures k in StampKeys(t) ==> k in StampKeys(PurgeByStamp(t))
  {
    var r := PurgeByStamp(t);
    if k in StampKeys(t) {
      var m :| 0 <= m < |t| && StampKeys(t)[m] == k;
      assert t[m] in t;
      PurgeByStampKeepsEveryKey(t, t[m]);
      var y :| y in r && StampKeyOf(y) == StampKeyOf(t[m]);
      var i :| 0 <= i < |r| && r[i] == y;
      assert StampKeys(r)[i] == k;
    }
  }

  /** `remove_duplicates_from_db` in main_01.py. */
  function RemoveDuplicatesByStamp(t: seq<Row>, fails: bool): (o: PurgeOutcome)
    requires WellFormed(t)
    ensures fails ==> o.table == t && o.deleted == None
    ensures !fails ==> o.table == PurgeByStamp(t)
    ensures !fails ==> o.deleted == Some(|t| - |Distinct(StampKeys(t))|)
  {
    if fails then PurgeOutcome(t, None)
    else
      PurgeByStampCount(t);
      var after := PurgeByStamp(t);
      PurgeOutcome(after, Some(|t| - |after|))
  }

  /** The day purge is the coarser one: every row it keeps, the exact purge keeps too. */
  lemma PurgeByDayWithinPurgeByStamp(t: seq<Row>, x: Row)
    requires WellFormed(t)
    ensures x in PurgeByDay(t) ==> x in PurgeByStamp(t)
  {
    if x in t && FirstOfDay(t, x) {
      forall i | 0 <= i < |t| && StampKeyOf(t[i]) == StampKeyOf(x)
        ensures x.rowid <= t[i].rowid
      {
        assert DayKeyOf(t[i]) == DayKeyOf(x);
      }
    }
  }

  // ===========================================================================
  // Title only, earliest parsed date: `drop_duplicate_titles` in scrapping_rss_investing.py,
  // on a frame whose rows carry their index label as `rowid`.

  /** The order of `sort_values(by=["title", "date"])` inside one title; the sort is
      stable, so equal dates keep their index order. */
  predicate RanksBeforeByTitle(a: Row, b: Row) {
    EarlierNaTLast(a.stamp, b.stamp) || (a.stamp == b.stamp && a.rowid < b.rowid)
  }

  /** `drop_duplicates(subset=["title"], keep="first")` keeps this row. */
  predicate FirstOfTitle(t: seq<Row>, x: Row) {
    forall i :: 0 <= i < |t| && t[i].title == x.title ==> !RanksBeforeByTitle(t[i], x)
  }

  function IsFirstOfTitle(t: seq<Row>): Row -> bool {
    (x: Row) => FirstOfTitle(t, x)
  }

  lemma RanksBeforeByTitleOrder(a: Row, b: Row, c: Row)
    ensures !RanksBeforeByTitle(a, a)
    ensures RanksBeforeByTitle(a, b) && RanksBeforeByTitle(b, c) ==> RanksBeforeByTitle(a, c)
  {
  }

  lemma RanksBeforeByTitleTotal(a: Row, b: Row)
    requires a.rowid != b.rowid
    ensures RanksBeforeByTitle(a, b) || RanksBeforeByTitle(b, a)
  {
    if a.stamp.Some? && b.stamp.Some? {
      DateTimeLessTotal(a.stamp.value, b.stamp.value);
    }
  }

  /** `drop_duplicate_titles`: sort by (title, date), keep the first row of each title,
      then `sort_index()` back to frame order, so the kept rows keep their relative order. */
  function DropDuplicateTitles(frame: seq<Row>): (r: seq<Row>)
    requires IdsIncreasing(frame)
    ensures IsSubsequence(r, frame) && IdsIncreasing(r)
    ensures forall x :: x in r <==> x in frame && FirstOfTitle(frame, x)
  {
    var r := Filter(frame, IsFirstOfTitle(frame));
    FilterIsSubsequence(frame, IsFirstOfTitle(frame));
    SubsequenceIdsIncreasing(r, frame);
    r
  }

  /** Each title is left exactly once. */
  lemma DropDuplicateTitlesOnePerTitle(frame: seq<Row>)
    requires IdsIncreasing(frame)
    ensures var r := DropDuplicateTitles(frame);
      forall i, j :: 0 <= i < j < |r| ==> r[i].title != r[j].title
  {
    var r := DropDuplicateTitles(frame);
    forall i, j | 0 <= i < j < |r|
      ensures r[i].title != r[j].title
    {
      assert r[i] in r && r[j] in r;
      assert r[i].rowid < r[j].rowid;
      RanksBeforeByTitleTotal(r[i], r[j]);
    }
  }

  /** Every title of the frame is still present. */
  lemma DropDuplicateTitlesKeepsEveryTitle(frame: seq<Row>, x: Row)
    requires IdsIncreasing(frame) && x in frame
    ensures exists y :: y in DropDuplicateTitles(frame) && y.title == x.title
  {
    var inGroup := (y: Row) => y.title == x.title;
    var before := (a: Row, b: Row) => RanksBeforeByTitle(a, b);
    forall a | a in frame
      ensures !before(a, a)
    {
      RanksBeforeByTitleOrder(a, a, a);
    }
    forall a, b, c | a in frame && b in frame && c in frame && before(a, b) && before(b, c)
      ensures before(a, c)
    {
      RanksBeforeByTitleOrder(a, b, c);
    }
    MinimalExists(frame, inGroup, before, x);
    var m :| m in frame && inGroup(m) && forall y :: y in frame && inGroup(y) ==> !before(y, m);
    forall i | 0 <= i < |frame| && frame[i].title == m.title
      ensures !RanksBeforeByTitle(frame[i], m)
    {
      assert frame[i] in frame && inGroup(frame[i]);
    }
  }

  /** A title that has a parsed date somewhere keeps a row with a parsed date. */
  lemma DropDuplicateTitlesPrefersDates(frame: seq<Row>, x: Row, y: Row)
    requires IdsIncreasing(frame)
    requires x in frame && x.stamp.Some?
    requires y in DropDuplicateTitles(frame) && y.title == x.title
    ensures y.stamp.Some? && !DateTimeLess(x.stamp.value, y.stamp.value)
  {
    var i :| 0 <= i < |frame| && frame[i] == x;
    assert !RanksBeforeByTitle(frame[i], y);
  }

  lemma DropDuplicateTitlesIdempotent(frame: seq<Row>)
    requires IdsIncreasing(frame)
    ensures DropDuplicateTitles(DropDuplicateTitles(frame)) == DropDuplicateTitles(frame)
  {
    var r := DropDuplicateTitles(frame);
    SubsequenceElements(r, frame);
    forall k | 0 <= k < |r|
      ensures IsFirstOfTitle(r)(r[k])
    {
      assert r[k] in r;
      forall i | 0 <= i < |r| && r[i].title == r[k].title
        ensures !RanksBeforeByTitle(r[i], r[k])
      {
        assert r[i] in r;
        var m :| 0 <= m < |frame| && frame[m] == r[i];
      }
    }
    FilterAll(r, IsFirstOfTitle(r));
  }

  // ===========================================================================
  // How the keys differ, on small tables.

  const Jan2: Date := Date(2025, 1, 2)
  const Jan3: Date := Date(2025, 1, 3)

  /** The same title on two calendar days: the day purge keeps both rows. */
  lemma SameTitleOtherDaySurvives()
    ensures var t := [Row(1, Some(At(Jan2, 10, 0)), Some("A")), Row(2, Some(At(Jan3, 9, 0)), Some("A"))];
      PurgeByDay(t) == t
  {
    var t := [Row(1, Some(At(Jan2, 10, 0)), Some("A")), Row(2, Some(At(Jan3, 9, 0)), Some("A"))];
    assert FirstOfDay(t, t[0]) && FirstOfDay(t, t[1]);
    FilterAll(t, IsFirstOfDay(t));
  }

  /** The same title twice in one day: the day purge keeps the earlier row only, while
      the exact (date, title) purge keeps both. */
  lemma SameDayTwoTimes()
    ensures var t := [Row(1, Some(At(Jan2, 11, 0)), Some("A")), Row(2, Some(At(Jan2, 10, 0)), Some("A"))];
      PurgeByDay(t) == [t[1]] && PurgeByStamp(t) == t
  {
    var t := [Row(1, Some(At(Jan2, 11, 0)), Some("A")), Row(2, Some(At(Jan2, 10, 0)), Some("A"))];
    assert !FirstOfDay(t, t[0]) by {
      assert RanksBeforeByDate(t[1], t[0]);
    }
    assert FirstOfDay(t, t[1]);
    assert Filter(t, IsFirstOfDay(t)) == Filter(t[1..], IsFirstOfDay(t));
    assert t[1..][1..] == [];
    assert MinRowidOfGroup(t, t[0]) && MinRowidOfGroup(t, t[1]);
    FilterAll(t, IsMinRowidOfGroup(t));
  }

  /** The title-only frame dedup collapses the same title across days to its earliest row. */
  lemma TitleOnlyCollapsesDays()
    ensures var f := [Row(0, Some(At(Jan3, 9, 0)), Some("A")), Row(1, Some(At(Jan2, 10, 0)), Some("A"))];
      DropDuplicateTitles(f) == [f[1]]
  {
    var f := [Row(0, Some(At(Jan3, 9, 0)), Some("A")), Row(1, Some(At(Jan2, 10, 0)), Some("A"))];
    assert !FirstOfTitle(f, f[0]) by {
      assert RanksBeforeByTitle(f[1], f[0]);
    }
    assert FirstOfTitle(f, f[1]);
    assert Filter(f, IsFirstOfTitle(f)) == Filter(f[1..], IsFirstOfTitle(f));
    assert f[1..][1..] == [];
  }
}
