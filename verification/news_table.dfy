/** The SQLite `news` table (`date TEXT, title TEXT`) as a sequence of rows in rowid
    order, the two range queries the export scripts run on it, and the append done by
    `save_to_sqlite`. */
module NewsTable {
  import opened Base
  import opened Calendar
  import opened TimeText
  import opened Sorting

  /** A stored row: SQLite's implicit rowid, the `date` column (`None` where pandas
      stored NaT as NULL) and the `title` column (`None` for NULL). Within a pandas
      frame, `rowid` is the frame's integer index. */
  datatype Row = Row(rowid: int, stamp: Option<DateTime>, title: Option<string>)

  predicate ValidStamp(s: Option<DateTime>) {
    s.Some? ==> ValidDateTime(s.value)
  }

  /** Rowids (for a pandas frame, index labels) strictly increase along the table. */
  predicate IdsIncreasing(t: seq<Row>) {
    forall i, j :: 0 <= i < j < |t| ==> t[i].rowid < t[j].rowid
  }

  /** A stored table: rows in strictly increasing positive rowid order, valid timestamps. */
  predicate WellFormed(t: seq<Row>) {
    && IdsIncreasing(t)
    && (forall i :: 0 <= i < |t| ==> 1 <= t[i].rowid && ValidStamp(t[i].stamp))
  }

  /** Deleting rows keeps the id order. */
  lemma {:induction false} SubsequenceIdsIncreasing(sub: seq<Row>, t: seq<Row>)
    requires IdsIncreasing(t) && IsSubsequence(sub, t)
    ensures IdsIncreasing(sub)
    decreases |t|
  {
    if |sub| > 0 {
      if sub[0] == t[0] {
        SubsequenceIdsIncreasing(sub[1..], t[1..]);
        SubsequenceElements(sub[1..], t[1..]);
        forall k | 1 <= k < |sub|
          ensures sub[0].rowid < sub[k].rowid
        {
          assert sub[k] == sub[1..][k - 1];
          assert sub[k] in sub[1..];
          assert sub[k] in t[1..];
          var m :| 0 <= m < |t[1..]| && t[1..][m] == sub[k];
          assert t[m + 1] == sub[k];
        }
      } else {
        SubsequenceIdsIncreasing(sub, t[1..]);
      }
    }
  }

  /** Deleting rows from a stored table leaves a stored table. */
  lemma SubsequenceWellFormed(sub: seq<Row>, t: seq<Row>)
    requires WellFormed(t) && IsSubsequence(sub, t)
    ensures WellFormed(sub)
  {
    SubsequenceIdsIncreasing(sub, t);
    SubsequenceElements(sub, t);
    assert forall k :: 0 <= k < |sub| ==> sub[k] in t;
  }

  /** Two rows of a well-formed table with the same rowid are the same row. */
  lemma RowidIdentifies(t: seq<Row>, a: Row, b: Row)
    requires WellFormed(t) && a in t && b in t
    ensures a.rowid == b.rowid <==> a == b
  {
    var i :| 0 <= i < |t| && t[i] == a;
    var j :| 0 <= j < |t| && t[j] == b;
  }

  /** The text SQLite holds in the `date` column; `None` is NULL. */
  function StampText(s: Option<DateTime>): Option<string>
    requires ValidStamp(s)
  {
    match s
    case None => None
    case Some(t) => Some(FormatDateTime(t))
  }

  /** `date > lower AND date < upper` on the stored text; a NULL date never matches. */
  predicate InTextWindow(r: Row, lower: string, upper: string)
    requires ValidStamp(r.stamp)
  {
    match StampText(r.stamp)
    case None => false
    case Some(text) => LexLess(lower, text) && LexLess(text, upper)
  }

  /** `date > lower` on the stored text. */
  predicate AfterText(r: Row, lower: string)
    requires ValidStamp(r.stamp)
  {
    match StampText(r.stamp)
    case None => false
    case Some(text) => LexLess(lower, text)
  }

  /** `SELECT * FROM news WHERE date > ? AND date < ?` (`read_db_news`): the matching rows,
      returned in table order. */
  function Between(t: seq<Row>, lower: string, upper: string): (r: seq<Row>)
    requires WellFormed(t)
    ensures forall x :: x in r <==> x in t && InTextWindow(x, lower, upper)
    ensures IsSubsequence(r, t)
  {
    FilterIsSubsequence(t, (x: Row) => ValidStamp(x.stamp) && InTextWindow(x, lower, upper));
    Filter(t, (x: Row) => ValidStamp(x.stamp) && InTextWindow(x, lower, upper))
  }

  /** `SELECT * FROM news WHERE date > ?` (`read_db_news_from_date`). */
  function After(t: seq<Row>, lower: string): (r: seq<Row>)
    requires WellFormed(t)
    ensures forall x :: x in r <==> x in t && AfterText(x, lower)
    ensures IsSubsequence(r, t)
  {
    FilterIsSubsequence(t, (x: Row) => ValidStamp(x.stamp) && AfterText(x, lower));
    Filter(t, (x: Row) => ValidStamp(x.stamp) && AfterText(x, lower))
  }

  /** With bounds in the stored format, the text window is the open time interval. */
  lemma BetweenIsChronological(t: seq<Row>, lower: DateTime, upper: DateTime, x: Row)
    requires WellFormed(t) && ValidDateTime(lower) && ValidDateTime(upper)
    ensures x in Between(t, FormatDateTime(lower), FormatDateTime(upper)) <==>
      x in t && x.stamp.Some? && DateTimeLess(lower, x.stamp.value) && DateTimeLess(x.stamp.value, upper)
  {
    if x in t && x.stamp.Some? {
      FormatDateTimeOrder(lower, x.stamp.value);
      FormatDateTimeOrder(x.stamp.value, upper);
    }
  }

  lemma AfterIsChronological(t: seq<Row>, lower: DateTime, x: Row)
    requires WellFormed(t) && ValidDateTime(lower)
    ensures x in After(t, FormatDateTime(lower)) <==>
      x in t && x.stamp.Some? && DateTimeLess(lower, x.stamp.value)
  {
    if x in t && x.stamp.Some? {
      FormatDateTimeOrder(lower, x.stamp.value);
    }
  }

  // ---------------------------------------------------------------------------
  // Appending a frame.

  /** The `date` and `title` columns of a pandas frame row; the other columns
      (`section`, `link`) are not written. */
  datatype FrameRow = FrameRow(stamp: Option<DateTime>, title: Option<string>)

  /** The rowid SQLite gives the next inserted row: one past the largest in use. */
  function NextRowid(t: seq<Row>): (n: int)
    requires WellFormed(t)
    ensures n >= 1
    ensures forall i :: 0 <= i < |t| ==> t[i].rowid < n
  {
    if |t| == 0 then 1
    else
      assert forall i :: 0 <= i < |t| - 1 ==> t[i].rowid < t[|t| - 1].rowid;
      t[|t| - 1].rowid + 1
  }

  function Numbered(frame: seq<FrameRow>, first: int): (r: seq<Row>)
    ensures |r| == |frame|
    ensures forall i :: 0 <= i < |r| ==>
      r[i].rowid == first + i && r[i].stamp == frame[i].stamp && r[i].title == frame[i].title
  {
    if |frame| == 0 then [] else [Row(first, frame[0].stamp, frame[0].title)] + Numbered(frame[1..], first + 1)
  }

  /** `save_to_sqlite`: an empty frame writes nothing; otherwise the frame's `(date, title)`
      pairs are appended in frame order (`to_sql(..., if_exists='append')`), each under
      a fresh rowid, and the existing rows are untouched. `fails` is an exception inside the
      `try` (a locked or unreadable database, a column pandas cannot write): it is logged and
      the insert, which `to_sql` runs as one transaction, leaves the table as it was. */
  function SaveToSqlite(t: seq<Row>, frame: seq<FrameRow>, fails: bool): (r: seq<Row>)
    requires WellFormed(t)
    requires forall i :: 0 <= i < |frame| ==> ValidStamp(frame[i].stamp)
    ensures |frame| == 0 || fails ==> r == t
    ensures !fails ==> |r| == |t| + |frame| && r[..|t|] == t
    ensures !fails ==> forall i :: 0 <= i < |frame| ==>
      r[|t| + i].stamp == frame[i].stamp && r[|t| + i].title == frame[i].title
    ensures WellFormed(r)
  {
    if |frame| == 0 || fails then t
    else
      var added := Numbered(frame, NextRowid(t));
      assert (t + added)[..|t|] == t;
      AppendKeepsWellFormed(t, frame);
      t + added
  }

  /** `sort_values` ascending with NaT placed last. */
  predicate EarlierNaTLast(a: Option<DateTime>, b: Option<DateTime>) {
    match a
    case None => false
    case Some(x) => b.None? || DateTimeLess(x, b.value)
  }

  predicate StampBefore(a: FrameRow, b: FrameRow) {
    EarlierNaTLast(a.stamp, b.stamp)
  }

  lemma StampBeforeIsStrictWeakOrder()
    ensures StrictWeakOrder(StampBefore)
  {
    forall a: FrameRow, b: FrameRow, c: FrameRow | StampBefore(a, c)
      ensures StampBefore(a, b) || StampBefore(b, c)
    {
      if b.stamp.Some? {
        DateTimeLessTotal(a.stamp.value, b.stamp.value);
      }
    }
  }

  /** The `(date, title)` pairs of stored rows. */
  function Pairs(rows: seq<Row>): (r: seq<FrameRow>)
    ensures |r| == |rows|
    ensures forall i :: 0 <= i < |rows| ==> r[i] == FrameRow(rows[i].stamp, rows[i].title)
  {
    seq(|rows|, i requires 0 <= i < |rows| => FrameRow(rows[i].stamp, rows[i].title))
  }

  /** `df.sort_values(by='date')` then `save_to_sqlite` (`main` of main_01.py and of
      main_server_beget.py): the stored rows stay and exactly the frame's `(date, title)`
      pairs are appended, each once, oldest first with the unparsed dates last; a failed
      save changes nothing. pandas' default sort is not stable, so rows with equal dates
      may be stored in any order; the model fixes one. */
  function SaveSorted(t: seq<Row>, frame: seq<FrameRow>, fails: bool): (r: seq<Row>)
    requires WellFormed(t)
    requires forall i :: 0 <= i < |frame| ==> ValidStamp(frame[i].stamp)
    ensures WellFormed(r)
    ensures fails ==> r == t
    ensures !fails ==>
      && |r| == |t| + |frame| && r[..|t|] == t
      && multiset(Pairs(r[|t|..])) == multiset(frame)
      && forall i, j :: |t| <= i < j < |r| ==> !EarlierNaTLast(r[j].stamp, r[i].stamp)
  {
    StampBeforeIsStrictWeakOrder();
    var sorted := Sort(frame, StampBefore);
    assert forall i :: 0 <= i < |sorted| ==> sorted[i] in multiset(frame);
    var r := SaveToSqlite(t, sorted, fails);
    if fails then r
    else
      AppendedInOrder(t, sorted, r);
      r
  }

  /** Rows appended in the order of a frame sorted by date are stored in that order, and
      they carry exactly the frame's pairs. */
  lemma AppendedInOrder(t: seq<Row>, sorted: seq<FrameRow>, r: seq<Row>)
    requires |r| == |t| + |sorted|
    requires forall i :: 0 <= i < |sorted| ==>
      r[|t| + i].stamp == sorted[i].stamp && r[|t| + i].title == sorted[i].title
    requires Sorted(sorted, StampBefore)
    ensures Pairs(r[|t|..]) == sorted
    ensures forall i, j :: |t| <= i < j < |r| ==> !EarlierNaTLast(r[j].stamp, r[i].stamp)
  {
  }

  lemma AppendKeepsWellFormed(t: seq<Row>, frame: seq<FrameRow>)
    requires WellFormed(t)
    requires forall i :: 0 <= i < |frame| ==> ValidStamp(frame[i].stamp)
    ensures WellFormed(t + Numbered(frame, NextRowid(t)))
  {
  }
}
