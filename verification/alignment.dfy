/** The three export scripts that align news with daily bars: each walks adjacent bars of
    the quote database from the newest back, reads the news that fall between the two
    bars' cutoff times, and writes one file per window until it meets an empty window.
    save_md_file_news_02.py sorts the bars, labels them, converts its 18:45 Moscow cutoffs
    to GMT and also writes `current.md`; save_md_file_news.py sorts and labels but uses raw
    15:45 cutoffs; read_bd_quote.py keeps table order and writes tab-separated files. */
module Alignment {
  import opened Base
  import opened Calendar
  import opened TimeText
  import opened NewsTable
  import opened Sorting
  import opened FuturesStore
  import opened Rendering

  /** `SELECT * FROM Futures`, in rowid order: TRADEDATE is the primary key. */
  predicate QuoteTable(q: seq<Bar>) {
    && (forall i :: 0 <= i < |q| ==> ValidDate(q[i].tradedate))
    && (forall i, j :: 0 <= i < |q| && 0 <= j < |q| && q[i].tradedate == q[j].tradedate ==> i == j)
  }

  /** Trade dates strictly increase along the sequence. */
  predicate Ascending(q: seq<Bar>) {
    forall i, j :: 0 <= i < j < |q| ==> DateLess(q[i].tradedate, q[j].tradedate)
  }

  // ---------------------------------------------------------------------------
  // Sorting by TRADEDATE.

  predicate TradedBefore(a: Bar, b: Bar) {
    DateLess(a.tradedate, b.tradedate)
  }

  lemma TradedBeforeIsStrictWeakOrder()
    ensures StrictWeakOrder(TradedBefore)
  {
    forall a: Bar, b: Bar, c: Bar | TradedBefore(a, c)
      ensures TradedBefore(a, b) || TradedBefore(b, c)
    {
      DateLessTotal(a.tradedate, b.tradedate);
    }
  }

  /** A reordering of a quote table that never puts a later bar first is in strictly
      ascending date order, and is a quote table itself. */
  lemma SortedQuotesAscend(q: seq<Bar>, s: seq<Bar>)
    requires QuoteTable(q) && multiset(s) == multiset(q) && Sorted(s, TradedBefore)
    ensures Ascending(s) && QuoteTable(s)
  {
    assert NoDuplicates(q);
    forall k | 0 <= k < |s|
      ensures s[k] in q
    {
      assert s[k] in multiset(s);
    }
    forall i, j | 0 <= i < j < |s|
      ensures DateLess(s[i].tradedate, s[j].tradedate)
    {
      if s[i] == s[j] {
        RepeatedMultiplicity(s, i, j);
      }
      NoDuplicatesMultiplicity(q, s[i]);
      DateLessTotal(s[i].tradedate, s[j].tradedate);
    }
  }

  /** `df.sort_values(by='TRADEDATE')`: the same bars, oldest first. */
  function SortByDate(q: seq<Bar>): (r: seq<Bar>)
    requires QuoteTable(q)
    ensures multiset(r) == multiset(q) && |r| == |q|
    ensures Ascending(r) && QuoteTable(r)
    ensures forall i :: 0 <= i < |r| ==> r[i] in q
  {
    TradedBeforeIsStrictWeakOrder();
    var r := Sort(q, TradedBefore);
    SortedQuotesAscend(q, r);
    assert forall i :: 0 <= i < |r| ==> r[i] in multiset(q);
    r
  }

  /** The last bar of the sorted table carries the greatest TRADEDATE of the table. */
  lemma NewestIsMax(q: seq<Bar>)
    requires QuoteTable(q) && |q| > 0
    ensures SortByDate(q)[|q| - 1] in q
    ensures forall i :: 0 <= i < |q| ==> DateLessEq(q[i].tradedate, SortByDate(q)[|q| - 1].tradedate)
  {
    var s := SortByDate(q);
    assert s[|q| - 1] in multiset(q);
    forall i | 0 <= i < |q|
      ensures DateLessEq(q[i].tradedate, s[|q| - 1].tradedate)
    {
      assert q[i] in multiset(s);
    }
  }

  /** Sorting keeps every bar, so it keeps the bars' dates in the fixed-offset era. */
  lemma SortedInEra(quotes: seq<Bar>)
    requires QuoteTable(quotes)
    requires forall i :: 0 <= i < |quotes| ==> InMoscowEra(quotes[i].tradedate)
    ensures forall i :: 0 <= i < |quotes| ==> InMoscowEra(SortByDate(quotes)[i].tradedate)
  {
    var bars := SortByDate(quotes);
    forall i | 0 <= i < |bars|
      ensures InMoscowEra(bars[i].tradedate)
    {
      assert bars[i] in multiset(quotes);
    }
  }

  // ---------------------------------------------------------------------------
  // Labels.

  datatype Direction = Up | Down

  /** The `bar` column: `up` when the bar closed above its open, `down` otherwise. */
  function DirectionOf(b: Bar): (d: Direction)
    ensures d == Up <==> b.open < b.close
  {
    if b.open < b.close then Up else Down
  }

  function DirectionText(d: Direction): string {
    match d
    case Up => "up"
    case Down => "down"
  }

  /** A frame row after `next_bar = bar.shift(-1)`: NaN on the newest row. */
  datatype FrameBar = FrameBar(bar: Bar, nextBar: Option<Direction>)

  /** A row that survives `dropna()`. */
  datatype LabelledBar = LabelledBar(bar: Bar, nextBar: Direction)

  /** `df['next_bar'] = df['bar'].shift(-1)`: every row takes the next row's label. */
  function Shifted(bars: seq<Bar>): (r: seq<FrameBar>)
    ensures |r| == |bars|
    ensures forall i {:trigger r[i]} :: 0 <= i < |bars| ==>
      && r[i].bar == bars[i]
      && (r[i].nextBar.Some? <==> i + 1 < |bars|)
      && (i + 1 < |bars| ==> r[i].nextBar.value == DirectionOf(bars[i + 1]))
  {
    seq(|bars|, i requires 0 <= i < |bars| =>
      FrameBar(bars[i], if i + 1 < |bars| then Some(DirectionOf(bars[i + 1])) else None))
  }

  /** `df.dropna()`: the rows whose `next_bar` is present, in order. */
  function DropNa(f: seq<FrameBar>): seq<LabelledBar> {
    if |f| == 0 then []
    else
      (if f[0].nextBar.Some? then [LabelledBar(f[0].bar, f[0].nextBar.value)] else []) + DropNa(f[1..])
  }

  /** A row survives `dropna()` exactly when its `next_bar` is present. */
  lemma {:induction false} DropNaKeepsPresent(f: seq<FrameBar>, x: LabelledBar)
    ensures x in DropNa(f) <==> exists i :: 0 <= i < |f| && f[i] == FrameBar(x.bar, Some(x.nextBar))
    decreases |f|
  {
    if |f| > 0 {
      DropNaKeepsPresent(f[1..], x);
      if exists i :: 1 <= i < |f| && f[i] == FrameBar(x.bar, Some(x.nextBar)) {
        var i :| 1 <= i < |f| && f[i] == FrameBar(x.bar, Some(x.nextBar));
        assert f[1..][i - 1] == f[i];
      }
      if exists i :: 0 <= i < |f[1..]| && f[1..][i] == FrameBar(x.bar, Some(x.nextBar)) {
        var i :| 0 <= i < |f[1..]| && f[1..][i] == FrameBar(x.bar, Some(x.nextBar));
        assert f[i + 1] == f[1..][i];
      }
    }
  }

  lemma {:induction false} DropNaPrefix(f: seq<FrameBar>, n: nat)
    requires n <= |f|
    requires forall i :: 0 <= i < |f| ==> (f[i].nextBar.Some? <==> i < n)
    ensures |DropNa(f)| == n
    ensures forall i :: 0 <= i < n ==> DropNa(f)[i] == LabelledBar(f[i].bar, f[i].nextBar.value)
    decreases |f|
  {
    if |f| > 0 {
      var tail := f[1..];
      if n > 0 {
        DropNaPrefix(tail, n - 1);
        assert forall i :: 1 <= i < n ==> DropNa(f)[i] == DropNa(tail)[i - 1];
      } else {
        DropNaPrefix(tail, 0);
      }
    }
  }

  /** The labelled frame: every bar but the newest, in order, each carrying the direction
      of the bar that follows it (`up` iff that bar's OPEN < CLOSE). */
  function Labelled(bars: seq<Bar>): (r: seq<LabelledBar>)
    ensures |r| == if |bars| == 0 then 0 else |bars| - 1
    ensures forall i :: 0 <= i < |r| ==>
      && r[i].bar == bars[i]
      && (r[i].nextBar == Up <==> bars[i + 1].open < bars[i + 1].close)
  {
    var f := Shifted(bars);
    DropNaPrefix(f, if |bars| == 0 then 0 else |bars| - 1);
    DropNa(f)
  }

  // ---------------------------------------------------------------------------
  // Cutoff instants.

  /** `msk_to_gmt`: parse `%Y-%m-%d %H:%M:%S`, read it as Moscow time, format it in GMT;
      text that does not parse raises ValueError. */
  function MskToGmtText(s: string): (r: Result<string>)
    requires ParseDateTime(s).Some? ==> InFixedOffsetEra(ParseDateTime(s).value)
    ensures r.Err? <==> ParseDateTime(s).None?
    ensures r.Ok? ==>
      && ParseDateTime(r.value).Some?
      && Seconds(ParseDateTime(r.value).value) == Seconds(ParseDateTime(s).value) - 3 * 3600
  {
    match ParseDateTime(s)
    case None => Err("ValueError")
    case Some(t) =>
      FormatDateTimeParses(MskToGmt(t));
      Ok(FormatDateTime(MskToGmt(t)))
  }

  /** On the text of a Moscow instant of the fixed-offset era, `msk_to_gmt` gives the text
      of the instant three hours earlier. */
  lemma MskToGmtTextOf(t: DateTime)
    requires ValidDateTime(t) && InFixedOffsetEra(t)
    ensures (FormatDateTimeParses(t); MskToGmtText(FormatDateTime(t)) == Ok(FormatDateTime(MskToGmt(t))))
  {
    FormatDateTimeParses(t);
  }

  /** The text `f"{d} HH:MM:00"` is the stored form of that instant. */
  lemma CutoffText(d: Date, hour: int, minute: int)
    requires ValidDate(d) && 0 <= hour < 24 && 0 <= minute < 60
    ensures FormatDate(d) + " " + FormatTime(hour, minute, 0) == FormatDateTime(At(d, hour, minute))
  {
  }

  lemma FixedTimes()
    ensures FormatTime(18, 45, 0) == "18:45:00"
    ensures FormatTime(15, 45, 0) == "15:45:00"
  {
    assert Pad2(18) == "18" && Pad2(45) == "45" && Pad2(0) == "00" && Pad2(15) == "15";
  }

  /** A trade date whose 18:45 Moscow time falls in the fixed UTC+3 era. */
  predicate InMoscowEra(d: Date) {
    ValidDate(d) && InFixedOffsetEra(At(d, 18, 45))
  }

  /** The GMT text of a trade day's 18:45 Moscow cutoff. */
  function MoscowCutoff(d: Date): string
    requires InMoscowEra(d)
  {
    FormatDateTime(MskToGmt(At(d, 18, 45)))
  }

  /** `msk_to_gmt(f"{d} 18:45:00")` is the stored text of the instant three hours before
      18:45 on day `d`. */
  lemma MoscowCutoffText(d: Date)
    requires InMoscowEra(d)
    ensures MskToGmtText(FormatDate(d) + " 18:45:00") == Ok(MoscowCutoff(d))
  {
    FixedTimes();
    CutoffText(d, 18, 45);
    assert FormatDate(d) + " 18:45:00" == FormatDateTime(At(d, 18, 45));
    MskToGmtTextOf(At(d, 18, 45));
  }

  /** `f"{d} 15:45:00"`, compared with the stored text as it is. */
  function RawCutoff(d: Date): (r: string)
    requires ValidDate(d)
    ensures r == FormatDateTime(At(d, 15, 45))
  {
    FixedTimes();
    CutoffText(d, 15, 45);
    FormatDate(d) + " 15:45:00"
  }

  // ---------------------------------------------------------------------------
  // The backward scan.

  /** A window that was read: the index of the bar that closes it, and its news. */
  datatype Window = Window(upper: nat, rows: seq<Row>)

  /** A window written: it is closed by a cutoff with one before it, and it holds the
      news strictly between the two, of which there is some. */
  predicate IsWindow(news: seq<Row>, cutoffs: seq<string>, w: Window)
    requires WellFormed(news)
  {
    && 1 <= w.upper < |cutoffs|
    && w.rows == Between(news, cutoffs[w.upper - 1], cutoffs[w.upper])
    && w.rows != []
  }

  /** The rows of a window closed by cutoff `u`. */
  lemma WindowRows(news: seq<Row>, cutoffs: seq<string>, w: Window, u: int)
    requires WellFormed(news) && IsWindow(news, cutoffs, w) && w.upper == u
    ensures 1 <= u < |cutoffs|
    ensures w.rows == Between(news, cutoffs[u - 1], cutoffs[u]) && w.rows != []
  {
  }

  /** The loop `for i in range(n - 1, 0, -1)` from index `i` down to 1: window `i` holds
      the news strictly between cutoff `i - 1` and cutoff `i`; the first empty window
      ends the loop. The written windows are a run of consecutive nonempty windows
      starting at `i`, and unless the run reaches window 1 the window just after it is
      the empty one that stopped the scan. */
  function ScanFrom(news: seq<Row>, cutoffs: seq<string>, i: nat): (r: seq<Window>)
    requires WellFormed(news) && i < |cutoffs|
    ensures |r| <= i
    ensures forall k :: 0 <= k < |r| ==>
      r[k].upper == i - k && IsWindow(news, cutoffs, r[k])
    ensures |r| < i ==>
      Between(news, cutoffs[i - |r| - 1], cutoffs[i - |r|]) == []
    decreases i
  {
    if i == 0 then []
    else
      var rows := Between(news, cutoffs[i - 1], cutoffs[i]);
      if |rows| == 0 then []
      else
        var rest := ScanFrom(news, cutoffs, i - 1);
        [Window(i, rows)] + rest
  }

  /** The whole loop over `n` cutoffs, from the newest pair. */
  function ScanAll(news: seq<Row>, cutoffs: seq<string>): (r: seq<Window>)
    requires WellFormed(news)
    ensures |r| + 1 <= |cutoffs| || |r| == 0
    ensures forall k :: 0 <= k < |r| ==>
      r[k].upper == |cutoffs| - 1 - k && IsWindow(news, cutoffs, r[k])
    ensures |r| + 1 < |cutoffs| ==>
      Between(news, cutoffs[|cutoffs| - 2 - |r|], cutoffs[|cutoffs| - 1 - |r|]) == []
  {
    if |cutoffs| == 0 then [] else ScanFrom(news, cutoffs, |cutoffs| - 1)
  }

  /** A file the script writes: its name and its whole content. */
  datatype NoteFile = NoteFile(name: string, nextBar: string, rows: seq<Row>)

  /** The text of a note: the `next_bar` front matter, then one bullet per title. */
  function NoteText(f: NoteFile): string {
    Markdown(f.nextBar, Titles(f.rows))
  }

  /** A note reads back as its label and the titles of its rows, in order, as long as
      neither the label nor any title spans lines. */
  lemma NoteReadsBack(f: NoteFile)
    requires '\n' !in f.nextBar
    requires forall i :: 0 <= i < |f.rows| ==> SingleLine(f.rows[i].title)
    ensures ReadMarkdown(NoteText(f)) == Some(Note(f.nextBar, Titles(f.rows)))
  {
    ReadMarkdownRoundTrip(f.nextBar, Titles(f.rows));
  }

  /** A tab-separated file as `save_titles_to_file(df_news, name)` writes it: the file
      name and the rows it lists. Its text is `ListText`. */
  datatype ListFile = ListFile(name: string, rows: seq<Row>)

  function ListText(f: ListFile): string
    requires forall i :: 0 <= i < |f.rows| ==> ValidStamp(f.rows[i].stamp)
  {
    Tsv(f.rows)
  }

  // ---------------------------------------------------------------------------
  // Notes over the labelled frame: save_md_file_news.py and save_md_file_news_02.py.

  /** `save_titles_to_markdown(df_news, f"{TRADEDATE}.md", row1['next_bar'])` for every
      written window. */
  function DatedNotes(lab: seq<LabelledBar>, ws: seq<Window>): (r: seq<NoteFile>)
    requires forall i :: 0 <= i < |lab| ==> ValidDate(lab[i].bar.tradedate)
    requires forall k :: 0 <= k < |ws| ==> ws[k].upper < |lab|
    ensures |r| == |ws|
    ensures forall k :: 0 <= k < |ws| ==>
      r[k] == NoteFile(FormatDate(lab[ws[k].upper].bar.tradedate) + ".md",
        DirectionText(lab[ws[k].upper].nextBar), ws[k].rows)
  {
    seq(|ws|, k requires 0 <= k < |ws| =>
      var row := lab[ws[k].upper];
      NoteFile(FormatDate(row.bar.tradedate) + ".md", DirectionText(row.nextBar), ws[k].rows))
  }

  /** The `f"{TRADEDATE} 15:45:00"` cutoffs of the labelled frame, in frame order. */
  function RawCutoffs(lab: seq<LabelledBar>): (r: seq<string>)
    requires forall i :: 0 <= i < |lab| ==> ValidDate(lab[i].bar.tradedate)
    ensures |r| == |lab|
    ensures forall i :: 0 <= i < |lab| ==> r[i] == RawCutoff(lab[i].bar.tradedate)
  {
    seq(|lab|, i requires 0 <= i < |lab| => RawCutoff(lab[i].bar.tradedate))
  }

  /** `msk_to_gmt(f"{TRADEDATE} 18:45:00")` for every bar of the labelled frame. */
  function MoscowCutoffs(lab: seq<LabelledBar>): (r: seq<string>)
    requires forall i :: 0 <= i < |lab| ==> InMoscowEra(lab[i].bar.tradedate)
    ensures |r| == |lab|
    ensures forall i :: 0 <= i < |lab| ==> r[i] == MoscowCutoff(lab[i].bar.tradedate)
  {
    seq(|lab|, i requires 0 <= i < |lab| => MoscowCutoff(lab[i].bar.tradedate))
  }

  /** The dated notes of save_md_file_news.py's `main` over bars in TRADEDATE order: label
      the frame, scan the windows between its 15:45 cutoffs from the newest pair back,
      write one note per window. */
  function RawNotes(bars: seq<Bar>, news: seq<Row>): (r: seq<NoteFile>)
    requires WellFormed(news)
    requires forall i :: 0 <= i < |bars| ==> ValidDate(bars[i].tradedate)
    ensures |r| <= if |bars| < 2 then 0 else |bars| - 2
  {
    var lab := Labelled(bars);
    DatedNotes(lab, ScanAll(news, RawCutoffs(lab)))
  }

  /** A trade day of the fixed-offset era is a valid date. */
  lemma MoscowEraDatesValid(bars: seq<Bar>)
    requires forall i :: 0 <= i < |bars| ==> InMoscowEra(bars[i].tradedate)
    ensures forall i :: 0 <= i < |bars| ==> ValidDate(bars[i].tradedate)
  {
    forall i | 0 <= i < |bars|
      ensures ValidDate(bars[i].tradedate)
    {
      assert InMoscowEra(bars[i].tradedate);
    }
  }

  /** The same for save_md_file_news_02.py, whose cutoffs are 18:45 Moscow time in GMT. */
  function MoscowNotes(bars: seq<Bar>, news: seq<Row>): (r: seq<NoteFile>)
    requires WellFormed(news)
    requires forall i :: 0 <= i < |bars| ==> InMoscowEra(bars[i].tradedate)
    ensures (MoscowEraDatesValid(bars); r == RawNotes(bars, news))
  {
    MoscowEraDatesValid(bars);
    var lab := Labelled(bars);
    var ms, rs := MoscowCutoffs(lab), RawCutoffs(lab);
    assert ms == rs by {
      forall i | 0 <= i < |lab|
        ensures ms[i] == rs[i]
      {
        MoscowCutoffIsRaw(lab[i].bar.tradedate);
      }
    }
    DatedNotes(lab, ScanAll(news, ms))
  }

  /** 18:45 in Moscow is 15:45 in GMT on the same day, so both scripts cut at the same
      text. */
  lemma MoscowCutoffIsRaw(d: Date)
    requires InMoscowEra(d)
    ensures MoscowCutoff(d) == RawCutoff(d)
  {
    assert MskToGmt(At(d, 18, 45)) == At(d, 15, 45);
  }

  /** News strictly between the 15:45 cutoffs of bars `u - 1` and `u`. */
  function NoteWindow(bars: seq<Bar>, news: seq<Row>, u: int): seq<Row>
    requires WellFormed(news) && 1 <= u < |bars|
    requires forall i :: 0 <= i < |bars| ==> ValidDate(bars[i].tradedate)
  {
    Between(news, RawCutoff(bars[u - 1].tradedate), RawCutoff(bars[u].tradedate))
  }

  /** The note for the window closed by bar `u`, labelled with the direction of bar `u + 1`. */
  function NoteFor(bars: seq<Bar>, news: seq<Row>, u: int): NoteFile
    requires WellFormed(news) && 1 <= u < |bars| - 1
    requires forall i :: 0 <= i < |bars| ==> ValidDate(bars[i].tradedate)
  {
    NoteFile(FormatDate(bars[u].tradedate) + ".md", DirectionText(DirectionOf(bars[u + 1])), NoteWindow(bars, news, u))
  }

  /** The cutoffs of the labelled frame are those of the bars it keeps. */
  lemma RawCutoffsOf(bars: seq<Bar>, u: int)
    requires forall i :: 0 <= i < |bars| ==> ValidDate(bars[i].tradedate)
    requires 0 <= u < |bars| - 1
    ensures RawCutoffs(Labelled(bars))[u] == RawCutoff(bars[u].tradedate)
  {
  }

  /** The k-th note written is the note of bar `u = n - 2 - k`. */
  lemma NoteOfWindow(bars: seq<Bar>, news: seq<Row>, r: seq<NoteFile>, k: int, u: int)
    requires WellFormed(news)
    requires forall i :: 0 <= i < |bars| ==> ValidDate(bars[i].tradedate)
    requires r == RawNotes(bars, news)
    requires 0 <= k < |r| && u == |bars| - 2 - k
    ensures 1 <= u
    ensures r[k] == NoteFor(bars, news, u)
    ensures NoteWindow(bars, news, u) != []
  {
    var lab := Labelled(bars);
    var ws := ScanAll(news, RawCutoffs(lab));
    ScannedNoteWindow(bars, news, ws, k, u);
  }

  /** The k-th window of the scan over the labelled frame is the window of bar `u`. */
  lemma ScannedNoteWindow(bars: seq<Bar>, news: seq<Row>, ws: seq<Window>, k: int, u: int)
    requires WellFormed(news)
    requires forall i :: 0 <= i < |bars| ==> ValidDate(bars[i].tradedate)
    requires ws == ScanAll(news, RawCutoffs(Labelled(bars)))
    requires 0 <= k < |ws| && u == |bars| - 2 - k
    ensures 1 <= u < |bars| - 1 && ws[k].upper == u
    ensures ws[k].rows == NoteWindow(bars, news, u) && ws[k].rows != []
  {
    var cs := RawCutoffs(Labelled(bars));
    WindowRows(news, cs, ws[k], u);
    RawCutoffsOf(bars, u - 1);
    RawCutoffsOf(bars, u);
    SameWindow(news, cs[u - 1], cs[u], RawCutoff(bars[u - 1].tradedate), RawCutoff(bars[u].tradedate));
  }

  /** Unless the scan ran out of pairs, the window just older than the last note written
      is empty: that empty window is what ended the loop. */
  lemma NotesStop(bars: seq<Bar>, news: seq<Row>)
    requires WellFormed(news)
    requires forall i :: 0 <= i < |bars| ==> ValidDate(bars[i].tradedate)
    ensures var r := RawNotes(bars, news);
      |r| + 2 < |bars| ==> NoteWindow(bars, news, |bars| - 2 - |r|) == []
  {
    var lab := Labelled(bars);
    var cs := RawCutoffs(lab);
    var ws := ScanAll(news, cs);
    assert |RawNotes(bars, news)| == |ws|;
    if |ws| + 2 < |bars| {
      var u := |bars| - 2 - |ws|;
      assert |cs| == |bars| - 1;
      ScanAllStops(news, cs, ws, u);
      RawCutoffsOf(bars, u - 1);
      RawCutoffsOf(bars, u);
      SameWindow(news, cs[u - 1], cs[u], RawCutoff(bars[u - 1].tradedate), RawCutoff(bars[u].tradedate));
    }
  }

  /** The scan of `cutoffs` that stops early stops at an empty window. */
  lemma ScanAllStops(news: seq<Row>, cutoffs: seq<string>, ws: seq<Window>, u: int)
    requires WellFormed(news) && ws == ScanAll(news, cutoffs)
    requires 1 <= u && u == |cutoffs| - 1 - |ws|
    ensures Between(news, cutoffs[u - 1], cutoffs[u]) == []
  {
  }

  /** A window holds exactly the news stamped strictly between 15:45 of its two days. */
  lemma WindowIsInterval(news: seq<Row>, a: Date, b: Date, x: Row)
    requires WellFormed(news) && ValidDate(a) && ValidDate(b)
    ensures x in Between(news, RawCutoff(a), RawCutoff(b)) <==>
      && x in news && x.stamp.Some?
      && DateTimeLess(At(a, 15, 45), x.stamp.value)
      && DateTimeLess(x.stamp.value, At(b, 15, 45))
  {
    BetweenIsChronological(news, At(a, 15, 45), At(b, 15, 45), x);
  }

  /** A window whose older day is not before its newer day holds no news. */
  lemma OutOfOrderWindowIsEmpty(news: seq<Row>, a: Date, b: Date)
    requires WellFormed(news) && ValidDate(a) && ValidDate(b)
    requires !DateLess(a, b)
    ensures Between(news, RawCutoff(a), RawCutoff(b)) == []
  {
    var w := Between(news, RawCutoff(a), RawCutoff(b));
    if w != [] {
      var x := w[0];
      assert x in w;
      WindowIsInterval(news, a, b, x);
      SecondsOrder(At(a, 15, 45), x.stamp.value);
      SecondsOrder(x.stamp.value, At(b, 15, 45));
      SecondsOrder(At(a, 15, 45), At(b, 15, 45));
      assert false;
    }
  }

  /** Windows of days in date order do not overlap: no news row is listed in two notes. */
  lemma WindowsDisjoint(news: seq<Row>, a: Date, b: Date, c: Date, e: Date, x: Row)
    requires WellFormed(news)
    requires ValidDate(a) && ValidDate(b) && ValidDate(c) && ValidDate(e)
    requires DateLessEq(b, c)
    ensures !(x in Between(news, RawCutoff(a), RawCutoff(b)) && x in Between(news, RawCutoff(c), RawCutoff(e)))
  {
    WindowIsInterval(news, a, b, x);
    WindowIsInterval(news, c, e, x);
    if x.stamp.Some? && ValidDateTime(x.stamp.value) {
      var tb, tc := At(b, 15, 45), At(c, 15, 45);
      SecondsOrder(tb, tc);
      SecondsOrder(x.stamp.value, tb);
      SecondsOrder(tc, x.stamp.value);
    }
  }

  /** Notes of different dates have different names. */
  lemma NoteNamesDiffer(a: Date, b: Date, ext: string)
    requires ValidDate(a) && ValidDate(b) && a != b
    ensures FormatDate(a) + ext != FormatDate(b) + ext
  {
    FormatDateParses(a);
    FormatDateParses(b);
    assert (FormatDate(a) + ext)[..10] == FormatDate(a);
    assert (FormatDate(b) + ext)[..10] == FormatDate(b);
  }

  /** In date order, the k-th note is named after an older bar than the newest. */
  lemma NoteNotNewest(bars: seq<Bar>, news: seq<Row>, dated: seq<NoteFile>, k: int)
    requires WellFormed(news) && Ascending(bars)
    requires forall i :: 0 <= i < |bars| ==> ValidDate(bars[i].tradedate)
    requires dated == RawNotes(bars, news) && 0 <= k < |dated|
    ensures dated[k].name != FormatDate(bars[|bars| - 1].tradedate) + ".md"
  {
    var u := |bars| - 2 - k;
    NoteOfWindow(bars, news, dated, k, u);
    assert dated[k].name == FormatDate(bars[u].tradedate) + ".md";
    assert DateLess(bars[u].tradedate, bars[|bars| - 1].tradedate);
    NoteNamesDiffer(bars[u].tradedate, bars[|bars| - 1].tradedate, ".md");
  }

  /** `main` of save_md_file_news.py: the dated notes over the table sorted by TRADEDATE. */
  function ExportRaw(quotes: seq<Bar>, news: seq<Row>): (r: seq<NoteFile>)
    requires QuoteTable(quotes) && WellFormed(news)
    ensures |r| <= if |quotes| < 2 then 0 else |quotes| - 2
  {
    RawNotes(SortByDate(quotes), news)
  }

  /** The newest bar never names a dated note. */
  lemma NewestHasNoDatedNote(quotes: seq<Bar>, news: seq<Row>)
    requires QuoteTable(quotes) && WellFormed(news) && |quotes| > 0
    ensures
      var newest := SortByDate(quotes)[|quotes| - 1].tradedate;
      forall f :: f in ExportRaw(quotes, news) ==> f.name != FormatDate(newest) + ".md"
  {
    var bars := SortByDate(quotes);
    var dated := RawNotes(bars, news);
    forall f | f in dated
      ensures f.name != FormatDate(bars[|bars| - 1].tradedate) + ".md"
    {
      var k :| 0 <= k < |dated| && dated[k] == f;
      NoteNotNewest(bars, news, dated, k);
    }
  }

  // ---------------------------------------------------------------------------
  // save_md_file_news_02.py: Moscow cutoffs and `current.md`.

  /** `save_latest_titles_to_markdown`: the news after the newest bar's cutoff, with the
      label `current`; no file when there are none. */
  function CurrentNote(news: seq<Row>, newest: Date): (r: Option<NoteFile>)
    requires WellFormed(news) && InMoscowEra(newest)
    ensures r.Some? <==> exists x :: x in news && x.stamp.Some? && DateTimeLess(MskToGmt(At(newest, 18, 45)), x.stamp.value)
  {
    var rows := After(news, MoscowCutoff(newest));
    forall x | x in news
      ensures x in rows <==> x.stamp.Some? && DateTimeLess(MskToGmt(At(newest, 18, 45)), x.stamp.value)
    {
      AfterIsChronological(news, MskToGmt(At(newest, 18, 45)), x);
    }
    assert |rows| > 0 ==> rows[0] in rows;
    if |rows| > 0 then Some(NoteFile("current.md", "current", rows)) else None
  }

  /** What one run writes: the dated notes in the order written, and `current.md`. */
  datatype Export = Export(dated: seq<NoteFile>, current: Option<NoteFile>)

  /** `main` of save_md_file_news_02.py. An empty quote table has no newest date, and
      formatting the missing maximum raises. Otherwise the notes come from the bars in
      TRADEDATE order and `current.md` from the greatest TRADEDATE. */
  function ExportMoscow(quotes: seq<Bar>, news: seq<Row>): (r: Result<Export>)
    requires QuoteTable(quotes) && WellFormed(news)
    requires forall i :: 0 <= i < |quotes| ==> InMoscowEra(quotes[i].tradedate)
    ensures r.Err? <==> |quotes| == 0
  {
    if |quotes| == 0 then Err("ValueError: NaTType does not support strftime")
    else
      var bars := SortByDate(quotes);
      SortedInEra(quotes);
      Ok(Export(MoscowNotes(bars, news), CurrentNote(news, bars[|bars| - 1].tradedate)))
  }

  /** The dated notes of save_md_file_news_02.py are those of save_md_file_news.py. */
  lemma MoscowExportIsRaw(quotes: seq<Bar>, news: seq<Row>)
    requires QuoteTable(quotes) && WellFormed(news) && |quotes| > 0
    requires forall i :: 0 <= i < |quotes| ==> InMoscowEra(quotes[i].tradedate)
    ensures ExportMoscow(quotes, news).Ok?
    ensures ExportMoscow(quotes, news).value.dated == ExportRaw(quotes, news)
  {
  }

  /** `current.md` lists the news after the 18:45 cutoff of the greatest TRADEDATE of the
      table, in GMT, with the label `current`, and is written only when there is some;
      no dated note carries that date. */
  lemma MoscowCurrentNote(quotes: seq<Bar>, news: seq<Row>)
    requires QuoteTable(quotes) && WellFormed(news) && |quotes| > 0
    requires forall i :: 0 <= i < |quotes| ==> InMoscowEra(quotes[i].tradedate)
    ensures
      var m := SortByDate(quotes)[|quotes| - 1].tradedate;
      var out := ExportMoscow(quotes, news).value;
      && (exists i :: 0 <= i < |quotes| && quotes[i].tradedate == m)
      && (forall i :: 0 <= i < |quotes| ==> DateLessEq(quotes[i].tradedate, m))
      && (out.current.Some? <==>
            exists x :: x in news && x.stamp.Some? && DateTimeLess(MskToGmt(At(m, 18, 45)), x.stamp.value))
      && (out.current.Some? ==>
            out.current.value == NoteFile("current.md", "current", After(news, MoscowCutoff(m))))
      && (forall f :: f in out.dated ==> f.name != FormatDate(m) + ".md")
  {
    NewestIsMax(quotes);
    MoscowExportIsRaw(quotes, news);
    NewestHasNoDatedNote(quotes, news);
  }

  // ---------------------------------------------------------------------------
  // read_bd_quote.py: table order, every bar a window end, tab-separated files.

  /** The 15:45 cutoff of every row of the quote table, in table order. */
  function TableCutoffs(q: seq<Bar>): (r: seq<string>)
    requires forall i :: 0 <= i < |q| ==> ValidDate(q[i].tradedate)
    ensures |r| == |q|
    ensures forall i :: 0 <= i < |q| ==> r[i] == RawCutoff(q[i].tradedate)
  {
    seq(|q|, i requires 0 <= i < |q| => RawCutoff(q[i].tradedate))
  }

  /** The rows of a window are stored rows, so their timestamps print. */
  lemma WindowStamps(news: seq<Row>, rows: seq<Row>)
    requires WellFormed(news) && forall x :: x in rows ==> x in news
    ensures forall i :: 0 <= i < |rows| ==> ValidStamp(rows[i].stamp)
  {
    forall i | 0 <= i < |rows|
      ensures ValidStamp(rows[i].stamp)
    {
      assert rows[i] in rows;
    }
  }

  /** `main` of read_bd_quote.py: the quote table in its stored order, windows between the
      15:45 cutoffs of adjacent rows from the last pair back, and for each window read and
      found nonempty, `save_titles_to_file(df_news, f"news/{TRADEDATE}.txt")`. */
  function ExportText(q: seq<Bar>, news: seq<Row>): (r: seq<ListFile>)
    requires WellFormed(news)
    requires forall i :: 0 <= i < |q| ==> ValidDate(q[i].tradedate)
    ensures |r| <= if |q| == 0 then 0 else |q| - 1
  {
    var ws := ScanAll(news, TableCutoffs(q));
    seq(|ws|, k requires 0 <= k < |ws| => TextFile(q, news, ws[k].upper))
  }

  /** The window of table rows `u - 1` and `u`, and its file. */
  function TableWindow(q: seq<Bar>, news: seq<Row>, u: int): (r: seq<Row>)
    requires WellFormed(news) && 1 <= u < |q|
    requires forall i :: 0 <= i < |q| ==> ValidDate(q[i].tradedate)
    ensures forall i :: 0 <= i < |r| ==> ValidStamp(r[i].stamp)
  {
    var rows := Between(news, RawCutoff(q[u - 1].tradedate), RawCutoff(q[u].tradedate));
    WindowStamps(news, rows);
    rows
  }

  lemma TableWindowIsBetween(q: seq<Bar>, news: seq<Row>, u: int)
    requires WellFormed(news) && 1 <= u < |q|
    requires forall i :: 0 <= i < |q| ==> ValidDate(q[i].tradedate)
    ensures TableWindow(q, news, u) == Between(news, RawCutoff(q[u - 1].tradedate), RawCutoff(q[u].tradedate))
  {
  }

  function TextFile(q: seq<Bar>, news: seq<Row>, u: int): ListFile
    requires WellFormed(news) && 1 <= u < |q|
    requires forall i :: 0 <= i < |q| ==> ValidDate(q[i].tradedate)
  {
    ListFile(FormatDate(q[u].tradedate) + ".txt", TableWindow(q, news, u))
  }

  /** Equal cutoff texts select the same news. */
  lemma SameWindow(news: seq<Row>, lower: string, upper: string, lower': string, upper': string)
    requires WellFormed(news) && lower == lower' && upper == upper'
    ensures Between(news, lower, upper) == Between(news, lower', upper')
  {
  }

  /** The k-th file written is the file of row `u = n - 1 - k`, and its window is not
      empty. */
  lemma TextFileOfWindow(q: seq<Bar>, news: seq<Row>, r: seq<ListFile>, k: int, u: int)
    requires WellFormed(news)
    requires forall i :: 0 <= i < |q| ==> ValidDate(q[i].tradedate)
    requires r == ExportText(q, news)
    requires 0 <= k < |r| && u == |q| - 1 - k
    ensures 1 <= u
    ensures r[k] == TextFile(q, news, u)
    ensures TableWindow(q, news, u) != []
  {
    ScannedTextWindow(q, news, ScanAll(news, TableCutoffs(q)), k, u);
    TableWindowIsBetween(q, news, u);
  }

  /** The k-th window of the scan over the table's cutoffs is the window of row `u`. */
  lemma ScannedTextWindow(q: seq<Bar>, news: seq<Row>, ws: seq<Window>, k: int, u: int)
    requires WellFormed(news)
    requires forall i :: 0 <= i < |q| ==> ValidDate(q[i].tradedate)
    requires ws == ScanAll(news, TableCutoffs(q))
    requires 0 <= k < |ws| && u == |q| - 1 - k
    ensures 1 <= u < |q| && ws[k].upper == u
    ensures ws[k].rows == Between(news, RawCutoff(q[u - 1].tradedate), RawCutoff(q[u].tradedate))
    ensures ws[k].rows != []
  {
    var cs := TableCutoffs(q);
    WindowRows(news, cs, ws[k], u);
    SameWindow(news, cs[u - 1], cs[u], RawCutoff(q[u - 1].tradedate), RawCutoff(q[u].tradedate));
  }

  /** One file per window the scan wrote. */
  lemma ExportTextCount(q: seq<Bar>, news: seq<Row>)
    requires WellFormed(news)
    requires forall i :: 0 <= i < |q| ==> ValidDate(q[i].tradedate)
    ensures |ExportText(q, news)| == |ScanAll(news, TableCutoffs(q))|
  {
  }

  /** Unless the scan reached row 0, the window just older than the last file is empty. */
  lemma TextFilesStop(q: seq<Bar>, news: seq<Row>)
    requires WellFormed(news)
    requires forall i :: 0 <= i < |q| ==> ValidDate(q[i].tradedate)
    ensures var r := ExportText(q, news);
      |r| + 1 < |q| ==> TableWindow(q, news, |q| - 1 - |r|) == []
  {
    var cs := TableCutoffs(q);
    var ws := ScanAll(news, cs);
    ExportTextCount(q, news);
    var n := |ExportText(q, news)|;
    if n + 1 < |q| {
      var u := |q| - 1 - n;
      assert TableWindow(q, news, u) == [] by {
        ScanAllStops(news, cs, ws, u);
        SameWindow(news, cs[u - 1], cs[u], RawCutoff(q[u - 1].tradedate), RawCutoff(q[u].tradedate));
        TableWindowIsBetween(q, news, u);
      }
    }
  }

  /** The table is read unsorted: where a row's date is not after the previous row's, that
      window is empty, so the export stops there at the latest. */
  lemma TextFilesStopAtDisorder(q: seq<Bar>, news: seq<Row>, u: int)
    requires WellFormed(news)
    requires forall i :: 0 <= i < |q| ==> ValidDate(q[i].tradedate)
    requires 1 <= u < |q| && !DateLess(q[u - 1].tradedate, q[u].tradedate)
    ensures |ExportText(q, news)| <= |q| - 1 - u
  {
    var ws := ScanAll(news, TableCutoffs(q));
    ExportTextCount(q, news);
    var k := |q| - 1 - u;
    if k < |ws| {
      TextFileOfWindow(q, news, ExportText(q, news), k, u);
      TableWindowIsBetween(q, news, u);
      OutOfOrderWindowIsEmpty(news, q[u - 1].tradedate, q[u].tradedate);
      assert false;
    }
  }

  /** A file reads back, line by line, as the date text and title of each row of its
      window in query order, provided no title spans lines. */
  lemma TextFileReadsBack(q: seq<Bar>, news: seq<Row>, u: int)
    requires WellFormed(news) && 1 <= u < |q|
    requires forall i :: 0 <= i < |q| ==> ValidDate(q[i].tradedate)
    requires forall x :: x in news ==> SingleLine(x.title)
    ensures var rows := TableWindow(q, news, u);
      ReadTsv(ListText(TextFile(q, news, u))) ==
        Some(seq(|rows|, i requires 0 <= i < |rows| => Entry(DateText(rows[i].stamp), TitleText(rows[i].title))))
  {
    var rows := TableWindow(q, news, u);
    forall i | 0 <= i < |rows|
      ensures SingleLine(rows[i].title)
    {
      assert rows[i] in rows;
    }
    ReadTsvRoundTrip(rows);
  }
}
