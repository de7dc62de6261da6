# rss_investing: a Dafny model of the news and futures pipeline

rss_investing collects investing.com RSS news into an SQLite `news` table. It keeps a
table of daily RTS futures bars loaded from the MOEX ISS API. It exports the news that
fall between consecutive bars into small markdown or tab-separated files, each labelled
with the direction of the next bar. This project models the deterministic logic under
those scripts as pure functions over sequences and maps, and proves what they do.

- **News table and feeds** (`NewsTable`, `Feeds`):
  - the `.rss` link filter of `get_links`;
  - the default strings that `fetch_rss` and `parsing_news` put in for missing
    `title`, `pubDate` and `link`;
  - the concatenation of the per-feed results;
  - the append (with the date sort before it) done by `save_to_sqlite`.
- **Duplicate removal** (`Dedup`, `DuplicateReport`). There are three separate purges,
  each as its own file writes it:
  - the `ROW_NUMBER()` purge by (calendar day, title) of main_server_beget.py and
    dublicates_db_delete.py;
  - the `MIN(rowid)` purge by exact (date, title) of main_01.py;
  - the title-only pandas dedup of scrapping_rss_investing.py.

  Alongside them is the duplicate-group report of dublicates_db_search.py.
- **News-to-bar export** (`Alignment`, `Rendering`, `TextLines`, `Calendar`, `TimeText`):
  - the `up`/`down` labels and their shift onto the previous bar;
  - the backward scan over adjacent bars that stops at the first empty window;
  - the 18:45 Moscow cutoffs converted to GMT (`msk_to_gmt`) and the raw 15:45 cutoffs;
  - the `current.md` note;
  - the markdown and tab-separated renderings, each with a reader that shows what a
    file preserves.
- **Futures** (`FuturesStore`, `FuturesFetch`):
  - the `Futures` table as a map keyed by trade date;
  - the bounded retry;
  - the `LSTTRADE → LSTDELDATE → "2130-01-01"` fallback;
  - the front-contract choice;
  - the day-by-day fill below an injected "today";
  - the two different start-date policies.

The model takes every stored news `date` to be the fixed-width `YYYY-MM-DD HH:MM:SS` text
that sqlite3 writes for a naive, whole-second datetime (see `NewsTable.StampText` under
"Left out"). `TimeText.FormatDateTimeOrder` proves that comparing that text, as SQLite
does, is chronological order. This is what makes
the text windows of the SQL queries time intervals.

`df['bar'].shift(-1)` is read on row `i`, so the file named after bar `i` carries the
direction of bar `i + 1` (`Alignment.Shifted`, `Alignment.Labelled`,
`Alignment.NoteOfWindow`).

## Model

| member | source | states |
|---|---|---|
| Calendar.MskToGmt | save_md_file_news_02.py:8-15 | From the 2014-10-26 switch on, the GMT time is the Moscow time exactly three hours earlier, including when that crosses a day, month or year. |
| Calendar.MskToGmtMonotone | save_md_file_news_02.py:8-15 | The conversion is strictly monotone and injective, so a window whose bounds are ordered in Moscow time stays ordered in GMT. |
| Calendar.MskToGmtYearRollover | save_md_file_news_02.py:8-15 | 2025-01-01 01:00:00 Moscow is 2024-12-31 22:00:00 GMT. |
| Alignment.MskToGmtText | save_md_file_news_02.py:8-15 | Zero-padded `YYYY-MM-DD HH:MM:SS` text is converted to the text of the instant exactly 3 hours earlier. Any other text gives ValueError. |
| Alignment.MskToGmtTextOf | save_md_file_news_02.py:8-15 | On the text of an instant, `msk_to_gmt` gives the text of that instant minus three hours. |
| Alignment.MoscowCutoffText | save_md_file_news_02.py:107-110 | `msk_to_gmt(f"{d} 18:45:00")` is the stored text of 18:45 on day d, shifted to GMT. |
| Alignment.MoscowCutoffIsRaw | save_md_file_news_02.py:107-110 | In the fixed-offset era, the 18:45 Moscow cutoff and the raw 15:45 cutoff of the same day are the same text. |
| Calendar.NextDay | futures_scraper.py:146 | `+ timedelta(days=1)` yields a valid date whose day number is one more. |
| Calendar.NextDayIsSuccessor | futures_scraper.py:146 | The next day is after d, and a date is after d exactly when it is on or after the next day. |
| Calendar.DayNumberOrder | futures_scraper.py:104 | Comparing dates (`tradedate < today_date`) is the order of their day numbers. |
| TimeText.FormatDateTimeParses | save_md_file_news_02.py:12 | `strptime` with the stored format reads back every formatted instant. |
| TimeText.FormatDateTimeOrder | save_md_file_news.py:17-21 | Comparing stored timestamp texts, as the SQL `date > ? AND date < ?` does, is chronological order, and equal texts mean equal instants. |
| TimeText.FormatDateOrder | sqlighter3_RTS_day.py:57-60 | ISO date texts compare like the dates, so `MAX(TRADEDATE)` over the text column is the latest date. |
| NewsTable.Between | save_md_file_news.py:12-21 | The query returns exactly the stored rows whose date text lies strictly between the bounds, as a subsequence in table order. NULL dates never match. |
| NewsTable.BetweenIsChronological | save_md_file_news_02.py:26-35 | With formatted bounds, a row is in the window exactly when its timestamp is strictly inside the open time interval. |
| NewsTable.After | save_md_file_news_02.py:38-47 | `date > ?` returns exactly the rows after the bound, in table order. |
| NewsTable.AfterIsChronological | save_md_file_news_02.py:38-47 | A row matches `date > ?` exactly when its timestamp is after the bound instant. |
| NewsTable.SaveToSqlite | main_server_beget.py:99-119 | An empty frame writes nothing, and an exception caught inside the `try` leaves the table as it was. Otherwise the old rows stay and the frame's (date, title) pairs are appended in order under fresh increasing rowids. |
| NewsTable.SaveSorted | main_01.py:194-197 | After `sort_values(by='date')` and the save, the old rows stay. Exactly the frame's pairs are appended, each once, oldest first and unparsed dates last. A failed save changes nothing. |
| NewsTable.SubsequenceWellFormed | main_server_beget.py:130-144 | Deleting rows keeps rowids increasing and timestamps valid. |
| Dedup.PurgeByDay | main_server_beget.py:130-144 | The purge only deletes: it keeps exactly the rows ranked first in their (day, title) partition by date, with NULL first. |
| Dedup.PurgeByDayOnePerKey | dublicates_db_delete.py:12-27 | After the purge no two rows share a (DATE(date), title) key. |
| Dedup.PurgeByDayKeepsEveryKey | dublicates_db_delete.py:12-27 | Every (day, title) key present before the purge still has a row after it. |
| Dedup.PurgeByDayKeepsEarliest | main_server_beget.py:139 | The surviving row of a group has the earliest date of its group. |
| Dedup.UniqueDayKeySurvives | main_server_beget.py:130-143 | A row whose (day, title) key is unique is never deleted. |
| Dedup.PurgeByDayIdempotent | main_server_beget.py:130-143 | A second purge deletes nothing. |
| Dedup.PurgeByDayCount | main_server_beget.py:145-147 | The rows left number the distinct (day, title) keys. |
| Dedup.RemoveDuplicatesByDay | main_server_beget.py:126-150 | On an error the table is unchanged and no count is reported. Otherwise the table is the purge and the count reported is rows minus distinct keys. |
| Dedup.DeleteDuplicatesScript | dublicates_db_delete.py:10-36 | On `sqlite3.Error` the rollback leaves the table unchanged. Otherwise the committed table is the day purge, and either way rows are only deleted. |
| Dedup.SameTitleOtherDaySurvives | main_server_beget.py:139 | The same title on two calendar days: both rows survive the day purge. |
| Dedup.SameDayTwoTimes | main_01.py:168 | The same title twice in one day at two times: the day purge keeps the earlier row, the exact (date, title) purge keeps both. |
| Dedup.PurgeByStamp | main_01.py:163-170 | The purge only deletes: it keeps exactly the row with the smallest rowid of each exact (date, title) group. |
| Dedup.PurgeByStampOnePerKey | main_01.py:163-170 | After the purge no two rows share a (date, title) key. |
| Dedup.PurgeByStampKeepsEveryKey | main_01.py:163-170 | Every (date, title) key present before still has a row after. |
| Dedup.PurgeByStampKeepsMinRowid | main_01.py:166 | The surviving row has the minimum rowid of its group. |
| Dedup.PurgeByStampIdempotent | main_01.py:163-170 | A second purge deletes nothing. |
| Dedup.PurgeByStampCount | main_01.py:171-173 | The rows left number the distinct (date, title) keys. |
| Dedup.PurgedStampKeyIsKey | main_01.py:163-170 | Every key after the purge was a key before it. |
| Dedup.StampKeyIsPurgedKey | main_01.py:163-170 | Every key before the purge is a key after it. |
| Dedup.RemoveDuplicatesByStamp | main_01.py:159-176 | On an error nothing changes. Otherwise the table is the exact purge and the reported count is rows minus distinct (date, title) keys. |
| Dedup.PurgeByDayWithinPurgeByStamp | main_01.py:168 | The day purge is coarser: every row it keeps, the exact purge keeps too. |
| Dedup.DropDuplicateTitles | scrapping_rss_investing.py:95-107 | The result is a subsequence of the frame in its original order, holding exactly the rows ranked first for their title by (date with NaT last, index). |
| Dedup.DropDuplicateTitlesOnePerTitle | scrapping_rss_investing.py:102-104 | Each title appears exactly once in the output. |
| Dedup.DropDuplicateTitlesKeepsEveryTitle | scrapping_rss_investing.py:102-104 | Every title of the input appears in the output. |
| Dedup.DropDuplicateTitlesPrefersDates | scrapping_rss_investing.py:100-104 | For a title with some parsed date, the kept row has a parsed date no later than any other row of the title. |
| Dedup.DropDuplicateTitlesIdempotent | scrapping_rss_investing.py:95-107 | Deduplicating twice gives the same frame as once. |
| Dedup.TitleOnlyCollapsesDays | scrapping_rss_investing.py:104 | The same title on two days collapses to its earliest row. |
| DuplicateReport.DuplicateGroups | dublicates_db_search.py:12-24 | The report lists exactly the (day, title) groups occurring more than once, each once, with its count, every count at least 2. |
| DuplicateReport.NoGroupsIffUnique | dublicates_db_search.py:12-30 | The query returns no group exactly when every (day, title) key is unique. |
| DuplicateReport.Search | dublicates_db_search.py:27-36 | Duplicates are reported exactly when some (day, title) key repeats, and the groups reported are then the query's groups, of which there is at least one. |
| DuplicateReport.Headline | dublicates_db_search.py:30-36 | "Дубликатов не обнаружено." is printed exactly when nothing was found. |
| DuplicateReport.NoGroupsAfterPurge | dublicates_db_search.py:12-24 | After the day purge the search reports no group. |
| DuplicateReport.SurplusIsPurged | dublicates_db_search.py:12-24 | The reported counts, less one each, add up to the number of rows the day purge deletes. |
| Feeds.RssHrefs | main_01.py:75-79 | Only hrefs ending in `.rss` are kept, each from an item whose anchor has it, never more than the items. |
| Feeds.RssHrefsAppend | main_01.py:75-79 | The filter works item by item: the links of a joined list are the links of each part, in page order. |
| Feeds.GetLinks | main_01.py:60-89 | Any failure or missing section gives `[]`. Otherwise the result is the `.rss` hrefs in page order. |
| Feeds.GetLinksScrapping | scrapping_rss_investing.py:9-53 | A request failure propagates and a missing section gives no list (`None`). A list it returns is the other copies' list, and where it returns none theirs is `[]`. |
| Feeds.TextOr | main_01.py:34-36 | A missing child gives the default and a present child gives its text. |
| Feeds.ItemsOf | main_server_beget.py:36-45 | One record per item in order: a missing title, pubDate or link becomes "Нет заголовка", "Нет даты публикации" or "Нет ссылки", and present ones are copied. |
| Feeds.ChannelName | main_server_beget.py:33-34 | The section is the channel title's text, or "" when there is no channel or no title. |
| Feeds.FetchRss | main_01.py:24-45 | A failing feed yields `[]`. A fetched one yields its items with defaults and section. |
| Feeds.MergeFeeds | main_server_beget.py:50-57 | The merged list holds as many news items as the fetched feeds have items together; a failed feed adds none. |
| Feeds.MergeFeedsAppend | main_server_beget.py:55-57 | Merging is concatenation: merging two runs of feeds joins their news. |
| Feeds.FailedFeedContributesNothing | main_01.py:43-45 | A failing feed contributes nothing, and the other feeds still contribute. |
| Feeds.ChannelNameUnchecked | scrapping_rss_investing.py:72-77 | A channel without a `<title>` raises. Otherwise the name is the same as in the other copies. |
| Feeds.ParsingNews | scrapping_rss_investing.py:55-93 | The call fails exactly when some fetched feed has an untitled channel. Request and XML errors only skip their feed. |
| Feeds.ParsingNewsAgrees | scrapping_rss_investing.py:55-93 | Whenever `parsing_news` succeeds it gives exactly the merged news of the other copies. |
| Feeds.UntitledChannelAborts | scrapping_rss_investing.py:76 | A good feed followed by an untitled channel makes the whole call fail, although the good feed has news. |
| Feeds.ParsingNewsChecked | scrapping_rss_investing.py:72-91 | With the title checked, every fetched item is returned. |
| Feeds.ParsingNewsCheckedAgrees | scrapping_rss_investing.py:72-91 | The checked loop equals the merged news of the other copies on every input, and equals `parsing_news` wherever that succeeds. |
| FuturesStore.MaxOf | sqlighter3_RTS_day.py:57-60 | `MAX` over a date set is `None` exactly on an empty set, and otherwise is its greatest member. |
| FuturesStore.AddTradedate | sqlighter3_RTS_day.py:45-54 | A duplicate date is rejected and the table is unchanged. An absent date gains exactly that row. Existing rows never change and consistency is kept. |
| FuturesStore.TradedateExists | sqlighter3_RTS_day.py:38-42 | True exactly when some row carries that trade date. |
| FuturesStore.NonEmpty | sqlighter3_RTS_day.py:33-35 | True exactly when the table has a row. |
| FuturesStore.MaxDate | sqlighter3_RTS_day.py:57-60 | `None` exactly on an empty table. Otherwise a stored date no earlier than any other. |
| FuturesStore.MaxDateOrDefault | futures_scraper.py:66-70 | 2014-01-01 on an empty table, else the greatest stored date. |
| FuturesStore.MaxLsttrade | sqlighter3_RTS_day.py:63-66 | `None` on an empty table. Otherwise the greatest LSTTRADE over all rows, carried by some row. |
| FuturesStore.Delete | futures_scraper.py:171 | The date is gone and every other row is unchanged. |
| FuturesStore.AddThenExists | sqlighter3_RTS_day.py:45-54 | After an add the date exists, and adding the same bar again changes nothing. |
| FuturesStore.AddMaxDate | sqlighter3_RTS_day.py:45-60 | Adding a new date moves the maximum up to it exactly when it is later. |
| FuturesStore.DeleteMaxLowersMax | update_futures_RTS_day_rss.py:124-128 | Deleting the newest row removes one row and leaves only strictly earlier dates. |
| FuturesFetch.RequestMoex | futures_scraper.py:72-82 | At most `retries` attempts are made. The reply is the first successful attempt's, and `None` comes only after every attempt failed. |
| FuturesFetch.FirstValue | futures_scraper.py:95-97 | The value of the first row with that name, `None` exactly when no row has it. |
| FuturesFetch.GetInfoFuture | futures_scraper.py:84-99 | No reply gives ("", "2130-01-01"). Otherwise SHORTNAME defaults to "" and LSTTRADE falls back to LSTDELDATE, then to "2130-01-01". An empty description raises KeyError. |
| FuturesFetch.CoerceDate | futures_scraper.py:128 | On ISO `YYYY-MM-DD` date text, `to_datetime(errors='coerce')` yields exactly the date the text formats, when it is within pandas' Timestamp range. |
| FuturesFetch.FarLsttradeCoerces | update_futures_RTS_day_rss.py:92-93 | The fallback "2130-01-01" converts to the date 2130-01-01. |
| FuturesFetch.InfosOf | update_futures_RTS_day_rss.py:89-91 | The lookups succeed exactly when every quote's lookup does, and the first failure raises KeyError. |
| FuturesFetch.Candidates | futures_scraper.py:125-129 | One bar per priced quote in reply order, each with its contract's last trading day. A failed lookup raises KeyError. |
| FuturesFetch.EarliestLsttrade | futures_scraper.py:130 | `min()` over the eligible rows is `None` when there are none, and otherwise the earliest LSTTRADE of one of them. |
| FuturesFetch.SelectBar | futures_scraper.py:129-132 | A chosen bar is a candidate that trades after the day and expires no later than any other such candidate. |
| FuturesFetch.FrontIsUniqueEarliest | futures_scraper.py:129-130 | Exactly one row survives the two filters at i exactly when candidate i is eligible and expires strictly before every other eligible one. |
| FuturesFetch.SelectBarExactlyOne | update_futures_RTS_day_rss.py:94-103 | A bar is written exactly when one eligible contract expires strictly first, and it is that contract's bar. |
| FuturesFetch.TieWritesNothing | futures_scraper.py:130-132 | Two eligible contracts sharing the earliest LSTTRADE: nothing is written. |
| FuturesFetch.VisitStore | futures_scraper.py:105-145 | One day of the loop: stored rows never change, a new row is exactly the bar written for that day, and a day that writes nothing leaves the table as it was. |
| FuturesFetch.ProcessDay | futures_scraper.py:111-145 | No reply or no rows gives no data. A written bar comes from a priced quote of that day and trades after the day. |
| FuturesFetch.FillDays | futures_scraper.py:101-146 | The loop keeps stored rows and requests only missing dates in [start, today), once each, ascending, beginning with `start` when it is missing. Each bar a requested day writes is in the table under its trade date, and no day is requested after a bar with its date was written. New rows are bars written for requested days. The returned log holds each requested day's outcome in order. The error is exactly the exception of the last requested day, and every earlier day ran to the end. Every date from `start` up to today, or up to the day that raised, is stored or was requested. |
| FuturesFetch.ScraperStart | futures_scraper.py:166-173 | An empty table starts at 2025-01-01. Otherwise the newest bar is deleted and committed. The start is the day after it, later than every date left, unless that day overflows, which raises with the bar already deleted. |
| FuturesFetch.ScraperStartDropsNewest | futures_scraper.py:166-173 | The deleted newest date is gone and precedes the start, so this run never requests it. |
| FuturesFetch.RunScraper | futures_scraper.py:148-177 | The run never requests the deleted newest date, so, whether or not a day raises, it can only come back from a bar written for another day. When the day after it overflows, the run stops with that bar deleted and nothing requested. |
| FuturesFetch.ScraperStartRefetching | futures_scraper.py:166-173 | Delete the newest bar and start at its own date, after every date left. |
| FuturesFetch.RunScraperRefetching | futures_scraper.py:148-177 | With the corrected start, a deleted date before today is the first date requested, even when a later day raises. The log holds each requested day's outcome; the error is the exception of the last requested day, and every earlier day ran to the end. |
| FuturesFetch.UpdateStart | update_futures_RTS_day_rss.py:116-132 | An empty table starts at 2025-01-01. Otherwise the newest bar is deleted and committed. A table of one row then raises, because the max after the delete is `None`. Otherwise the start is the new max plus one, which is not after the deleted date. |
| FuturesFetch.UpdateFailureRestartsAtDefault | update_futures_RTS_day_rss.py:122-132 | After the failure on a one-row table the table is empty, so the next run starts at 2025-01-01. |
| FuturesFetch.UpdateStartFallback | update_futures_RTS_day_rss.py:116-132 | Same as the update policy, except that when the deleted row was the only one the start falls back to 2025-01-01. |
| FuturesFetch.RunUpdate | update_futures_RTS_day_rss.py:113-135 | A one-row table is left empty and the run aborts before any request. Otherwise the log holds each requested day's outcome, the error is exactly the exception of the last requested day, and the deleted date, if before today, is requested again or stored unless a day before it raised. |
| FuturesFetch.StartPoliciesExample | update_futures_RTS_day_rss.py:122-132 | With bars on Jan 9 and 10, the scraper starts on the 11th and the update script on the 10th. With only Jan 10 the update script deletes it and raises, and the fallback restarts at 2025-01-01. |
| Alignment.SortByDate | save_md_file_news.py:41-42 | `sort_values(by='TRADEDATE')` yields the same bars in strictly ascending date order. |
| Alignment.NewestIsMax | save_md_file_news_02.py:69-72 | The last sorted bar is a stored bar with the greatest TRADEDATE. |
| Alignment.DirectionOf | save_md_file_news_02.py:98 | A bar is `up` exactly when OPEN < CLOSE. |
| Alignment.Shifted | save_md_file_news_02.py:99 | Every row keeps its bar and takes the next row's label; the newest row's label is missing. |
| Alignment.DropNaKeepsPresent | save_md_file_news_02.py:100 | A row survives `dropna()` exactly when its `next_bar` is present. |
| Alignment.Labelled | save_md_file_news_02.py:98-100 | Every bar but the newest, in order. The label of bar i is `up` iff bar i+1 has OPEN < CLOSE, so ties are `down`. |
| Alignment.ScanFrom | save_md_file_news.py:50-62 | Windows are visited downward from i. Each written window holds exactly the news strictly between its two cutoffs and is nonempty. When the run ends before window 1, the next window is empty. |
| Alignment.ScanAll | save_md_file_news_02.py:102-116 | The loop from the newest pair: the k-th written window is closed by cutoff n-1-k, and the scan stopped at an empty window unless it ran out of pairs. |
| Alignment.DatedNotes | save_md_file_news.py:54-66 | Each written window becomes `<TRADEDATE>.md` with that row's `next_bar` label and the window's rows. |
| Alignment.RawNotes | save_md_file_news.py:44-66 | At most one note per bar other than the oldest and the newest; what each note holds is stated by `Alignment.NoteOfWindow` and `Alignment.NotesStop`. |
| Alignment.NoteOfWindow | save_md_file_news.py:50-66 | The k-th note is bar n-2-k's note: named after that bar, labelled with the next bar's direction, listing the nonempty news between the 15:45 cutoffs of that bar and the one before. |
| Alignment.ScannedNoteWindow | save_md_file_news.py:55-59 | The k-th scanned window over the labelled frame is the raw 15:45 window of bar n-2-k, and it is nonempty. |
| Alignment.NotesStop | save_md_file_news.py:61-62 | Unless the scan ran out of pairs, the window just older than the last note is empty. |
| Alignment.WindowIsInterval | save_md_file_news.py:55-56 | A window holds exactly the news stamped strictly between 15:45 of its two days. |
| Alignment.OutOfOrderWindowIsEmpty | read_bd_quote.py:53-54 | A window whose lower day is not before its upper day holds no news. |
| Alignment.WindowsDisjoint | save_md_file_news.py:55-56 | Windows of days in date order share no news row. |
| Alignment.NoteNamesDiffer | save_md_file_news.py:54 | Files of different dates have different names. |
| Alignment.NoteNotNewest | save_md_file_news_02.py:99-102 | Over ascending bars, no note is named after the newest bar. |
| Alignment.ExportRaw | save_md_file_news.py:36-66 | At most one note per bar other than the oldest and the newest of the sorted table; the k-th note is stated by `Alignment.NoteOfWindow`, and the stop by `Alignment.NotesStop`, over the sorted bars. |
| Alignment.NewestHasNoDatedNote | save_md_file_news_02.py:99-100 | The newest bar never gets a dated file. |
| Alignment.MoscowNotes | save_md_file_news_02.py:90-118 | In the fixed-offset era, the GMT-shifted 18:45 scan writes the same notes as the raw 15:45 scan. |
| Alignment.CurrentNote | save_md_file_news_02.py:62-87 | `current.md` exists exactly when some news is after the newest date's 18:45 Moscow instant. |
| Alignment.ExportMoscow | save_md_file_news_02.py:90-121 | An empty quote table raises, because the missing maximum has no strftime. Otherwise the run succeeds. |
| Alignment.MoscowExportIsRaw | save_md_file_news_02.py:90-118 | The dated notes of save_md_file_news_02.py are those of save_md_file_news.py. |
| Alignment.MoscowCurrentNote | save_md_file_news_02.py:69-87 | `current.md` uses the table's greatest TRADEDATE and lists exactly the news after its 18:45 cutoff in GMT, labelled `current`. It is written only when nonempty, and no dated note has that date. |
| Alignment.NoteReadsBack | save_md_file_news_02.py:50-59 | A note reads back as its label and its rows' titles in order, when none spans lines. |
| Alignment.ExportText | read_bd_quote.py:39-65 | At most one file per table row after the first; the k-th file is stated by `Alignment.TextFileOfWindow` and the stop by `Alignment.TextFilesStop`. |
| Alignment.TextFileOfWindow | read_bd_quote.py:41-65 | The k-th file is `<TRADEDATE>.txt` of table row n-1-k, in table order without sorting, listing the nonempty news of its 15:45 window. |
| Alignment.ScannedTextWindow | read_bd_quote.py:44-58 | The k-th scanned window is the window of table row n-1-k, which is at least 1, so row 0 never closes a window. |
| Alignment.TextFilesStop | read_bd_quote.py:60-61 | Unless the scan reached row 0, the window just older than the last file is empty. |
| Alignment.TextFilesStopAtDisorder | read_bd_quote.py:41-61 | In the unsorted table, a row not dated after its predecessor ends the export there at the latest. |
| Alignment.TextFileReadsBack | read_bd_quote.py:26-37 | A file reads back as one (date text, title) entry per row of its window, in order. |
| Rendering.MarkdownIsLines | save_md_file_news_02.py:56-59 | The note is its three front-matter lines, a blank line and one `- <title>` line per title, each newline-terminated. |
| Rendering.ReadMarkdownRoundTrip | save_md_file_news.py:23-34 | A note whose label and titles fit on one line reads back as written. |
| Rendering.NewlineTitleSplits | save_md_file_news.py:34 | Titles are not escaped: a title holding "\n- " is written exactly like two titles and reads back as two. |
| Rendering.DateTextIsPlain | read_bd_quote.py:35 | The `str()` of a stored date holds no tab and no newline. |
| Rendering.ReadTsvRoundTrip | read_bd_quote.py:30-37 | There is one line per row and no header. Each line splits at its first tab into the row's date text and title, when no title spans lines. |
| TextLines.LinesUnlines | read_bd_quote.py:37 | Reading back lines written one `write(... "\n")` at a time gives the same lines. |
| TextLines.UnlinesLines | save_md_file_news_02.py:59 | A newline-terminated text is the concatenation of its lines, each with its newline. |
| Sorting.Sort | save_md_file_news_02.py:96 | The sort yields a permutation in the given order. |

## Left out

- HTTP, the async fetching, the one-second pause between feeds, BeautifulSoup and `ET.fromstring` are
  not modelled. A page is its `rssBox` list (or none), a feed is its parsed document or
  the exception, and a MOEX reply is a function of the attempt or the requested date.
- The SQLite engine is not modelled: transactions, indexes, `VACUUM`, connections.
  - Tables are sequences in rowid order, and the futures table is a map.
  - `SELECT *` returns rows in rowid order; SQLite does not promise that order.
  - The `date > ? AND date < ?` queries are modelled as returning rows in rowid order.
    Both scripts that save news create the index `idx_news_date_title` on `(date, title)`
    (main_server_beget.py:115, main_01.py:113), so in practice SQLite answers the range
    query from that index, in (date, title) order. The order of the lines in a note
    depends on this.
  - Ties in `ORDER BY date` are broken by rowid.
  - Ties in `sort_values` are broken by frame index.
- pandas `to_datetime` of the `pubDate` strings is not modelled, and the code does not fix
  their format. A news row carries its parsed instant or NaT/NULL.
- NewsTable.StampText: the stored `date` text is assumed to be what sqlite3 writes for a
  naive datetime with whole seconds, `YYYY-MM-DD HH:MM:SS`. If `to_datetime` returned
  zone-aware timestamps, `to_sql` would store a suffix such as
  `2025-01-10 15:45:00+00:00`. That text is greater than the cutoff `2025-01-10 15:45:00`,
  so a row stamped exactly at a cutoff would fall in the newer window, where the model puts
  it in none. `str(row['date'])` in read_bd_quote.py would also print the suffix, which
  `Rendering.DateText` does not produce. Fractional seconds would likewise add a
  `.ffffff` part.
- Logging, printing, file-system writes, the infinite polling loop of main_01.py and
  `datetime.now()` are not modelled. A file is its name and text, and "today" is a
  parameter.
- Prices are integers, not floats, because only `OPEN < CLOSE` and the null check
  matter. The `float(...)` conversions are not modelled.
- The ZoneInfo database is not modelled: Moscow is UTC+3 from 2014-10-26 02:00 local
  time on.
- main.py (does not parse) and old/ChatGPT.py (an OpenAI call) are not part of this
  model.
- Alignment.MskToGmtText: requires a parsed instant to be in the fixed-offset era, because
  earlier Moscow offsets (UTC+4, summer time) are not modelled.
- Alignment.MskToGmtText: parses only the zero-padded form. `strptime` also accepts
  fields without leading zeros (`2025-1-2 3:04:05`); the model returns ValueError for them.
  The scripts only pass text they formatted with zero padding.
- Alignment.ExportMoscow: requires every trade date's 18:45 to fall in the fixed-offset
  era, for the same reason.
- Alignment.ExportMoscow: its contract states only when the run fails. What it writes is
  stated by `Alignment.MoscowExportIsRaw` and `Alignment.MoscowCurrentNote`.
- Alignment.RawNotes: its own contract states only how many notes there can be. The note
  written for each window and the stop at the first empty window are stated by the lemmas
  `Alignment.NoteOfWindow` and `Alignment.NotesStop`, so that each proof stays small.
- Alignment.ExportRaw: the same; its notes are those of `Alignment.RawNotes` over the
  sorted bars.
- Alignment.ExportText: the same; each file and the stop are stated by
  `Alignment.TextFileOfWindow` and `Alignment.TextFilesStop`.
- Alignment.ScanAll: the empty window that ends the loop is read but writes nothing. The
  model keeps only the written windows and states the stop condition separately.
- News between the two newest cutoffs goes to no dated file,
  because the newest bar is dropped before the scan. In save_md_file_news_02.py only
  news after the newest cutoff reaches `current.md`. The model states this gap but does
  not flag it, since the scripts may mean it.
- NewsTable.SaveSorted: pandas' default sort is not stable, so equal dates may be stored
  in any order. The contract states only the date order and the multiset of pairs.
- FuturesFetch.FillDays: a lookup error ends the model's loop with the error. In
  futures_scraper.py `main` logs it. In update_futures_RTS_day_rss.py it ends the script.
  The log is modelled as one outcome per requested day (the line it logs, or the
  exception it raised); the text of each line is not. The contract bounds the table afterwards: stored rows
  are kept, every new row is a bar written for a requested day, and every written bar's
  trade date is in the table. When two requested days write bars with the same trade
  date, it does not say which bar is kept; `add_tradedate_future` rejects the second.
- FuturesFetch.CoerceDate: models `to_datetime(errors='coerce')` on ISO `YYYY-MM-DD` text
  only. pandas also parses other layouts (`2025/01/02`, `20250102`, month names); the
  model gives NaT for them. The text it is given comes from MOEX as ISO dates or the
  fixed `"2130-01-01"`.
- Feeds.GetLinksScrapping: scrapping_rss_investing.py does not call
  `response.raise_for_status()`, while main_01.py and main_server_beget.py do. An HTTP
  error status is a failure (`[]`) for those two copies, but the scrapping copy parses the
  error page. The shared input `page: Result<Page>` cannot express an error page that still
  holds an `rssBox` list, which is the one case where the copies differ.
- FuturesFetch.ProcessDay: the model assumes MOEX's history reply has every column the
  scripts drop. update_futures_RTS_day_rss.py calls `df.drop([...], axis=1)` without
  `errors='ignore'`; if a column were missing it would raise KeyError after the bar is
  inserted and end the run. futures_scraper.py passes `errors='ignore'`. The model treats
  the two scripts' day step as one.
- FuturesFetch.RequestMoex: the default `retries=3` and the timeout are parameters of the
  caller. `retries <= 0` returns `None` without an attempt, as `range(retries)` is empty.

## Findings

| source | as written | input that shows it | evidently intended | confidence | as-written member | corrected member |
|---|---|---|---|---|---|---|
| futures_scraper.py:166-173 | On a non-empty table the newest bar is deleted and the fill starts the day after it, so this run never requests the deleted date. It is fetched again only if a later run's delete drops the maximum below it; until then its bar is missing. | A table with bars on 2025-01-09 and 2025-01-10: the 10th is deleted and the fill starts on 2025-01-11. | Delete the newest, possibly partial, bar and fetch its date again, as update_futures_RTS_day_rss.py does. | not executed; high | FuturesFetch.ScraperStartDropsNewest, FuturesFetch.RunScraper | FuturesFetch.ScraperStartRefetching, FuturesFetch.RunScraperRefetching |
| update_futures_RTS_day_rss.py:122-132 | After the newest row is deleted, the start is `strptime(get_max_date_futures(...))`. With one row in the table the max is now `None` and `strptime` raises TypeError. The only bar has already been deleted and committed, so the next run finds an empty table and restarts at 2025-01-01. | A table holding only 2025-01-10. | Fall back to the default start 2025-01-01 when the table became empty. | not executed; high | FuturesFetch.UpdateStart, FuturesFetch.RunUpdate, FuturesFetch.UpdateFailureRestartsAtDefault | FuturesFetch.UpdateStartFallback |
| scrapping_rss_investing.py:72-91 | `channel.find('title').text` is read without a check. A channel with no `<title>` raises AttributeError, which the `except` clauses for request and XML errors do not catch, so the whole call fails. | A good feed, then a feed whose `<channel>` has no `<title>` (`Feeds.UntitledChannelAborts`). | Use "" for an untitled channel, as main_01.py and main_server_beget.py do. | not executed; medium | Feeds.ParsingNews, Feeds.UntitledChannelAborts | Feeds.ParsingNewsChecked, Feeds.ParsingNewsCheckedAgrees |
