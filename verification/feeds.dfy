/** Reading investing.com RSS feeds: the `.rss` link filter over the feed directory page,
    and the normalisation of RSS 2.0 items (title, pubDate, link) into news records, as
    main_server_beget.py, main_01.py and scrapping_rss_investing.py do it. The network
    and the XML parser are replaced by their results. */
module Feeds {
  import opened Base

  // ---------------------------------------------------------------------------
  // The feed directory page

  /** `s` ends with `suffix` (`str.endswith`). */
  predicate EndsWith(s: string, suffix: string) {
    |suffix| <= |s| && s[|s| - |suffix|..] == suffix
  }

  /** A `<li>` of the RSS list: its first `<a>`, if any, and that anchor's `href`, if any. */
  datatype ListItem = ListItem(anchor: Option<Option<string>>)

  /** What the page offers once the "Новости" heading, its column and the `ul.rssBox` list
      have been looked up; `None` when one of them is missing. */
  datatype Page = Page(rssBox: Option<seq<ListItem>>)

  /** The item carries an `href` ending in `.rss`. */
  predicate IsRssItem(li: ListItem) {
    li.anchor.Some? && li.anchor.value.Some? && EndsWith(li.anchor.value.value, ".rss")
  }

  /** The `.rss` hrefs of the list, in page order. */
  function RssHrefs(items: seq<ListItem>): (r: seq<string>)
    ensures forall k :: 0 <= k < |r| ==> EndsWith(r[k], ".rss")
    ensures forall h :: h in r <==> exists i :: 0 <= i < |items| && IsRssItem(items[i]) && items[i].anchor.value.value == h
    ensures |r| <= |items|
  {
    if |items| == 0 then []
    else
      var rest := RssHrefs(items[1..]);
      assert forall i :: 1 <= i < |items| ==> items[i] == items[1..][i - 1];
      assert forall h :: (exists i :: 1 <= i < |items| && IsRssItem(items[i]) && items[i].anchor.value.value == h) ==>
        h in rest by {
        forall h | exists i :: 1 <= i < |items| && IsRssItem(items[i]) && items[i].anchor.value.value == h
          ensures h in rest
        {
          var i :| 1 <= i < |items| && IsRssItem(items[i]) && items[i].anchor.value.value == h;
          assert items[1..][i - 1] == items[i];
        }
      }
      if IsRssItem(items[0]) then [items[0].anchor.value.value] + rest else rest
  }

  /** The filter runs item by item: the links of a longer list extend those of its prefix. */
  lemma {:induction false} RssHrefsAppend(a: seq<ListItem>, b: seq<ListItem>)
    ensures RssHrefs(a + b) == RssHrefs(a) + RssHrefs(b)
    decreases |a|
  {
    if |a| == 0 {
      assert a + b == b;
    } else {
      assert (a + b)[1..] == a[1..] + b;
      RssHrefsAppend(a[1..], b);
    }
  }

  /** `get_links` of main_server_beget.py and main_01.py: the `.rss` hrefs in page order;
      a request failure (`Err`) or a missing section gives `[]`. */
  function GetLinks(page: Result<Page>): (r: seq<string>)
    ensures page.Err? || page.value.rssBox.None? ==> r == []
    ensures page.Ok? && page.value.rssBox.Some? ==> r == RssHrefs(page.value.rssBox.value)
    ensures forall k :: 0 <= k < |r| ==> EndsWith(r[k], ".rss")
  {
    match page
    case Err(_) => []
    case Ok(p) =>
      match p.rssBox
      case None => []
      case Some(items) => RssHrefs(items)
  }

  /** `get_links` of scrapping_rss_investing.py: no `try`, so a request failure propagates;
      a missing section makes the function fall off its end and return `None`. Whenever it
      returns a list, that list is the other copies' result; every other outcome is one
      they turn into `[]`. */
  function GetLinksScrapping(page: Result<Page>): (r: Result<Option<seq<string>>>)
    ensures r.Err? <==> page.Err?
    ensures r.Ok? ==> (r.value.None? <==> page.value.rssBox.None?)
    ensures r.Ok? && r.value.Some? ==> r.value.value == GetLinks(page)
    ensures r != Ok(Some(GetLinks(page))) ==> GetLinks(page) == []
  {
    match page
    case Err(e) => Err(e)
    case Ok(p) =>
      match p.rssBox
      case None => Ok(None)
      case Some(items) => Ok(Some(RssHrefs(items)))
  }

  // ---------------------------------------------------------------------------
  // Items of one feed

  /** `parent.find(tag)`: `Absent` when there is no such child, else the child's `.text`,
      which ElementTree gives as `None` for an empty element. */
  datatype Element = Absent | Present(text: Option<string>)

  /** An RSS 2.0 `<item>` with the three children the scripts read. */
  datatype Item = Item(title: Element, pubDate: Element, link: Element)

  /** The parsed document: the first `<channel>` (`None` if there is none) with its
      `<title>` child, and every `<item>` in document order. */
  datatype Document = Document(channel: Option<Element>, items: seq<Item>)

  /** One feed request: the parsed document, or the exception on the way. */
  datatype Fetch = Fetched(doc: Document) | RequestFailed | ParseFailed

  /** One news record: `date`, `section`, `title`, `link`; `None` is a missing text. */
  datatype NewsItem = NewsItem(date: Option<string>, section: Option<string>, title: Option<string>, link: Option<string>)

  const NoTitle: string := "Нет заголовка"
  const NoPubDate: string := "Нет даты публикации"
  const NoLink: string := "Нет ссылки"

  /** A child's text, or the default when the child is missing. */
  function TextOr(e: Element, default: string): (r: Option<string>)
    ensures e.Absent? ==> r == Some(default)
    ensures e.Present? ==> r == e.text
  {
    match e
    case Absent => Some(default)
    case Present(t) => t
  }

  function NewsOf(section: Option<string>, item: Item): NewsItem {
    NewsItem(TextOr(item.pubDate, NoPubDate), section, TextOr(item.title, NoTitle), TextOr(item.link, NoLink))
  }

  /** Every item of the document, in order, with the fixed defaults for missing children. */
  function ItemsOf(section: Option<string>, items: seq<Item>): (r: seq<NewsItem>)
    ensures |r| == |items|
    ensures forall i :: 0 <= i < |items| ==> r[i].section == section
    ensures forall i :: 0 <= i < |items| ==>
      && (items[i].title.Absent? ==> r[i].title == Some(NoTitle))
      && (items[i].title.Present? ==> r[i].title == items[i].title.text)
      && (items[i].pubDate.Absent? ==> r[i].date == Some(NoPubDate))
      && (items[i].pubDate.Present? ==> r[i].date == items[i].pubDate.text)
      && (items[i].link.Absent? ==> r[i].link == Some(NoLink))
      && (items[i].link.Present? ==> r[i].link == items[i].link.text)
  {
    seq(|items|, i requires 0 <= i < |items| => NewsOf(section, items[i]))
  }

  /** The section name of main_server_beget.py and main_01.py: the channel title's text,
      or `""` when there is no channel or it has no title. */
  function ChannelName(channel: Option<Element>): (r: Option<string>)
    ensures channel.None? || channel.value.Absent? ==> r == Some("")
    ensures channel.Some? && channel.value.Present? ==> r == channel.value.text
  {
    match channel
    case None => Some("")
    case Some(Absent) => Some("")
    case Some(Present(t)) => t
  }

  /** `fetch_rss`: the items of one feed, or `[]` when anything on the way raised. */
  function FetchRss(f: Fetch): (r: seq<NewsItem>)
    ensures !f.Fetched? ==> r == []
    ensures f.Fetched? ==> r == ItemsOf(ChannelName(f.doc.channel), f.doc.items)
  {
    match f
    case Fetched(doc) => ItemsOf(ChannelName(doc.channel), doc.items)
    case _ => []
  }

  /** `async_parsing_news`: the per-feed lists flattened in the order of the links
      (`asyncio.gather` keeps the order of its arguments). */
  function MergeFeeds(fs: seq<Fetch>): (r: seq<NewsItem>)
    ensures |r| == FetchedItemCount(fs)
  {
    if |fs| == 0 then [] else FetchRss(fs[0]) + MergeFeeds(fs[1..])
  }

  /** The number of items in the feeds that were fetched. */
  function FetchedItemCount(fs: seq<Fetch>): nat {
    if |fs| == 0 then 0
    else (if fs[0].Fetched? then |fs[0].doc.items| else 0) + FetchedItemCount(fs[1..])
  }

  /** Merging is concatenation: merging two runs of feeds joins their news. */
  lemma {:induction false} MergeFeedsAppend(a: seq<Fetch>, b: seq<Fetch>)
    ensures MergeFeeds(a + b) == MergeFeeds(a) + MergeFeeds(b)
    decreases |a|
  {
    if |a| == 0 {
      assert a + b == b;
    } else {
      assert (a + b)[1..] == a[1..] + b;
      MergeFeedsAppend(a[1..], b);
    }
  }

  /** A failing feed contributes nothing, and the others still contribute. */
  lemma FailedFeedContributesNothing(a: seq<Fetch>, f: Fetch, b: seq<Fetch>)
    requires !f.Fetched?
    ensures MergeFeeds(a + [f] + b) == MergeFeeds(a + b)
  {
    assert a + [f] + b == a + ([f] + b);
    assert ([f] + b)[1..] == b;
    MergeFeedsAppend(a, [f] + b);
    MergeFeedsAppend(a, b);
  }

  // ---------------------------------------------------------------------------
  // parsing_news of scrapping_rss_investing.py

  /** The channel title there is read without a check: a channel with no `<title>` raises
      AttributeError, which the `except` clauses (request and XML errors only) let through. */
  function ChannelNameUnchecked(channel: Option<Element>): (r: Result<Option<string>>)
    ensures r.Err? <==> channel == Some(Absent)
    ensures r.Ok? ==> r.value == ChannelName(channel)
  {
    match channel
    case None => Ok(Some(""))
    case Some(Absent) => Err("AttributeError: 'NoneType' object has no attribute 'text'")
    case Some(Present(t)) => Ok(t)
  }

  /** A fetched feed whose channel lacks a title. */
  predicate Untitled(f: Fetch) {
    f.Fetched? && f.doc.channel == Some(Absent)
  }

  /** `parsing_news` as written: feeds are read in order; a request or XML error skips the
      feed; an untitled channel aborts the whole call. */
  function ParsingNews(fs: seq<Fetch>): (r: Result<seq<NewsItem>>)
    ensures r.Err? <==> exists i :: 0 <= i < |fs| && Untitled(fs[i])
  {
    if |fs| == 0 then Ok([])
    else
      assert forall i :: 1 <= i < |fs| ==> fs[i] == fs[1..][i - 1];
      assert (exists i :: 1 <= i < |fs| && Untitled(fs[i])) ==> exists i :: 0 <= i < |fs[1..]| && Untitled(fs[1..][i]) by {
        if exists i :: 1 <= i < |fs| && Untitled(fs[i]) {
          var i :| 1 <= i < |fs| && Untitled(fs[i]);
          assert Untitled(fs[1..][i - 1]);
        }
      }
      match fs[0]
      case Fetched(doc) =>
        (match ChannelNameUnchecked(doc.channel)
         case Err(e) => Err(e)
         case Ok(name) =>
           match ParsingNews(fs[1..])
           case Err(e) => Err(e)
           case Ok(rest) => Ok(ItemsOf(name, doc.items) + rest))
      case _ => ParsingNews(fs[1..])
  }

  /** Whenever the scrapping copy succeeds it yields exactly the merged news of the server
      copies. */
  lemma {:induction false} ParsingNewsAgrees(fs: seq<Fetch>)
    requires ParsingNews(fs).Ok?
    ensures ParsingNews(fs).value == MergeFeeds(fs)
    decreases |fs|
  {
    if |fs| > 0 {
      ParsingNewsAgrees(fs[1..]);
    }
  }

  /** The title-less channel that stops the whole run, next to a good feed. */
  lemma UntitledChannelAborts()
    ensures var good := Fetched(Document(Some(Present(Some("Новости"))), [Item(Present(Some("t")), Absent, Absent)]));
      var bad := Fetched(Document(Some(Absent), []));
      && ParsingNews([good, bad]).Err?
      && MergeFeeds([good, bad]) == [NewsItem(Some(NoPubDate), Some("Новости"), Some("t"), Some(NoLink))]
  {
    var good := Fetched(Document(Some(Present(Some("Новости"))), [Item(Present(Some("t")), Absent, Absent)]));
    var bad := Fetched(Document(Some(Absent), []));
    assert Untitled([good, bad][1]);
    assert MergeFeeds([good, bad]) == FetchRss(good) + MergeFeeds([bad]);
    assert MergeFeeds([bad]) == FetchRss(bad) + MergeFeeds([]);
  }

  /** `parsing_news` with the channel title checked as the other copies do: a title-less
      channel gives the section `""` and the feed's items are kept. */
  function ParsingNewsChecked(fs: seq<Fetch>): (r: seq<NewsItem>)
    ensures |r| == FetchedItemCount(fs)
  {
    if |fs| == 0 then []
    else
      match fs[0]
      case Fetched(doc) => ItemsOf(ChannelName(doc.channel), doc.items) + ParsingNewsChecked(fs[1..])
      case _ => ParsingNewsChecked(fs[1..])
  }

  /** The checked loop never fails, matches the server copies on every input, and matches
      the copy as written wherever that one succeeds. */
  lemma {:induction false} ParsingNewsCheckedAgrees(fs: seq<Fetch>)
    ensures ParsingNewsChecked(fs) == MergeFeeds(fs)
    ensures ParsingNews(fs).Ok? ==> ParsingNews(fs).value == ParsingNewsChecked(fs)
    decreases |fs|
  {
    if |fs| > 0 {
      ParsingNewsCheckedAgrees(fs[1..]);
      if ParsingNews(fs).Ok? {
        ParsingNewsAgrees(fs);
      }
    }
  }
}
