/** The two file formats the export scripts write for a window of news: a markdown note
    with a `next_bar` front matter and one bullet per title, and a tab-separated list of
    `date<TAB>title` lines. Each comes with a reader, and the round trip between them
    shows what the format preserves and where it stops doing so. */
module Rendering {
  import opened Base
  import opened Calendar
  import opened TimeText
  import opened NewsTable
  import opened TextLines

  /** A title as an f-string prints it: NULL prints as `None`. */
  function TitleText(title: Option<string>): string {
    match title
    case None => "None"
    case Some(t) => t
  }

  /** `str()` of the `date` column: the stored text, `None` for NULL. */
  function DateText(stamp: Option<DateTime>): string
    requires ValidStamp(stamp)
  {
    match stamp
    case None => "None"
    case Some(t) => FormatDateTime(t)
  }

  /** The title of every row, in query order. */
  function Titles(rows: seq<Row>): (r: seq<string>)
    ensures |r| == |rows|
    ensures forall i :: 0 <= i < |rows| ==> r[i] == TitleText(rows[i].title)
  {
    seq(|rows|, i requires 0 <= i < |rows| => TitleText(rows[i].title))
  }

  /** A title that fits on one line once printed. */
  predicate SingleLine(title: Option<string>) {
    '\n' !in TitleText(title)
  }

  // ---------------------------------------------------------------------------
  // Markdown (`save_titles_to_markdown`).

  /** The front matter written before the titles. */
  function Header(nextBar: string): string {
    "---\nnext_bar: " + nextBar + "\n---\n\n"
  }

  function BulletLines(titles: seq<string>): (r: seq<string>)
    ensures |r| == |titles|
    ensures forall i :: 0 <= i < |titles| ==> r[i] == "- " + titles[i]
  {
    seq(|titles|, i requires 0 <= i < |titles| => "- " + titles[i])
  }

  /** The whole note: the front matter, then one `- <title>` line per title, verbatim. */
  function Markdown(nextBar: string, titles: seq<string>): string {
    Header(nextBar) + Unlines(BulletLines(titles))
  }

  /** The note's lines: three front-matter lines, a blank line, then the bullets. */
  function MarkdownLines(nextBar: string, titles: seq<string>): seq<string> {
    ["---", "next_bar: " + nextBar, "---", ""] + BulletLines(titles)
  }

  /** The note is exactly its lines, each followed by a newline. */
  lemma MarkdownIsLines(nextBar: string, titles: seq<string>)
    ensures Markdown(nextBar, titles) == Unlines(MarkdownLines(nextBar, titles))
  {
    var front := ["---", "next_bar: " + nextBar, "---", ""];
    UnlinesAppend(front, BulletLines(titles));
    assert Unlines(front[3..]) == "\n";
    assert Unlines(front[2..]) == "---\n\n" by {
      assert front[2..][1..] == front[3..];
    }
    assert Unlines(front[1..]) == "next_bar: " + nextBar + "\n---\n\n" by {
      assert front[1..][1..] == front[2..];
    }
  }

  /** What a reader of the note recovers: the label and the titles. */
  datatype Note = Note(nextBar: string, titles: seq<string>)

  predicate StartsWith(s: string, prefix: string) {
    |prefix| <= |s| && s[..|prefix|] == prefix
  }

  /** Reads a note back: the front matter must be in place and every later line must be
      a bullet; `None` otherwise. */
  function ReadMarkdown(s: string): (r: Option<Note>)
    ensures r.Some? ==> |r.value.titles| == |Lines(s)| - 4
  {
    var ls := Lines(s);
    if |ls| >= 4 && ls[0] == "---" && StartsWith(ls[1], "next_bar: ") && ls[2] == "---" && ls[3] == ""
       && (forall i :: 4 <= i < |ls| ==> StartsWith(ls[i], "- "))
    then
      Some(Note(ls[1][10..], seq(|ls| - 4, i requires 0 <= i < |ls| - 4 => ls[i + 4][2..])))
    else None
  }

  /** A note whose label and titles each fit on one line reads back as written: the
      label, and every title in order. */
  lemma ReadMarkdownRoundTrip(nextBar: string, titles: seq<string>)
    requires '\n' !in nextBar
    requires forall i :: 0 <= i < |titles| ==> '\n' !in titles[i]
    ensures ReadMarkdown(Markdown(nextBar, titles)) == Some(Note(nextBar, titles))
  {
    var ls := MarkdownLines(nextBar, titles);
    forall i | 0 <= i < |ls|
      ensures '\n' !in ls[i]
    {
      if i >= 4 {
        assert ls[i] == "- " + titles[i - 4];
      }
    }
    MarkdownIsLines(nextBar, titles);
    LinesUnlines(ls);
    assert ls[1][10..] == nextBar;
    var bullets := BulletLines(titles);
    forall i | 4 <= i < |ls|
      ensures StartsWith(ls[i], "- ") && ls[i][2..] == titles[i - 4]
    {
      assert ls[i] == bullets[i - 4];
      BulletReadsBack(titles[i - 4]);
    }
    assert seq(|ls| - 4, i requires 0 <= i < |ls| - 4 => ls[i + 4][2..]) == titles;
  }

  /** A bullet line starts with `- ` and the rest of it is the title. */
  lemma BulletReadsBack(title: string)
    ensures StartsWith("- " + title, "- ") && ("- " + title)[2..] == title
  {
    assert ("- " + title)[..2] == "- ";
  }

  /** Titles are written without escaping: a title holding a newline followed by `- `
      is written exactly as two titles would be, and reads back as two. */
  lemma NewlineTitleSplits()
    ensures Markdown("up", ["a\n- b"]) == Markdown("up", ["a", "b"])
    ensures ReadMarkdown(Markdown("up", ["a\n- b"])) == Some(Note("up", ["a", "b"]))
  {
    var one, two := BulletLines(["a\n- b"]), BulletLines(["a", "b"]);
    assert one[0] == "- a\n- b" && one == [one[0]];
    assert two[0] == "- a" && two[1] == "- b" && two == [two[0], two[1]];
    assert Unlines(["- a\n- b"]) == "- a\n- b\n";
    assert Unlines(["- b"]) == "- b\n";
    assert Unlines(["- a", "- b"]) == "- a\n- b\n" by {
      assert ["- a", "- b"][1..] == ["- b"];
    }
    ReadMarkdownRoundTrip("up", ["a", "b"]);
  }

  // ---------------------------------------------------------------------------
  // Tab-separated lines (`save_titles_to_file`).

  /** The characters of a stored timestamp are digits and `-`, ` `, `:`. */
  lemma DateTextIsPlain(stamp: Option<DateTime>)
    requires ValidStamp(stamp)
    ensures '\t' !in DateText(stamp) && '\n' !in DateText(stamp)
  {
    if stamp.Some? {
      var t := stamp.value;
      var parts := [Pad4(t.date.year), Pad2(t.date.month), Pad2(t.date.day), Pad2(t.hour), Pad2(t.minute), Pad2(t.second)];
      assert '\t' !in Pad4(t.date.year) && '\n' !in Pad4(t.date.year) by {
        assert Pad4(t.date.year) == Pad2(t.date.year / 100) + Pad2(t.date.year % 100);
      }
    }
  }

  function TsvLine(r: Row): string
    requires ValidStamp(r.stamp)
  {
    DateText(r.stamp) + "\t" + TitleText(r.title)
  }

  function TsvLines(rows: seq<Row>): (r: seq<string>)
    requires forall i :: 0 <= i < |rows| ==> ValidStamp(rows[i].stamp)
    ensures |r| == |rows|
    ensures forall i :: 0 <= i < |rows| ==> r[i] == TsvLine(rows[i])
  {
    seq(|rows|, i requires 0 <= i < |rows| => TsvLine(rows[i]))
  }

  /** One `<date>\t<title>` line per row, in query order, with no header and no escaping. */
  function Tsv(rows: seq<Row>): string
    requires forall i :: 0 <= i < |rows| ==> ValidStamp(rows[i].stamp)
  {
    Unlines(TsvLines(rows))
  }

  /** One line as a reader splits it: at its first tab. */
  datatype Entry = Entry(date: string, title: string)

  /** Reads the lines back, splitting each at its first tab; `None` if a line has none. */
  function ReadTsv(s: string): (r: Option<seq<Entry>>)
    ensures r.Some? ==> |r.value| == |Lines(s)|
  {
    var ls := Lines(s);
    if forall i :: 0 <= i < |ls| ==> '\t' in ls[i] then
      Some(seq(|ls|, i requires 0 <= i < |ls| =>
        var k := FirstIndex(ls[i], '\t'); Entry(ls[i][..k], ls[i][k + 1..])))
    else None
  }

  /** The first tab of a line is the one after the date. */
  lemma SplitAfterDate(date: string, title: string)
    requires '\t' !in date
    ensures FirstIndex(date + "\t" + title, '\t') == |date|
    ensures (date + "\t" + title)[..|date|] == date
    ensures (date + "\t" + title)[|date| + 1..] == title
  {
    var s := date + "\t" + title;
    assert s[|date|] == '\t';
    assert forall j :: 0 <= j < |date| ==> s[j] == date[j];
  }

  /** The file has exactly one line per row, and each reads back as that row's date text
      and title, provided no title spans lines (a tab inside a title is harmless). */
  lemma ReadTsvRoundTrip(rows: seq<Row>)
    requires forall i :: 0 <= i < |rows| ==> ValidStamp(rows[i].stamp) && SingleLine(rows[i].title)
    ensures |Lines(Tsv(rows))| == |rows|
    ensures ReadTsv(Tsv(rows)) ==
      Some(seq(|rows|, i requires 0 <= i < |rows| => Entry(DateText(rows[i].stamp), TitleText(rows[i].title))))
  {
    var ls := TsvLines(rows);
    forall i | 0 <= i < |rows|
      ensures '\n' !in ls[i] && '\t' in ls[i]
      ensures FirstIndex(ls[i], '\t') == |DateText(rows[i].stamp)|
      ensures ls[i][..FirstIndex(ls[i], '\t')] == DateText(rows[i].stamp)
      ensures ls[i][FirstIndex(ls[i], '\t') + 1..] == TitleText(rows[i].title)
    {
      DateTextIsPlain(rows[i].stamp);
      SplitAfterDate(DateText(rows[i].stamp), TitleText(rows[i].title));
      assert ls[i][|DateText(rows[i].stamp)|] == '\t';
    }
    LinesUnlines(ls);
    assert Lines(Tsv(rows)) == ls;
    var got := seq(|ls|, i requires 0 <= i < |ls| =>
      var k := FirstIndex(ls[i], '\t'); Entry(ls[i][..k], ls[i][k + 1..]));
    assert got == seq(|rows|, i requires 0 <= i < |rows| => Entry(DateText(rows[i].stamp), TitleText(rows[i].title)));
  }
}
