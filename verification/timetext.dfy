/** The fixed-width text form `YYYY-MM-DD HH:MM:SS` in which the scripts store and
    compare timestamps, and the proof that comparing that text compares the instants. */
module TimeText {
  import opened Base
  import opened Calendar

  predicate IsDigit(c: char) {
    '0' <= c <= '9'
  }

  function DigitChar(n: int): (c: char)
    requires 0 <= n <= 9
    ensures IsDigit(c)
  {
    ('0' as int + n) as char
  }

  function DigitValue(c: char): (n: int)
    requires IsDigit(c)
    ensures 0 <= n <= 9 && DigitChar(n) == c
  {
    c as int - '0' as int
  }

  /** Zero-padded two-digit field, as `%m`, `%d`, `%H`, `%M`, `%S` print. */
  function Pad2(n: int): (s: string)
    requires 0 <= n <= 99
    ensures |s| == 2 && IsDigit(s[0]) && IsDigit(s[1])
  {
    [DigitChar(n / 10), DigitChar(n % 10)]
  }

  /** Zero-padded four-digit field, as `%Y` prints. */
  function Pad4(n: int): (s: string)
    requires 0 <= n <= 9999
    ensures |s| == 4
  {
    Pad2(n / 100) + Pad2(n % 100)
  }

  predicate AllDigits(s: string) {
    forall i :: 0 <= i < |s| ==> IsDigit(s[i])
  }

  function Value2(s: string): (n: int)
    requires |s| == 2 && AllDigits(s)
    ensures 0 <= n <= 99 && Pad2(n) == s
  {
    10 * DigitValue(s[0]) + DigitValue(s[1])
  }

  function Value4(s: string): (n: int)
    requires |s| == 4 && AllDigits(s)
    ensures 0 <= n <= 9999 && Pad4(n) == s
  {
    var hi := Value2(s[..2]);
    var lo := Value2(s[2..]);
    assert s == s[..2] + s[2..];
    Pad4Split(hi, lo);
    100 * hi + lo
  }

  /** The high and low halves of a four-digit field are its two two-digit fields. */
  lemma Pad4Split(hi: int, lo: int)
    requires 0 <= hi <= 99 && 0 <= lo <= 99
    ensures Pad4(100 * hi + lo) == Pad2(hi) + Pad2(lo)
  {
    assert (100 * hi + lo) / 100 == hi;
    assert (100 * hi + lo) % 100 == lo;
  }

  /** `strftime("%Y-%m-%d")`. */
  function FormatDate(d: Date): (s: string)
    requires ValidDate(d)
    ensures |s| == 10
  {
    Pad4(d.year) + ("-" + (Pad2(d.month) + ("-" + Pad2(d.day))))
  }

  function FormatTime(hour: int, minute: int, second: int): (s: string)
    requires 0 <= hour < 24 && 0 <= minute < 60 && 0 <= second < 60
    ensures |s| == 8
  {
    Pad2(hour) + (":" + (Pad2(minute) + (":" + Pad2(second))))
  }

  /** `strftime("%Y-%m-%d %H:%M:%S")`. */
  function FormatDateTime(t: DateTime): (s: string)
    requires ValidDateTime(t)
    ensures |s| == 19
  {
    FormatDate(t.date) + (" " + FormatTime(t.hour, t.minute, t.second))
  }

  /** `datetime.strptime(s, "%Y-%m-%d").date()` on the zero-padded form; `None` where
      Python raises ValueError. */
  function ParseDate(s: string): (r: Option<Date>)
    ensures r.Some? ==> ValidDate(r.value) && FormatDate(r.value) == s
  {
    if |s| == 10 && s[4] == '-' && s[7] == '-'
       && AllDigits(s[..4]) && AllDigits(s[5..7]) && AllDigits(s[8..]) then
      var d := Date(Value4(s[..4]), Value2(s[5..7]), Value2(s[8..]));
      if ValidDate(d) then
        assert s == s[..4] + ("-" + (s[5..7] + ("-" + s[8..])));
        Some(d)
      else None
    else None
  }

  /** `datetime.strptime(s, "%Y-%m-%d %H:%M:%S")` on the zero-padded form. */
  function ParseDateTime(s: string): (r: Option<DateTime>)
    ensures r.Some? ==> ValidDateTime(r.value) && FormatDateTime(r.value) == s
  {
    if |s| == 19 && s[10] == ' ' && s[13] == ':' && s[16] == ':'
       && AllDigits(s[11..13]) && AllDigits(s[14..16]) && AllDigits(s[17..]) then
      match ParseDate(s[..10])
      case None => None
      case Some(d) =>
        var t := DateTime(d, Value2(s[11..13]), Value2(s[14..16]), Value2(s[17..]));
        if ValidDateTime(t) then
          assert s == s[..10] + (" " + (s[11..13] + (":" + (s[14..16] + (":" + s[17..])))));
          Some(t)
        else None
    else None
  }

  lemma FormatDateParses(d: Date)
    requires ValidDate(d)
    ensures ParseDate(FormatDate(d)) == Some(d)
  {
    var s := FormatDate(d);
    assert s[..4] == Pad4(d.year);
    assert s[5..7] == Pad2(d.month);
    assert s[8..] == Pad2(d.day);
    Pad4Injective(Value4(s[..4]), d.year);
    Pad2Injective(Value2(s[5..7]), d.month);
    Pad2Injective(Value2(s[8..]), d.day);
  }

  /** Text the parser rejects is the format of no date. */
  lemma ParseDateComplete(s: string)
    requires ParseDate(s).None?
    ensures forall d :: ValidDate(d) ==> s != FormatDate(d)
  {
    forall d | ValidDate(d)
      ensures s != FormatDate(d)
    {
      FormatDateParses(d);
    }
  }

  /** Formatting then parsing gives back the same date-time. */
  lemma FormatDateTimeParses(t: DateTime)
    requires ValidDateTime(t)
    ensures ParseDateTime(FormatDateTime(t)) == Some(t)
  {
    var s := FormatDateTime(t);
    assert s[..10] == FormatDate(t.date);
    FormatDateParses(t.date);
    assert s[11..13] == Pad2(t.hour);
    assert s[14..16] == Pad2(t.minute);
    assert s[17..] == Pad2(t.second);
    Pad2Injective(Value2(s[11..13]), t.hour);
    Pad2Injective(Value2(s[14..16]), t.minute);
    Pad2Injective(Value2(s[17..]), t.second);
  }

  // ---------------------------------------------------------------------------
  // Text order.

  /** Text order as SQLite's default BINARY collation and Python's `<` on `str`
      compare: code point by code point, a proper prefix first. */
  predicate LexLess(a: string, b: string)
    decreases |a|
  {
    if |a| == 0 then |b| > 0
    else if |b| == 0 then false
    else a[0] < b[0] || (a[0] == b[0] && LexLess(a[1..], b[1..]))
  }

  lemma {:induction false} LexLessIrreflexive(a: string)
    ensures !LexLess(a, a)
    decreases |a|
  {
    if |a| > 0 {
      LexLessIrreflexive(a[1..]);
    }
  }

  /** Comparing two texts made of equal-width heads compares the heads first. */
  lemma {:induction false} LexLessConcat(x1: string, y1: string, x2: string, y2: string)
    requires |x1| == |x2|
    ensures LexLess(x1 + y1, x2 + y2) <==> LexLess(x1, x2) || (x1 == x2 && LexLess(y1, y2))
    decreases |x1|
  {
    if |x1| == 0 {
      assert x1 + y1 == y1 && x2 + y2 == y2;
      assert x1 == x2;
    } else {
      assert (x1 + y1)[0] == x1[0] && (x2 + y2)[0] == x2[0];
      assert (x1 + y1)[1..] == x1[1..] + y1;
      assert (x2 + y2)[1..] == x2[1..] + y2;
      LexLessConcat(x1[1..], y1, x2[1..], y2);
      assert x1 == [x1[0]] + x1[1..] && x2 == [x2[0]] + x2[1..];
    }
  }

  lemma Pad2Order(a: int, b: int)
    requires 0 <= a <= 99 && 0 <= b <= 99
    ensures LexLess(Pad2(a), Pad2(b)) <==> a < b
  {
    var x, y := Pad2(a), Pad2(b);
    assert x[1..] == [x[1]] && y[1..] == [y[1]];
    assert [x[1]][1..] == [] && [y[1]][1..] == [];
    assert a == 10 * (a / 10) + a % 10 && 0 <= a % 10 < 10;
    assert b == 10 * (b / 10) + b % 10 && 0 <= b % 10 < 10;
    assert x[0] < y[0] <==> a / 10 < b / 10;
    assert x[1] < y[1] <==> a % 10 < b % 10;
    assert LexLess(x[1..], y[1..]) <==> x[1] < y[1];
    assert LexLess(x, y) <==> x[0] < y[0] || (x[0] == y[0] && x[1] < y[1]);
  }

  lemma Pad2Injective(a: int, b: int)
    requires 0 <= a <= 99 && 0 <= b <= 99
    ensures Pad2(a) == Pad2(b) <==> a == b
  {
    if Pad2(a) == Pad2(b) {
      LexLessIrreflexive(Pad2(a));
      Pad2Order(a, b);
      Pad2Order(b, a);
    }
  }

  lemma Pad4Order(a: int, b: int)
    requires 0 <= a <= 9999 && 0 <= b <= 9999
    ensures LexLess(Pad4(a), Pad4(b)) <==> a < b
  {
    LexLessConcat(Pad2(a / 100), Pad2(a % 100), Pad2(b / 100), Pad2(b % 100));
    Pad2Order(a / 100, b / 100);
    Pad2Injective(a / 100, b / 100);
    Pad2Order(a % 100, b % 100);
  }

  lemma Pad4Injective(a: int, b: int)
    requires 0 <= a <= 9999 && 0 <= b <= 9999
    ensures Pad4(a) == Pad4(b) <==> a == b
  {
    if Pad4(a) == Pad4(b) {
      LexLessIrreflexive(Pad4(a));
      Pad4Order(a, b);
      Pad4Order(b, a);
    }
  }

  /** A separator followed by equal-width fields compares as the fields do. */
  lemma SeparatedOrder(sep: string, x1: string, y1: string, x2: string, y2: string)
    requires |x1| == |x2|
    ensures LexLess(sep + (x1 + y1), sep + (x2 + y2)) <==> LexLess(x1, x2) || (x1 == x2 && LexLess(y1, y2))
    ensures sep + (x1 + y1) == sep + (x2 + y2) <==> x1 + y1 == x2 + y2
  {
    LexLessIrreflexive(sep);
    LexLessConcat(sep, x1 + y1, sep, x2 + y2);
    LexLessConcat(x1, y1, x2, y2);
    if sep + (x1 + y1) == sep + (x2 + y2) {
      assert x1 + y1 == (sep + (x1 + y1))[|sep|..];
    }
  }

  lemma TimeOrder(h1: int, m1: int, s1: int, h2: int, m2: int, s2: int)
    requires 0 <= h1 < 24 && 0 <= m1 < 60 && 0 <= s1 < 60
    requires 0 <= h2 < 24 && 0 <= m2 < 60 && 0 <= s2 < 60
    ensures LexLess(FormatTime(h1, m1, s1), FormatTime(h2, m2, s2)) <==>
      h1 < h2 || (h1 == h2 && m1 < m2) || (h1 == h2 && m1 == m2 && s1 < s2)
  {
    var tail1 := ":" + Pad2(s1);
    var tail2 := ":" + Pad2(s2);
    SeparatedOrder(":", Pad2(s1), [], Pad2(s2), []);
    assert Pad2(s1) + [] == Pad2(s1) && Pad2(s2) + [] == Pad2(s2);
    LexLessIrreflexive([]);
    Pad2Order(s1, s2);
    Pad2Injective(s1, s2);
    SeparatedOrder(":", Pad2(m1), tail1, Pad2(m2), tail2);
    Pad2Order(m1, m2);
    Pad2Injective(m1, m2);
    LexLessConcat(Pad2(h1), ":" + (Pad2(m1) + tail1), Pad2(h2), ":" + (Pad2(m2) + tail2));
    Pad2Order(h1, h2);
    Pad2Injective(h1, h2);
  }

  /** Comparing `%Y-%m-%d` texts compares the dates. */
  lemma FormatDateOrder(a: Date, b: Date)
    requires ValidDate(a) && ValidDate(b)
    ensures LexLess(FormatDate(a), FormatDate(b)) <==> DateLess(a, b)
    ensures FormatDate(a) == FormatDate(b) <==> a == b
  {
    var dayA, dayB := "-" + Pad2(a.day), "-" + Pad2(b.day);
    SeparatedOrder("-", Pad2(a.day), [], Pad2(b.day), []);
    assert Pad2(a.day) + [] == Pad2(a.day) && Pad2(b.day) + [] == Pad2(b.day);
    LexLessIrreflexive([]);
    Pad2Order(a.day, b.day);
    Pad2Injective(a.day, b.day);
    SeparatedOrder("-", Pad2(a.month), dayA, Pad2(b.month), dayB);
    Pad2Order(a.month, b.month);
    Pad2Injective(a.month, b.month);
    LexLessConcat(Pad4(a.year), "-" + (Pad2(a.month) + dayA), Pad4(b.year), "-" + (Pad2(b.month) + dayB));
    Pad4Order(a.year, b.year);
    Pad4Injective(a.year, b.year);
    FormatDateParses(a);
    FormatDateParses(b);
  }

  /** Comparing `%Y-%m-%d %H:%M:%S` texts compares the instants: the SQL text
      comparisons of the scripts are chronological comparisons. */
  lemma FormatDateTimeOrder(a: DateTime, b: DateTime)
    requires ValidDateTime(a) && ValidDateTime(b)
    ensures LexLess(FormatDateTime(a), FormatDateTime(b)) <==> DateTimeLess(a, b)
    ensures FormatDateTime(a) == FormatDateTime(b) <==> a == b
  {
    var ta, tb := FormatTime(a.hour, a.minute, a.second), FormatTime(b.hour, b.minute, b.second);
    TimeOrder(a.hour, a.minute, a.second, b.hour, b.minute, b.second);
    LexLessIrreflexive(" ");
    LexLessConcat(" ", ta, " ", tb);
    if " " + ta == " " + tb {
      assert ta == (" " + ta)[1..];
    }
    FormatDateOrder(a.date, b.date);
    LexLessConcat(FormatDate(a.date), " " + ta, FormatDate(b.date), " " + tb);
    FormatDateTimeParses(a);
    FormatDateTimeParses(b);
  }
}
