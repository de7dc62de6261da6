/** Newline-terminated text, as the export scripts write it with one `file.write(... "\n")`
    per line, and the reading back of such text line by line. */
module TextLines {

  /** Each line followed by `"\n"`, concatenated. */
  function Unlines(ls: seq<string>): string {
    if |ls| == 0 then "" else ls[0] + "\n" + Unlines(ls[1..])
  }

  /** The position of the first `c` in `s`, or `|s|` when there is none. */
  function FirstIndex(s: string, c: char): (k: nat)
    ensures k <= |s|
    ensures k < |s| ==> s[k] == c
    ensures forall j :: 0 <= j < k ==> s[j] != c
  {
    if |s| == 0 then 0
    else if s[0] == c then 0
    else 1 + FirstIndex(s[1..], c)
  }

  /** `s` cut at every `"\n"`; an unterminated last piece is a line of its own. */
  function Lines(s: string): (r: seq<string>)
    ensures forall l :: l in r ==> '\n' !in l
    decreases |s|
  {
    if |s| == 0 then []
    else
      var k := FirstIndex(s, '\n');
      if k == |s| then [s]
      else [s[..k]] + Lines(s[k + 1..])
  }

  /** The first newline of `l + "\n" + rest` is the one written after `l`. */
  lemma FirstNewlineAfter(l: string, rest: string)
    requires '\n' !in l
    ensures FirstIndex(l + "\n" + rest, '\n') == |l|
    ensures (l + "\n" + rest)[..|l|] == l
    ensures (l + "\n" + rest)[|l| + 1..] == rest
  {
    var s := l + "\n" + rest;
    var k := FirstIndex(s, '\n');
    assert s[|l|] == '\n';
    assert forall j :: 0 <= j < |l| ==> s[j] == l[j];
  }

  /** Reading back what was written line by line gives the same lines, as long as no
      line holds a newline of its own. */
  lemma {:induction false} LinesUnlines(ls: seq<string>)
    requires forall i :: 0 <= i < |ls| ==> '\n' !in ls[i]
    ensures Lines(Unlines(ls)) == ls
    decreases |ls|
  {
    if |ls| > 0 {
      LinesUnlines(ls[1..]);
      LinesAfterFirst(ls[0], Unlines(ls[1..]));
    }
  }

  /** The first line read from `l + "\n" + rest` is `l`, and the others are those of `rest`. */
  lemma LinesAfterFirst(l: string, rest: string)
    requires '\n' !in l
    ensures Lines(l + "\n" + rest) == [l] + Lines(rest)
  {
    FirstNewlineAfter(l, rest);
  }

  /** Writing back the lines of a newline-terminated text gives the text. */
  lemma {:induction false} UnlinesLines(s: string)
    requires |s| == 0 || s[|s| - 1] == '\n'
    ensures Unlines(Lines(s)) == s
    decreases |s|
  {
    if |s| > 0 {
      var k := FirstIndex(s, '\n');
      assert k < |s|;
      var rest := s[k + 1..];
      assert |rest| == 0 || rest[|rest| - 1] == '\n';
      UnlinesLines(rest);
      var ls := Lines(s);
      assert ls == [s[..k]] + Lines(rest);
      assert ls[0] == s[..k] && ls[1..] == Lines(rest);
      SplitAt(s, k);
    }
  }

  /** A text is the part before position `k`, the character at `k`, and the rest. */
  lemma SplitAt(s: string, k: nat)
    requires k < |s|
    ensures s == s[..k] + [s[k]] + s[k + 1..]
  {
  }

  /** Joining two runs of lines writes one text after the other. */
  lemma {:induction false} UnlinesAppend(a: seq<string>, b: seq<string>)
    ensures Unlines(a + b) == Unlines(a) + Unlines(b)
    decreases |a|
  {
    if |a| > 0 {
      UnlinesAppend(a[1..], b);
      assert (a + b)[0] == a[0] && (a + b)[1..] == a[1..] + b;
    } else {
      assert a + b == b;
    }
  }
}
