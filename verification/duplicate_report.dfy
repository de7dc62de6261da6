/** dublicates_db_search.py: the report of (day, title) groups that occur more than once. */
module DuplicateReport {
  import opened Base
  import opened NewsTable
  import opened Dedup

  /** One result row: `(news_date, title, duplicate_count)`. */
  datatype Group = Group(key: DayKey, count: nat)

  /** `COUNT(*)` of a (day, title) group. */
  function Occurrences(t: seq<Row>, k: DayKey): nat {
    multiset(DayKeys(t))[k]
  }

  /** The groups among the keys `d` whose count in `t` exceeds one, in the order of `d`. */
  function GroupsOver(t: seq<Row>, d: seq<DayKey>): (r: seq<Group>)
    ensures forall g :: g in r <==> g.key in d && g.count == Occurrences(t, g.key) && g.count > 1
  {
    if |d| == 0 then []
    else
      var init := d[..|d| - 1];
      var k := d[|d| - 1];
      assert forall y :: y in d <==> y in init || y == k by {
        assert d == init + [k];
      }
      GroupsOver(t, init) + (if Occurrences(t, k) > 1 then [Group(k, Occurrences(t, k))] else [])
  }

  /** `SELECT DATE(date) AS news_date, title, COUNT(*) AS duplicate_count FROM news
      GROUP BY news_date, title HAVING duplicate_count > 1`: exactly the keys of the table
      that occur more than once, each with its count, each key once. SQL leaves the
      order of the groups open; the model lists them by first appearance. */
  function DuplicateGroups(t: seq<Row>): (r: seq<Group>)
    ensures forall g :: g in r <==> g.key in DayKeys(t) && g.count == Occurrences(t, g.key) && g.count > 1
    ensures forall g :: g in r ==> g.count >= 2
    ensures forall i, j :: 0 <= i < j < |r| ==> r[i].key != r[j].key
  {
    var d := Distinct(DayKeys(t));
    GroupsOverKeysDistinct(t, d);
    GroupsOver(t, d)
  }

  lemma {:induction false} GroupsOverKeysDistinct(t: seq<Row>, d: seq<DayKey>)
    requires NoDuplicates(d)
    ensures forall i, j :: 0 <= i < j < |GroupsOver(t, d)| ==> GroupsOver(t, d)[i].key != GroupsOver(t, d)[j].key
    decreases |d|
  {
    if |d| > 0 {
      var init := d[..|d| - 1];
      var k := d[|d| - 1];
      GroupsOverKeysDistinct(t, init);
      assert d == init + [k];
      var r := GroupsOver(t, d);
      var p := GroupsOver(t, init);
      assert r[..|p|] == p;
      forall i, j | 0 <= i < j < |r|
        ensures r[i].key != r[j].key
      {
        if j >= |p| {
          assert r[j].key == k;
          assert r[i] == p[i] && r[i] in p;
          assert r[i].key in init;
          assert k !in init by {
            forall m | 0 <= m < |init|
              ensures init[m] != k
            {
              assert init[m] == d[m];
            }
          }
        } else {
          assert r[i] == p[i] && r[j] == p[j];
        }
      }
    }
  }

  /** When no key of `d` repeats in `t`, no group is reported. */
  lemma {:induction false} GroupsOverNone(t: seq<Row>, d: seq<DayKey>)
    requires forall k :: k in d ==> Occurrences(t, k) <= 1
    ensures GroupsOver(t, d) == []
    decreases |d|
  {
    if |d| > 0 {
      assert d == d[..|d| - 1] + [d[|d| - 1]];
      GroupsOverNone(t, d[..|d| - 1]);
    }
  }

  /** What the script prints first. */
  datatype Verdict = Found(groups: seq<Group>) | NoDuplicatesFound

  /** The query and the `if results:` test: the groups when there are any, and "none"
      exactly when every (day, title) key of the table is unique. */
  function Search(t: seq<Row>): (v: Verdict)
    ensures v.Found? ==> v.groups == DuplicateGroups(t) && v.groups != []
    ensures v.NoDuplicatesFound? <==> NoDuplicates(DayKeys(t))
  {
    NoGroupsIffUnique(t);
    var groups := DuplicateGroups(t);
    if |groups| > 0 then Found(groups) else NoDuplicatesFound
  }

  /** The first line printed: "Дубликатов не обнаружено." exactly when nothing was found. */
  function Headline(v: Verdict): (s: string)
    ensures s == "Дубликатов не обнаружено." <==> v.NoDuplicatesFound?
  {
    match v
    case Found(_) => "Обнаружены дубликаты:"
    case NoDuplicatesFound => "Дубликатов не обнаружено."
  }

  /** No group is reported exactly when every (day, title) key is unique. */
  lemma NoGroupsIffUnique(t: seq<Row>)
    ensures DuplicateGroups(t) == [] <==> NoDuplicates(DayKeys(t))
  {
    var ks := DayKeys(t);
    if NoDuplicates(ks) {
      var d := Distinct(ks);
      forall k | k in d
        ensures Occurrences(t, k) <= 1
      {
        NoDuplicatesMultiplicity(ks, k);
      }
      GroupsOverNone(t, d);
    } else {
      var i, j :| 0 <= i < j < |ks| && ks[i] == ks[j];
      RepeatedMultiplicity(ks, i, j);
      assert Group(ks[i], Occurrences(t, ks[i])) in DuplicateGroups(t);
    }
  }

  /** After the day purge of dublicates_db_delete.py the search reports nothing. */
  lemma NoGroupsAfterPurge(t: seq<Row>)
    requires WellFormed(t)
    ensures DuplicateGroups(PurgeByDay(t)) == []
  {
    var r := PurgeByDay(t);
    PurgeByDayOnePerKey(t);
    assert NoDuplicates(DayKeys(r));
    NoGroupsIffUnique(r);
  }

  /** The surplus rows of the reported groups. */
  function Surplus(gs: seq<Group>): int {
    if |gs| == 0 then 0 else Surplus(gs[..|gs| - 1]) + gs[|gs| - 1].count - 1
  }

  lemma {:induction false} SurplusAppend(a: seq<Group>, b: seq<Group>)
    ensures Surplus(a + b) == Surplus(a) + Surplus(b)
    decreases |b|
  {
    if |b| > 0 {
      SurplusAppend(a, b[..|b| - 1]);
      assert (a + b)[..|a + b| - 1] == a + b[..|b| - 1];
    } else {
      assert a + b == a;
    }
  }

  /** Over keys that all occur, the surplus of the reported groups is the total count
      minus the number of keys: groups of one add nothing. */
  lemma {:induction false} SurplusOverKeys(t: seq<Row>, d: seq<DayKey>)
    requires forall k :: k in d ==> k in DayKeys(t)
    ensures Surplus(GroupsOver(t, d)) == SumOccurrences(DayKeys(t), d) - |d|
    decreases |d|
  {
    if |d| > 0 {
      var init := d[..|d| - 1];
      var k := d[|d| - 1];
      assert d == init + [k];
      SurplusOverKeys(t, init);
      var tail := if Occurrences(t, k) > 1 then [Group(k, Occurrences(t, k))] else [];
      SurplusAppend(GroupsOver(t, init), tail);
      assert tail != [] ==> tail[..0] == [];
      assert k in d && k in DayKeys(t);
      assert k in multiset(DayKeys(t));
    }
  }

  /** The counts of the reported groups, less one each, add up to the number of rows the
      day purge deletes. */
  lemma SurplusIsPurged(t: seq<Row>)
    requires WellFormed(t)
    ensures Surplus(DuplicateGroups(t)) == |t| - |PurgeByDay(t)|
  {
    var ks := DayKeys(t);
    SurplusOverKeys(t, Distinct(ks));
    OccurrencesOfDistinct(ks);
    PurgeByDayCount(t);
  }
}
