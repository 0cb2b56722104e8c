/**
 * The monthly and category summaries: per-key totals accumulated into a
 * dictionary whose missing keys read as 0, then listed in ascending key order.
 */
module Summaries {
  import opened Wrappers
  import opened Text
  import opened Rows

  datatype GroupBy = ByMonth | ByCategory

  /** `date[:7]`: the `YYYY-MM` prefix, or the whole cell when it is shorter. */
  function MonthOf(date: string): (m: string)
    ensures m <= date && |m| == if |date| < 7 then |date| else 7
  {
    date[..if |date| < 7 then |date| else 7]
  }

  /**
   * The key a row is grouped under, or None when indexing it raises:
   * `row[0][:7]` for months, `row[1].lower()` for categories.
   */
  function GroupKey(group: GroupBy, row: Row): Option<string>
  {
    match group
    case ByMonth => if |row| >= 1 then Some(MonthOf(row[0])) else None
    case ByCategory => if |row| >= 2 then Some(LowerStr(row[1])) else None
  }

  /**
   * One step of the loop: `summary[key] += float(row[2])`.  The subscript
   * is evaluated before the amount, so a row with a key opens its entry at
   * 0 even when its amount then fails.
   */
  function Accumulate(m: map<string, int>, group: GroupBy, row: Row): map<string, int>
  {
    match GroupKey(group, row)
    case None => m
    case Some(k) =>
      var current := if k in m then m[k] else 0;
      match RowAmount(row)
      case Some(a) => m[k := current + a]
      case None => m[k := current]
  }

  /** The dictionary after reading `rows`. */
  function Summary(group: GroupBy, rows: seq<Row>): map<string, int>
    decreases |rows|
  {
    if rows == [] then map[] else Accumulate(Summary(group, rows[..|rows| - 1]), group, rows[|rows| - 1])
  }

  /** Some row is grouped under `k`. */
  predicate HasKey(group: GroupBy, rows: seq<Row>, k: string)
  {
    exists i :: 0 <= i < |rows| && GroupKey(group, rows[i]) == Some(k)
  }

  /** The sum of the readable amounts of the rows grouped under `k`. */
  function GroupTotal(group: GroupBy, rows: seq<Row>, k: string): int
    decreases |rows|
  {
    if rows == [] then 0
    else
      var last := rows[|rows| - 1];
      GroupTotal(group, rows[..|rows| - 1], k) + (if GroupKey(group, last) == Some(k) then Credit(last) else 0)
  }

  /**
   * The summary has an entry for exactly the keys some row is grouped
   * under, and each entry is the sum of that group's readable amounts.
   */
  lemma {:induction false} SummaryMeaning(group: GroupBy, rows: seq<Row>, k: string)
    ensures k in Summary(group, rows) <==> HasKey(group, rows, k)
    ensures k in Summary(group, rows) ==> Summary(group, rows)[k] == GroupTotal(group, rows, k)
    decreases |rows|
  {
    if rows != [] {
      var init, last := rows[..|rows| - 1], rows[|rows| - 1];
      SummaryMeaning(group, init, k);
      if HasKey(group, rows, k) && GroupKey(group, last) != Some(k) {
        var i :| 0 <= i < |rows| && GroupKey(group, rows[i]) == Some(k);
        assert init[i] == rows[i];
      }
      if HasKey(group, init, k) {
        var i :| 0 <= i < |init| && GroupKey(group, init[i]) == Some(k);
        assert rows[i] == init[i];
      }
      if !HasKey(group, init, k) {
        GroupTotalZero(group, init, k);
      }
    }
  }

  /** A group none of whose amounts parse still appears, with total 0. */
  lemma UnreadableGroupIsZero(group: GroupBy, rows: seq<Row>, k: string)
    requires HasKey(group, rows, k)
    requires forall i :: 0 <= i < |rows| && GroupKey(group, rows[i]) == Some(k) ==> RowAmount(rows[i]).None?
    ensures k in Summary(group, rows) && Summary(group, rows)[k] == 0
  {
    SummaryMeaning(group, rows, k);
    GroupTotalZero(group, rows, k);
  }

  lemma {:induction false} GroupTotalZero(group: GroupBy, rows: seq<Row>, k: string)
    requires forall i :: 0 <= i < |rows| && GroupKey(group, rows[i]) == Some(k) ==> RowAmount(rows[i]).None?
    ensures GroupTotal(group, rows, k) == 0
    decreases |rows|
  {
    if rows != [] {
      var init := rows[..|rows| - 1];
      assert forall i :: 0 <= i < |init| ==> init[i] == rows[i];
      GroupTotalZero(group, init, k);
    }
  }

  /** A row too short to have a key (for months, the empty row) changes nothing. */
  lemma KeylessRowIgnored(group: GroupBy, rows: seq<Row>, row: Row)
    requires GroupKey(group, row).None?
    ensures Summary(group, rows + [row]) == Summary(group, rows)
  {
  }

  /**
   * Two rows whose categories differ only in letter case ("Food", "food")
   * make one entry, keyed by the lower-cased name, holding both amounts.
   */
  lemma CaseVariantsMerge(a: Row, b: Row)
    requires |a| >= 3 && |b| >= 3 && LowerStr(a[1]) == LowerStr(b[1])
    requires RowAmount(a).Some? && RowAmount(b).Some?
    ensures Summary(ByCategory, [a, b]) == map[LowerStr(a[1]) := RowAmount(a).value + RowAmount(b).value]
  {
    var k := LowerStr(a[1]);
    assert [a, b][..1] == [a] && [a][..0] == [];
    assert Summary(ByCategory, [a]) == Accumulate(map[], ByCategory, a);
    assert Summary(ByCategory, [a]) == map[k := RowAmount(a).value];
    assert Summary(ByCategory, [a, b]) == Accumulate(Summary(ByCategory, [a]), ByCategory, b);
  }

  /** Rows of the same month add up; a row of another month opens its own entry. */
  lemma MonthsGrouped(a: Row, b: Row, c: Row)
    requires |a| >= 3 && |b| >= 3 && |c| >= 3
    requires RowAmount(a).Some? && RowAmount(b).Some? && RowAmount(c).Some?
    requires MonthOf(a[0]) == MonthOf(b[0]) != MonthOf(c[0])
    ensures Summary(ByMonth, [a, b, c])
            == map[MonthOf(a[0]) := RowAmount(a).value + RowAmount(b).value, MonthOf(c[0]) := RowAmount(c).value]
  {
    var m, n := MonthOf(a[0]), MonthOf(c[0]);
    assert [a, b, c][..2] == [a, b] && [a, b][..1] == [a] && [a][..0] == [];
    assert Summary(ByMonth, [a]) == Accumulate(map[], ByMonth, a);
    assert Summary(ByMonth, [a]) == map[m := RowAmount(a).value];
    assert Summary(ByMonth, [a, b]) == Accumulate(Summary(ByMonth, [a]), ByMonth, b);
    assert Summary(ByMonth, [a, b]) == map[m := RowAmount(a).value + RowAmount(b).value];
    assert Summary(ByMonth, [a, b, c]) == Accumulate(Summary(ByMonth, [a, b]), ByMonth, c);
  }

  /** A summary entry: a key and its total. */
  type Entry = (string, int)

  /** Keys strictly ascending in Python's string order. */
  predicate Ascending(s: seq<Entry>)
  {
    forall i, j :: 0 <= i < j < |s| ==> Less(s[i].0, s[j].0)
  }

  predicate DistinctKeys(s: seq<Entry>)
  {
    forall i, j :: 0 <= i < j < |s| ==> s[i].0 != s[j].0
  }

  /** Keys in strictly ascending order are distinct: no key is listed twice. */
  lemma AscendingDistinct(s: seq<Entry>)
    requires Ascending(s)
    ensures DistinctKeys(s)
  {
    forall i, j | 0 <= i < j < |s|
      ensures s[i].0 != s[j].0
    {
      LessIrreflexive(s[i].0);
    }
  }

  /** `report` lists exactly the entries of `m`, in ascending key order. */
  predicate IsReport(report: seq<Entry>, m: map<string, int>)
  {
    && Ascending(report)
    && (forall e :: e in report ==> e.0 in m && m[e.0] == e.1)
    && (forall k :: k in m ==> (k, m[k]) in report)
  }

  /** Puts `e` in front of the first entry with a greater key. */
  function Insert(e: Entry, s: seq<Entry>): (r: seq<Entry>)
    ensures multiset(r) == multiset(s) + multiset{e}
  {
    if s == [] then [e]
    else if Less(e.0, s[0].0) then [e] + s
    else
      assert s == [s[0]] + s[1..];
      [s[0]] + Insert(e, s[1..])
  }

  lemma {:induction false} InsertAscending(e: Entry, s: seq<Entry>)
    requires Ascending(s)
    requires forall i :: 0 <= i < |s| ==> s[i].0 != e.0
    ensures Ascending(Insert(e, s))
  {
    if s == [] {
    } else if Less(e.0, s[0].0) {
      forall j | 0 <= j < |s| ensures Less(e.0, s[j].0) {
        if j > 0 {
          LessTransitive(e.0, s[0].0, s[j].0);
        }
      }
    } else {
      LessTotal(e.0, s[0].0);
      var t := Insert(e, s[1..]);
      InsertAscending(e, s[1..]);
      forall j | 0 <= j < |t| ensures Less(s[0].0, t[j].0) {
        assert t[j] in multiset(t);
        if t[j] != e {
          assert t[j] in multiset(s[1..]);
          var m :| 0 <= m < |s[1..]| && s[1..][m] == t[j];
          assert s[m + 1] == t[j];
        }
      }
    }
  }

  /** The model of `sorted(...)` on entries with distinct keys. */
  function SortByKey(s: seq<Entry>): (r: seq<Entry>)
    ensures multiset(r) == multiset(s)
  {
    if s == [] then []
    else
      assert s == [s[0]] + s[1..];
      Insert(s[0], SortByKey(s[1..]))
  }

  lemma {:induction false} SortByKeyAscending(s: seq<Entry>)
    requires DistinctKeys(s)
    ensures Ascending(SortByKey(s))
  {
    if s != [] {
      var rest := SortByKey(s[1..]);
      SortByKeyAscending(s[1..]);
      forall i | 0 <= i < |rest| ensures rest[i].0 != s[0].0 {
        assert rest[i] in multiset(s[1..]);
        var m :| 0 <= m < |s[1..]| && s[1..][m] == rest[i];
        assert s[m + 1] == rest[i];
      }
      InsertAscending(s[0], rest);
    }
  }

  /** The dictionary's items, in the order its keys were first inserted. */
  function Items(m: map<string, int>, order: seq<string>): (r: seq<Entry>)
    requires forall k :: k in order ==> k in m
    ensures |r| == |order|
    ensures forall i :: 0 <= i < |order| ==> r[i] == (order[i], m[order[i]])
  {
    if order == [] then [] else [(order[0], m[order[0]])] + Items(m, order[1..])
  }

  /** `sorted(summary.items())`, given the dictionary and its insertion order. */
  function SortedItems(m: map<string, int>, order: seq<string>): (r: seq<Entry>)
    requires forall k :: k in order <==> k in m
    requires forall i, j :: 0 <= i < j < |order| ==> order[i] != order[j]
    ensures IsReport(r, m)
  {
    ItemsReport(m, order);
    SortByKey(Items(m, order))
  }

  lemma ItemsReport(m: map<string, int>, order: seq<string>)
    requires forall k :: k in order <==> k in m
    requires forall i, j :: 0 <= i < j < |order| ==> order[i] != order[j]
    ensures IsReport(SortByKey(Items(m, order)), m)
  {
    var items := Items(m, order);
    var r := SortByKey(items);
    SortByKeyAscending(items);
    forall e | e in r ensures e.0 in m && m[e.0] == e.1 {
      assert e in multiset(items);
    }
    forall k | k in m ensures (k, m[k]) in r {
      var i :| 0 <= i < |order| && order[i] == k;
      assert items[i] == (k, m[k]);
      assert (k, m[k]) in multiset(items);
    }
  }
}
