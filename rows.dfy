/**
 * The ledger's rows and what each operation computes from them.  The CSV
 * reader hands every line over as a list of strings, which may be shorter
 * than four cells (a blank line reads as the empty list); each operation
 * indexes the cells it needs, and a missing one raises IndexError.
 */
module Rows {
  import opened Wrappers
  import opened Text
  import opened Dates
  import opened Amounts

  /** One line of the CSV file, as the reader returns it. */
  type Row = seq<string>

  /** The first line of every ledger the tracker creates. */
  const Header: Row := ["Date", "Category", "Amount", "Description"]

  /** How a read of the rows ends: with its result, or with IndexError at a data row. */
  datatype ReadOutcome<+T> = Completed(value: T) | ShortRow(index: nat)

  /** Why an expense is not added. */
  datatype AddError = InvalidDate | InvalidAmount

  /** The row an operation reads, and which cells it indexes. */
  datatype Scan =
    | ViewScan
    | SearchScan(column: nat, keyword: string)
    | TotalScan

  /** The search field: the date for choice "1", the category for anything else. */
  function SearchColumn(choice: string): nat
  {
    if choice == "1" then 0 else 1
  }

  /** The lower-cased keyword occurs in the lower-cased search field. */
  predicate IsMatch(column: nat, keyword: string, row: Row)
  {
    column < |row| && Contains(LowerStr(row[column]), LowerStr(keyword))
  }

  /** The row carries the date and, ignoring case, the description to delete. */
  predicate IsTarget(date: string, description: string, row: Row)
  {
    4 <= |row| && row[0] == date && LowerStr(row[3]) == LowerStr(description)
  }

  /** The row makes the scan index past its end. */
  predicate Faults(scan: Scan, row: Row)
  {
    match scan
    case ViewScan => |row| < 4
    case SearchScan(column, keyword) => |row| <= column || (IsMatch(column, keyword, row) && |row| < 4)
    case TotalScan => |row| < 3
  }

  /** The index of the first row at which the scan raises IndexError. */
  function FirstFault(scan: Scan, rows: seq<Row>): (r: Option<nat>)
    ensures r.Some? ==> r.value < |rows| && Faults(scan, rows[r.value])
    ensures r.Some? ==> forall j :: 0 <= j < r.value ==> !Faults(scan, rows[j])
    ensures r.None? ==> forall j :: 0 <= j < |rows| ==> !Faults(scan, rows[j])
    decreases |rows|
  {
    if rows == [] then None
    else if Faults(scan, rows[0]) then Some(0)
    else match FirstFault(scan, rows[1..])
      case Some(k) => Some(k + 1)
      case None => None
  }

  /** The rows the scan gets through before it raises, if it does. */
  function Reached(scan: Scan, rows: seq<Row>): (r: seq<Row>)
    ensures r <= rows
    ensures forall i :: 0 <= i < |r| ==> !Faults(scan, r[i])
    ensures |r| < |rows| ==> Faults(scan, rows[|r|])
  {
    match FirstFault(scan, rows)
    case Some(k) => rows[..k]
    case None => rows
  }

  /** A row that reads without error is listed after the rows before it. */
  lemma AppendedRowListed(rows: seq<Row>, row: Row)
    requires FirstFault(ViewScan, rows).None? && !Faults(ViewScan, row)
    ensures Reached(ViewScan, rows + [row]) == rows + [row]
  {
  }

  /** The rows a search prints, in storage order. */
  function Matching(column: nat, keyword: string, rows: seq<Row>): seq<Row>
    decreases |rows|
  {
    if rows == [] then []
    else
      var prior := Matching(column, keyword, rows[..|rows| - 1]);
      if IsMatch(column, keyword, rows[|rows| - 1]) then prior + [rows[|rows| - 1]] else prior
  }

  lemma {:induction false} MatchingMeaning(column: nat, keyword: string, rows: seq<Row>)
    ensures forall row :: row in Matching(column, keyword, rows) <==> row in rows && IsMatch(column, keyword, row)
    decreases |rows|
  {
    if rows != [] {
      var init := rows[..|rows| - 1];
      MatchingMeaning(column, keyword, init);
      assert rows == init + [rows[|rows| - 1]];
    }
  }

  /** Searching a concatenation finds the first part's matches, then the second's. */
  lemma {:induction false} MatchingAppend(column: nat, keyword: string, a: seq<Row>, b: seq<Row>)
    ensures Matching(column, keyword, a + b) == Matching(column, keyword, a) + Matching(column, keyword, b)
    decreases |b|
  {
    if b != [] {
      var init := b[..|b| - 1];
      MatchingAppend(column, keyword, a, init);
      assert (a + b)[..|a + b| - 1] == a + init;
    } else {
      assert a + b == a;
    }
  }

  /** Searching categories for "foo" finds "Food" ... */
  lemma SearchFindsFood()
    ensures IsMatch(1, "foo", ["2024-01-01", "Food", "10", "lunch"])
  {
  }

  /** ... and not "Transport". */
  lemma SearchSkipsTransport()
    ensures !IsMatch(1, "foo", ["2024-01-01", "Transport", "3", "bus"])
  {
    var t := LowerStr("Transport");
    assert forall i :: 0 <= i < |t| ==> t[i] != 'f';
    AbsentFirstChar(t, LowerStr("foo"));
  }

  /** The amount in cents stored in the row, if it has one that parses. */
  function RowAmount(row: Row): Option<int>
  {
    if |row| >= 3 then ParseAmount(row[2]) else None
  }

  /** What the row adds to a sum: its amount, or nothing. */
  function Credit(row: Row): int
  {
    match RowAmount(row)
    case Some(a) => a
    case None => 0
  }

  /** The sum of the amounts that parse. */
  function AmountSum(rows: seq<Row>): int
    decreases |rows|
  {
    if rows == [] then 0 else AmountSum(rows[..|rows| - 1]) + Credit(rows[|rows| - 1])
  }

  lemma {:induction false} AmountSumAppend(a: seq<Row>, b: seq<Row>)
    ensures AmountSum(a + b) == AmountSum(a) + AmountSum(b)
    decreases |b|
  {
    if b != [] {
      var init := b[..|b| - 1];
      AmountSumAppend(a, init);
      assert (a + b)[..|a + b| - 1] == a + init;
    } else {
      assert a + b == a;
    }
  }

  /** A row whose amount does not parse leaves the total as it was. */
  lemma UnreadableAmountSkipped(rows: seq<Row>, row: Row)
    requires RowAmount(row).None?
    ensures AmountSum(rows + [row]) == AmountSum(rows)
  {
  }

  /**
   * Validates an expense as `add_expense` does, the date first and then
   * the amount, and gives the row it stores.
   */
  function NewRow(date: string, category: string, amount: string, description: string): (r: Result<Row, AddError>)
    ensures r == Err(InvalidDate) <==> !IsValidDate(date)
    ensures r == Err(InvalidAmount) <==> IsValidDate(date) && ParseAmount(amount).None?
    ensures r.Ok? ==> |r.value| == 4 && r.value[0] == date && r.value[1] == category && r.value[3] == description
    ensures r.Ok? ==> RowAmount(r.value) == ParseAmount(amount)
    ensures r.Ok? ==> forall scan: Scan :: (scan.SearchScan? ==> scan.column < 4) ==> !Faults(scan, r.value)
  {
    if !IsValidDate(date) then Err(InvalidDate)
    else match ParseAmount(amount)
      case None => Err(InvalidAmount)
      case Some(cents) =>
        AmountRoundTrip(cents);
        Ok([date, category, FormatAmount(cents), description])
  }

  /** An added expense raises the total by exactly its amount. */
  lemma AddedAmountCounted(rows: seq<Row>, date: string, category: string, amount: string, description: string)
    requires NewRow(date, category, amount, description).Ok?
    ensures AmountSum(rows + [NewRow(date, category, amount, description).value])
            == AmountSum(rows) + ParseAmount(amount).value
  {
  }

  /** The rows a delete keeps, in their original order. */
  function Survivors(date: string, description: string, rows: seq<Row>): seq<Row>
    decreases |rows|
  {
    if rows == [] then []
    else
      var prior := Survivors(date, description, rows[..|rows| - 1]);
      if IsTarget(date, description, rows[|rows| - 1]) then prior else prior + [rows[|rows| - 1]]
  }

  /** Some row is a delete target. */
  predicate AnyTarget(date: string, description: string, rows: seq<Row>)
  {
    exists i :: 0 <= i < |rows| && IsTarget(date, description, rows[i])
  }

  /** The number of delete targets. */
  function TargetCount(date: string, description: string, rows: seq<Row>): nat
    decreases |rows|
  {
    if rows == [] then 0
    else TargetCount(date, description, rows[..|rows| - 1]) + (if IsTarget(date, description, rows[|rows| - 1]) then 1 else 0)
  }

  lemma {:induction false} SurvivorsMeaning(date: string, description: string, rows: seq<Row>)
    ensures forall row :: row in Survivors(date, description, rows) <==> row in rows && !IsTarget(date, description, row)
    decreases |rows|
  {
    if rows != [] {
      var init := rows[..|rows| - 1];
      SurvivorsMeaning(date, description, init);
      assert rows == init + [rows[|rows| - 1]];
    }
  }

  /** Every target is removed, not only the first: one row less per target. */
  lemma {:induction false} SurvivorsCount(date: string, description: string, rows: seq<Row>)
    ensures |Survivors(date, description, rows)| + TargetCount(date, description, rows) == |rows|
    decreases |rows|
  {
    if rows != [] {
      SurvivorsCount(date, description, rows[..|rows| - 1]);
    }
  }

  lemma {:induction false} SurvivorsAppend(date: string, description: string, a: seq<Row>, b: seq<Row>)
    ensures Survivors(date, description, a + b) == Survivors(date, description, a) + Survivors(date, description, b)
    decreases |b|
  {
    if b != [] {
      var init := b[..|b| - 1];
      SurvivorsAppend(date, description, a, init);
      assert (a + b)[..|a + b| - 1] == a + init;
    } else {
      assert a + b == a;
    }
  }

  /** Deleting changes the rows exactly when some row is a target. */
  lemma {:induction false} SurvivorsUnchangedIff(date: string, description: string, rows: seq<Row>)
    ensures Survivors(date, description, rows) == rows <==> !AnyTarget(date, description, rows)
    decreases |rows|
  {
    if rows != [] {
      var init, last := rows[..|rows| - 1], rows[|rows| - 1];
      SurvivorsUnchangedIff(date, description, init);
      SurvivorsCount(date, description, init);
      assert rows == init + [last];
      if AnyTarget(date, description, rows) && !IsTarget(date, description, last) {
        var i :| 0 <= i < |rows| && IsTarget(date, description, rows[i]);
        assert init[i] == rows[i];
      }
      if AnyTarget(date, description, init) {
        var i :| 0 <= i < |init| && IsTarget(date, description, init[i]);
        assert rows[i] == init[i];
      }
    }
  }

  /** A second delete with the same arguments finds nothing left to remove. */
  lemma DeleteIdempotent(date: string, description: string, rows: seq<Row>)
    ensures !AnyTarget(date, description, Survivors(date, description, rows))
    ensures Survivors(date, description, Survivors(date, description, rows)) == Survivors(date, description, rows)
  {
    var kept := Survivors(date, description, rows);
    SurvivorsMeaning(date, description, rows);
    forall i | 0 <= i < |kept|
      ensures !IsTarget(date, description, kept[i])
    {
      assert kept[i] in kept;
    }
    SurvivorsUnchangedIff(date, description, kept);
  }

  /** The rows a delete keeps can be listed whenever the rows it started from could. */
  lemma SurvivorsListable(date: string, description: string, rows: seq<Row>)
    requires FirstFault(ViewScan, rows).None?
    ensures FirstFault(ViewScan, Survivors(date, description, rows)).None?
  {
  }
}
