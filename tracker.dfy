/**
 * The expense tracker's operations on its CSV file.  The file is held as
 * the rows the CSV reader would return: `lines[0]` is the header that every
 * read skips with `next(reader)`, and `lines[1..]` are the expenses, in
 * storage order.  `present` says whether the file exists.
 */
module ExpenseTracker {
  import opened Wrappers
  import opened Text
  import opened Dates
  import opened Amounts
  import opened Rows
  import opened Summaries

  class Store {
    var present: bool
    var lines: seq<Row>

    /** A file that does not exist has no lines. */
    ghost predicate Valid()
      reads this
    {
      present || lines == []
    }

    /** The file exists and has a first line for `next(reader)` to skip. */
    predicate Readable()
      reads this
    {
      present && |lines| >= 1
    }

    /** The expense rows: everything after the header. */
    function Records(): seq<Row>
      reads this
      requires Readable()
    {
      lines[1..]
    }

    /** A store over a file that does not exist yet. */
    constructor ()
      ensures Valid() && !present && lines == []
    {
      present, lines := false, [];
    }

    /** `initialize_file`: writes the header only when there is no file. */
    method Initialize()
      requires Valid()
      modifies this
      ensures Valid() && present
      ensures lines == if old(present) then old(lines) else [Header]
    {
      if !present {
        present, lines := true, [Header];
      }
    }

    /**
     * `add_expense`: validates the date, then the amount, and appends one
     * row; opening the file for appending creates it when it is missing.
     */
    method Add(date: string, category: string, amount: string, description: string)
      returns (result: Result<Row, AddError>)
      requires Valid()
      modifies this
      ensures Valid()
      ensures result == NewRow(date, category, amount, description)
      ensures result.Ok? ==> present && lines == old(lines) + [result.value]
      ensures result.Err? ==> present == old(present) && lines == old(lines)
    {
      result := NewRow(date, category, amount, description);
      if result.Ok? {
        present, lines := true, lines + [result.value];
      }
    }

    /**
     * `view_expenses`: lists the rows in storage order, counting them; a
     * row with fewer than four cells raises IndexError before it is printed.
     */
    method View() returns (listed: seq<Row>, count: nat, fault: Option<nat>)
      requires Readable()
      ensures fault == FirstFault(ViewScan, Records())
      ensures listed == Reached(ViewScan, Records())
      ensures count == |listed|
    {
      var rows := lines[1..];
      listed, count, fault := [], 0, None;
      var i := 0;
      while i < |rows|
        invariant 0 <= i <= |rows|
        invariant forall j :: 0 <= j < i ==> !Faults(ViewScan, rows[j])
        invariant listed == rows[..i] && count == i
      {
        var row := rows[i];
        if |row| < 4 {
          fault := Some(i);
          return;
        }
        assert !Faults(ViewScan, row);
        listed := listed + [row];
        count := count + 1;
        i := i + 1;
      }
      assert rows[..i] == rows;
    }

    /**
     * `search_expenses`: the rows whose date (choice "1") or category
     * (any other choice) contains the keyword, ignoring case.
     */
    method Search(choice: string, keyword: string) returns (matches: seq<Row>, found: bool, fault: Option<nat>)
      requires Readable()
      ensures fault == FirstFault(SearchScan(SearchColumn(choice), keyword), Records())
      ensures matches == Matching(SearchColumn(choice), keyword, Reached(SearchScan(SearchColumn(choice), keyword), Records()))
      ensures found <==> matches != []
    {
      var needle := LowerStr(keyword);
      var index := if choice == "1" then 0 else 1;
      ghost var scan := SearchScan(index, keyword);
      var rows := lines[1..];
      matches, found, fault := [], false, None;
      var i := 0;
      while i < |rows|
        invariant 0 <= i <= |rows|
        invariant forall j :: 0 <= j < i ==> !Faults(scan, rows[j])
        invariant matches == Matching(index, keyword, rows[..i])
        invariant found <==> matches != []
      {
        var row := rows[i];
        if |row| <= index {
          fault := Some(i);
          return;
        }
        if Contains(LowerStr(row[index]), needle) {
          if |row| < 4 {
            fault := Some(i);
            return;
          }
          matches := matches + [row];
          found := true;
        }
        assert !Faults(scan, row);
        assert rows[..i + 1][..i] == rows[..i];
        i := i + 1;
      }
      assert rows[..i] == rows;
    }

    /**
     * `total_expenses`: the sum of the amounts that parse.  A missing
     * amount cell raises IndexError, which the loop does not catch.
     */
    method Total() returns (total: ReadOutcome<int>)
      requires Readable()
      ensures FirstFault(TotalScan, Records()).Some? ==> total == ShortRow(FirstFault(TotalScan, Records()).value)
      ensures FirstFault(TotalScan, Records()).None? ==> total == Completed(AmountSum(Records()))
    {
      var rows := lines[1..];
      var sum := 0;
      var i := 0;
      while i < |rows|
        invariant 0 <= i <= |rows|
        invariant forall j :: 0 <= j < i ==> !Faults(TotalScan, rows[j])
        invariant sum == AmountSum(rows[..i])
      {
        var row := rows[i];
        if |row| < 3 {
          return ShortRow(i);
        }
        assert forall j :: 0 <= j < i + 1 ==> !Faults(TotalScan, rows[j]);
        assert rows[..i + 1][..i] == rows[..i];
        match ParseAmount(row[2]) {
          case Some(a) => sum := sum + a;
          case None =>
        }
        i := i + 1;
      }
      assert rows[..i] == rows;
      total := Completed(sum);
    }

    /**
     * The accumulation loop of both summaries: a dictionary of totals whose
     * missing keys read as 0, and the order its keys were inserted in.
     */
    method GroupTotals(group: GroupBy) returns (totals: map<string, int>, order: seq<string>)
      requires Readable()
      ensures totals == Summary(group, Records())
      ensures forall k :: k in order <==> k in totals
      ensures forall i, j :: 0 <= i < j < |order| ==> order[i] != order[j]
    {
      var rows := lines[1..];
      totals, order := map[], [];
      var i := 0;
      while i < |rows|
        invariant 0 <= i <= |rows|
        invariant totals == Summary(group, rows[..i])
        invariant forall k :: k in order <==> k in totals
        invariant forall a, b :: 0 <= a < b < |order| ==> order[a] != order[b]
      {
        assert rows[..i + 1][..i] == rows[..i];
        totals, order := AddToTotals(totals, order, group, rows[i]);
        i := i + 1;
      }
      assert rows[..i] == rows;
    }

    /** `monthly_summary`: totals per `YYYY-MM` prefix, in ascending order. */
    method MonthlySummary() returns (report: seq<Entry>)
      requires Readable()
      ensures IsReport(report, Summary(ByMonth, Records()))
    {
      var totals, order := GroupTotals(ByMonth);
      report := SortedItems(totals, order);
    }

    /** `category_summary`: totals per lower-cased category, in ascending order. */
    method CategorySummary() returns (report: seq<Entry>)
      requires Readable()
      ensures IsReport(report, Summary(ByCategory, Records()))
    {
      var totals, order := GroupTotals(ByCategory);
      report := SortedItems(totals, order);
    }

    /**
     * `delete_expense`: first lists the expenses, then removes every row with
     * the date and, ignoring case, the description, and rewrites the file
     * only when one was removed.  The listing raises IndexError at a row
     * with fewer than four cells, and then nothing is deleted.
     */
    method Delete(date: string, description: string) returns (outcome: ReadOutcome<bool>)
      requires Valid() && Readable()
      modifies this
      ensures Valid() && Readable() && lines[0] == old(lines[0])
      ensures FirstFault(ViewScan, old(Records())).Some? ==>
                outcome == ShortRow(FirstFault(ViewScan, old(Records())).value) && lines == old(lines)
      ensures FirstFault(ViewScan, old(Records())).None? ==>
                && outcome == Completed(AnyTarget(date, description, old(Records())))
                && Records() == Survivors(date, description, old(Records()))
                && (!outcome.value ==> lines == old(lines))
    {
      var _, _, fault := View();
      if fault.Some? {
        return ShortRow(fault.value);
      }
      var header := lines[0];
      var rows := lines[1..];
      var updated: seq<Row> := [];
      var deleted := false;
      var i := 0;
      while i < |rows|
        invariant 0 <= i <= |rows|
        invariant updated == Survivors(date, description, rows[..i])
        invariant deleted <==> AnyTarget(date, description, rows[..i])
      {
        var row := rows[i];
        assert |row| >= 4;
        assert rows[..i + 1][..i] == rows[..i];
        assert forall j :: 0 <= j < i ==> rows[..i + 1][j] == rows[..i][j];
        if row[0] == date && LowerStr(row[3]) == LowerStr(description) {
          assert IsTarget(date, description, rows[..i + 1][i]);
          deleted := true;
        } else {
          updated := updated + [row];
        }
        i := i + 1;
      }
      assert rows[..i] == rows;
      if deleted {
        lines := [header] + updated;
      } else {
        SurvivorsUnchangedIff(date, description, rows);
      }
      outcome := Completed(deleted);
    }
  }

  /**
   * One pass of the summaries' loop body: `summary[key] += float(row[2])`
   * on a dictionary whose missing keys read as 0, with `order` the keys in
   * the order the dictionary received them.
   */
  method AddToTotals(totals: map<string, int>, order: seq<string>, group: GroupBy, row: Row)
    returns (totals': map<string, int>, order': seq<string>)
    requires forall k :: k in order <==> k in totals
    requires forall a, b :: 0 <= a < b < |order| ==> order[a] != order[b]
    ensures totals' == Accumulate(totals, group, row)
    ensures forall k :: k in order' <==> k in totals'
    ensures forall a, b :: 0 <= a < b < |order'| ==> order'[a] != order'[b]
    ensures order <= order'
  {
    totals', order' := totals, order;
    match GroupKey(group, row) {
      case None =>
      case Some(k) =>
        ghost var current := if k in totals then totals[k] else 0;
        if k !in totals' {
          totals', order' := totals'[k := 0], order' + [k];
        }
        assert totals' == totals[k := current];
        match RowAmount(row) {
          case Some(a) =>
            totals' := totals'[k := totals'[k] + a];
            assert totals' == totals[k := current + a];
          case None =>
        }
    }
  }

  /** Initializing twice leaves the file as initializing once does. */
  method InitializeTwice(s: Store)
    requires s.Valid()
    modifies s
    ensures s.Valid() && s.present
    ensures s.lines == if old(s.present) then old(s.lines) else [Header]
  {
    s.Initialize();
    ghost var once := s.lines;
    s.Initialize();
    assert s.lines == once;
  }

  /** An added expense is the last row listed afterwards. */
  method AddThenView(s: Store, date: string, category: string, amount: string, description: string)
    returns (result: Result<Row, AddError>, listed: seq<Row>)
    requires s.Valid() && s.Readable() && FirstFault(ViewScan, s.Records()).None?
    requires IsValidDate(date) && ParseAmount(amount).Some?
    modifies s
    ensures result.Ok? && listed == old(s.Records()) + [result.value]
    ensures result.value == [date, category, FormatAmount(ParseAmount(amount).value), description]
  {
    ghost var before := s.Records();
    result := s.Add(date, category, amount, description);
    assert s.Records() == before + [result.value];
    AppendedRowListed(before, result.value);
    var count, fault;
    listed, count, fault := s.View();
  }

  /** A second delete with the same arguments removes nothing and reports so. */
  method DeleteTwice(s: Store, date: string, description: string)
    returns (first: ReadOutcome<bool>, second: ReadOutcome<bool>)
    requires s.Valid() && s.Readable() && FirstFault(ViewScan, s.Records()).None?
    modifies s
    ensures first == Completed(AnyTarget(date, description, old(s.Records())))
    ensures second == Completed(false)
    ensures s.Readable() && s.Records() == Survivors(date, description, old(s.Records()))
  {
    ghost var before := s.Records();
    first := s.Delete(date, description);
    SurvivorsListable(date, description, before);
    DeleteIdempotent(date, description, before);
    second := s.Delete(date, description);
  }
}
