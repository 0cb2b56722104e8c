# Expense tracker: a verified model of its ledger operations

The expense tracker keeps a personal ledger in one CSV file. Its first line is the header
`Date,Category,Amount,Description`, and after it comes one line per expense. The tracker can
add an expense (after it validates the date and the amount), list the expenses, search them by
date or category, total them, summarise them per month or per category, and delete them by date
and description.

This project models those operations over the file's contents, held in memory. The file becomes
an object `ExpenseTracker.Store` with two fields:

- `present`: whether the file exists;
- `lines`: the rows the CSV reader would return. `lines[0]` is the line that every read skips
  with `next(reader)`, and `lines[1..]` (`Records()`) are the expenses, in storage order.

A row is a `seq<string>`. It may be shorter than four cells: a blank line reads as the empty
list. Every operation indexes the cells it needs, and in Python a missing cell raises
IndexError. The model records, per operation, which rows make it raise:

- `Rows.Faults` says whether one row makes a given read raise;
- `Rows.FirstFault` gives the first such row;
- a read that raises returns `ShortRow(index)`, or reports the fault next to what it had
  printed before it.

Amounts are integer cents. `Amounts.ParseAmount` stands for `float(...)`, and
`Amounts.FormatAmount` writes the cell that an added expense stores.

Modules:

- `Wrappers`: `Option` and `Result`.
- `Numerals`: decimal numerals.
- `Text`: ASCII lower-casing, substring search and Python's string order.
- `Dates`: `is_valid_date`.
- `Amounts`: reading and writing amounts.
- `Rows`: what each read computes from the rows, as functions.
- `Summaries`: the group-by dictionaries and their sorted listing.
- `ExpenseTracker`: the `Store` class. Its methods run the tracker's loops and are proved
  against the functions of `Rows` and `Summaries`.

Four behaviours of the code are easy to miss; the model follows the code:

- `delete_expense` removes every matching row, not only the first one.
- `total_expenses` catches only ValueError. So a row with fewer than three cells aborts the
  total with IndexError. The two summaries catch IndexError too: such a row adds nothing to any
  total, but a row that has its key cell still opens that key at 0, because the dictionary
  subscript runs before `row[2]` is read.
- `delete_expense` first calls `view_expenses`. So a row with fewer than four cells aborts the
  delete before anything is removed.
- Adding to a file that does not exist creates it, because the file is opened for appending.
  The new row is then the file's first line, so later reads skip it as if it were the header.

## Model

| member | source | states |
|---|---|---|
| `Dates.IsValidDate` | expense_tracker.py:16-21 | the model of `is_valid_date`: the string reads as a calendar date in `YYYY-MM-DD` form. `Dates.ValidDateMeaning` characterises it in both directions |
| `Dates.ValidDateMeaning` | expense_tracker.py:16-21 | a string is a valid date exactly when it is the `YYYY-MM-DD` form of a calendar date: year 1 to 9999, month 1 to 12, day within the month's length |
| `Dates.LeapDay` | expense_tracker.py:16-21 | February 29 of a four-digit year is accepted exactly when the year is a Gregorian leap year |
| `Dates.ParseFormatDate` | expense_tracker.py:16-21 | every calendar date, written as `YYYY-MM-DD`, reads back as the same date |
| `Dates.FormatParseDate` | expense_tracker.py:16-21 | every accepted string is the `YYYY-MM-DD` form of the date it reads as |
| `Dates.AcceptsLeapDays` | expense_tracker.py:16-21 | `2024-02-29` and `2000-02-29` are accepted |
| `Dates.RejectsNonLeapDays` | expense_tracker.py:16-21 | `2023-02-29` and `1900-02-29` are rejected |
| `Dates.RejectsOutOfRange` | expense_tracker.py:16-21 | `2024-02-30`, `2024-13-01` and `0000-01-01` are rejected |
| `Dates.RejectsMalformed` | expense_tracker.py:16-21 | `not-a-date`, `2024/01/05` and `24-01-05` (a two-digit year) are rejected |
| `Amounts.ParseAmount` | expense_tracker.py:32 | the model of `float(...)` here and at lines 83, 97 and 113: an optional sign, then digits with at most one point and two decimals, in cents, or None where `float` raises ValueError. `Amounts.AmountRoundTrip`, `Amounts.AmountExamples` and `Amounts.RejectsNonAmounts` characterise it |
| `Amounts.FormatAmount` | expense_tracker.py:40 | the amount cell `writerow` stores for an added expense, written `[-]D+.DD`. `Amounts.AmountRoundTrip` shows it reads back as the amount |
| `Amounts.AmountRoundTrip` | expense_tracker.py:32-40 | the amount cell an added expense stores reads back as the same amount |
| `Amounts.AmountExamples` | expense_tracker.py:31-35 | `12.5` reads as 1250 cents and `-3.05` as -305 |
| `Amounts.RejectsNonAmounts` | expense_tracker.py:31-35 | `abc` and the empty string are not amounts, so the add is refused |
| `Rows.NewRow` | expense_tracker.py:24-40 | an invalid date is rejected first, whatever the amount. A valid date with an unreadable amount is rejected next. Otherwise the row is date, category, amount, description, and its amount cell reads back as the amount given. No later read faults on it |
| `ExpenseTracker.Store.Add` | expense_tracker.py:24-42 | when both checks pass, exactly one row is appended after the old lines, and the file exists afterwards. Otherwise the file is untouched |
| `ExpenseTracker.Store.Initialize` | expense_tracker.py:9-13 | an existing file is left exactly as it was; a missing one is created holding only the header |
| `ExpenseTracker.InitializeTwice` | expense_tracker.py:9-13 | initializing twice gives the same file as initializing once |
| `ExpenseTracker.Store.View` | expense_tracker.py:45-55 | lists the expense rows in storage order and counts them. It stops at, and reports, the first row with fewer than four cells |
| `Rows.AppendedRowListed` | expense_tracker.py:45-53 | after a row that reads without error is appended, the listing is the old rows followed by that row |
| `ExpenseTracker.AddThenView` | expense_tracker.py:24-53 | after a successful add, the listing is the earlier expenses followed by exactly the new row |
| `Rows.Faults` | expense_tracker.py:51-52 | whether a row makes a read index past its end. Listing needs four cells (line 52). A search needs its search cell (line 69), and four cells when the row matches (line 70). The total needs three cells (line 83) |
| `Rows.FirstFault` | expense_tracker.py:81-83 | gives the first row at which a read raises IndexError, with no such row before it, or none when no row does |
| `Rows.Reached` | expense_tracker.py:51-52 | the rows a read handles before it raises: a prefix of the rows, none of which faults. The next row faults |
| `ExpenseTracker.Store.Search` | expense_tracker.py:58-73 | the printed rows are, in storage order, those rows before the first fault whose chosen field contains the keyword, ignoring case. The field is the date for choice `1` and the category otherwise. The header is never searched. `found` is set exactly when something matched |
| `Rows.SearchColumn` | expense_tracker.py:62 | the searched cell is the date for choice `1` and the category for any other choice |
| `Rows.IsMatch` | expense_tracker.py:69 | the row has the search cell, and the lower-cased keyword occurs in the lower-cased cell. `Rows.MatchingMeaning` ties it to what a search prints |
| `Text.Contains` | expense_tracker.py:69 | Python's `in` on strings. `Text.ContainsMeaning` characterises it as an occurrence at some position |
| `Rows.MatchingMeaning` | expense_tracker.py:66-71 | a row is printed by a search exactly when it is stored and matches |
| `Rows.MatchingAppend` | expense_tracker.py:66-71 | searching a concatenation prints the first part's matches, then the second's (storage order) |
| `Text.ContainsMeaning` | expense_tracker.py:69 | `keyword in field` holds exactly when the keyword occurs at some position of the field |
| `Text.AbsentFirstChar` | expense_tracker.py:69 | a keyword whose first character never occurs in the field is not found in it |
| `Text.LowerStr` | expense_tracker.py:61 | lower-casing keeps the length and lower-cases each character |
| `Rows.SearchFindsFood` | expense_tracker.py:60-71 | a category search for `foo` matches the category `Food` |
| `Rows.SearchSkipsTransport` | expense_tracker.py:60-71 | a category search for `foo` does not match `Transport` |
| `ExpenseTracker.Store.Total` | expense_tracker.py:76-86 | the sum of every readable amount. Unreadable amounts add nothing. A row with fewer than three cells aborts the total with IndexError at that row |
| `Rows.AmountSumAppend` | expense_tracker.py:81-85 | the total of a concatenation is the sum of the parts' totals |
| `Rows.UnreadableAmountSkipped` | expense_tracker.py:82-85 | a row whose amount does not parse leaves the total unchanged |
| `Rows.AddedAmountCounted` | expense_tracker.py:32-40 | an added expense raises the total by exactly the amount entered |
| `Summaries.GroupKey` | expense_tracker.py:96 | the key a row is grouped under: `row[0][:7]` for months, `row[1].lower()` for categories (line 113), or none when that cell is missing |
| `Summaries.Accumulate` | expense_tracker.py:96-97 | one step of `summary[key] += float(row[2])`, and of line 113: a keyed row opens its key at 0 and adds its amount when it parses. A row without its key cell changes nothing. `Summaries.SummaryMeaning` characterises the fold of it |
| `ExpenseTracker.Store.GroupTotals` | expense_tracker.py:90-99 | the accumulation loop builds the dictionary `Summary(group, rows)`, and the list of its keys with no repeats |
| `ExpenseTracker.AddToTotals` | expense_tracker.py:95-99 | one pass of the loop body performs exactly the step `Accumulate` defines. Its key list keeps naming each key of the dictionary once and only grows |
| `Summaries.SummaryMeaning` | expense_tracker.py:94-99 | the summary has a key exactly when some row is grouped under it. Its value is that group's sum of readable amounts |
| `Summaries.UnreadableGroupIsZero` | expense_tracker.py:96-97 | a key appears with total 0 when none of its rows' amounts parse, because the subscript comes before `float` |
| `Summaries.KeylessRowIgnored` | expense_tracker.py:95-99 | a row too short for its key (for months, the empty row) changes no entry |
| `Summaries.MonthOf` | expense_tracker.py:96 | `date[:7]` is the cell's first seven characters, or the whole cell when it is shorter |
| `Summaries.MonthsGrouped` | expense_tracker.py:94-99 | two rows of the same month sum into one entry; a row of another month gets its own entry |
| `Summaries.CaseVariantsMerge` | expense_tracker.py:111-115 | categories that differ only in case, such as `Food` and `food`, make one lower-cased entry holding both amounts |
| `Text.Less` | expense_tracker.py:102 | Python's `<` on strings: lexicographic by code point, and a proper prefix comes first. `Text.LessIrreflexive`, `Text.LessTransitive` and `Text.LessTotal` make it a strict total order |
| `Text.LessIrreflexive` | expense_tracker.py:102 | no string is below itself |
| `Text.LessTransitive` | expense_tracker.py:102 | the string order is transitive |
| `Text.LessTotal` | expense_tracker.py:102 | of two different strings, one is below the other, so `sorted` has a single answer |
| `Summaries.SortByKey` | expense_tracker.py:102 | `sorted(summary.items())`, here and at line 118: a permutation of its input (its ensures). `Summaries.SortByKeyAscending` shows the keys come out ascending |
| `Summaries.AscendingDistinct` | expense_tracker.py:102 | keys in strictly ascending order are distinct, so a sorted report names each key once |
| `Summaries.SortByKeyAscending` | expense_tracker.py:102 | `sorted` on entries with distinct keys yields keys in strictly ascending string order |
| `Summaries.SortedItems` | expense_tracker.py:102 | the sorted items list each entry of the dictionary exactly once, in ascending key order |
| `ExpenseTracker.Store.MonthlySummary` | expense_tracker.py:89-103 | reports the monthly summary's entries exactly, months ascending |
| `ExpenseTracker.Store.CategorySummary` | expense_tracker.py:106-119 | reports the category summary's entries exactly, categories ascending |
| `ExpenseTracker.Store.Delete` | expense_tracker.py:122-146 | if the preliminary listing faults, the file is untouched. Otherwise the header is kept and the expenses become the survivors. The result says whether any row matched, and when none did the file is not rewritten |
| `Rows.IsTarget` | expense_tracker.py:134 | a row is deleted when it has four cells, its date equals the target date, and its description equals the target's, ignoring case |
| `Rows.SurvivorsMeaning` | expense_tracker.py:133-137 | a row survives exactly when it is stored and does not carry the date and, ignoring case, the description |
| `Rows.SurvivorsCount` | expense_tracker.py:133-137 | every match is removed, not only the first: one row fewer per matching row |
| `Rows.SurvivorsAppend` | expense_tracker.py:133-137 | survivors keep their relative order |
| `Rows.SurvivorsUnchangedIff` | expense_tracker.py:133-143 | deleting changes the rows exactly when some row matches |
| `Rows.DeleteIdempotent` | expense_tracker.py:127-143 | after a delete, no row matches the same arguments, and deleting again keeps every row |
| `Rows.SurvivorsListable` | expense_tracker.py:123 | the rows a delete keeps can be listed whenever the rows it started from could |
| `ExpenseTracker.DeleteTwice` | expense_tracker.py:122-146 | a second delete with the same arguments reports that nothing was deleted |

## Left out

- Console input and output are parameters and results. Left out: the prompts, the messages,
  the `₹` sign, the `:.2f` rounding, column padding and the `capitalize()` applied to category
  names on display. `View` and `Search` return the rows they print; the display shows only the
  first four cells of a longer row.
- The `main_menu` loop and its dispatch are user-interface plumbing. It calls
  `initialize_file` first, which is why every read requires an existing file.
- Operating-system failures and the missing-file read are not modelled:
  - the open, write and permission errors of the file system;
  - the FileNotFoundError a read raises when the file is missing;
  - the StopIteration a read raises on a zero-byte file.
  Reads require `Readable()` instead.
- The `csv` module's quoting, escaping and line endings are not modelled. The file is the list
  of rows the reader would return.
- A crash part-way through the rewrite in `delete_expense` is not modelled, and neither is
  concurrent access.
- Floating point is not modelled. Amounts are integer cents, and sums are exact.
- `Amounts.ParseAmount` covers only part of what `float` accepts. It reads an optional sign
  and digits with at most one point and at most two decimals. It does not read surrounding
  whitespace, underscores, exponents, `nan`, `inf`, or amounts with more than two decimals.
- `Amounts.FormatAmount` writes `[-]D+.DD`, such as `12.50`. Python writes `str(float)`, such
  as `12.5`. Both read back as the amount entered.
- `Dates.IsValidDate` accepts only the zero-padded ten-character form. `datetime.strptime`,
  a library outside this model, also accepts one-digit months and days, such as `2024-1-5`,
  and a space-padded day. For ASCII zero-padded input the two agree; beyond that, this is an
  assumption about the library, not a verified claim.
- `Text.LowerStr` lower-cases ASCII letters only. Python's `lower()` applies full Unicode
  case mapping.
- `Summaries.SortByKey` models `sorted` only on entries with distinct keys. That is the only
  case that occurs, because a dictionary's keys are distinct, so Python's tuple comparison
  never reaches the totals.
