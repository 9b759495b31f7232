# Ledger of bills: a verified model

`main.py` keeps a personal ledger of bills (`contas`) in one CSV file. Each bill is a
dictionary of nine text fields: type (`débito`/`crédito`), description, amount, due date,
date received, category, status, priority and comments. The program can do these things:

- append a bill;
- list every bill;
- update and delete bills by their description (`descricao`), which acts as the key;
- search with case-insensitive criteria;
- build a monthly report of totals per month and per type;
- build a per-category summary of debits and credits.

This project models that core in Dafny:

- `records.dfy` (`Records`): rows as maps from field name to text. A dictionary the program
  builds is a `Dict`: its keys in insertion order, plus their bindings. Also here are the
  record constructor (`criar_conta_dict`) and the case folding used by search.
- `selection.dfy` (`Selection`): an order-preserving filter. Delete and search are both
  expressed with it. It is characterised as a subsequence that keeps exactly the passing
  elements.
- `dates.dfy` (`Dates`): Python's `str.split` and `str.join`, and the month key
  `"/".join(date.split("/")[-2:])` of the monthly report.
- `reports.dfy` (`Reports`): the two aggregations as recursive specifications. These are the
  keys, buckets and totals, plus the order in which a row can make the aggregation fail (a
  missing field, or an amount that does not parse).
- `ledger.dfy` (`Ledger`): the file as a `Store` object. Its header is absent while the file
  is empty or missing, and its rows are in file order. Every function of the core that
  touches the file is a method of `Store`. The loop inside each one is a module-level method
  over the rows that were read (`MergeInto`, `SelectMatching`, `Tally`, `Summarise`). Each
  method is proved against the specifications above. The lemmas beside them prove what
  update, delete and search promise.
- `csvrows.dfy` (`CsvRows`): one line of the file, as the values a dictionary writer puts on it
  and the row a dictionary reader makes of it under the header: the named fields, the values
  beyond the header (which the reader lists under the key `None`), and the header names left
  without a value (which it binds to `None`).
- `scenarios.dfy` (`Scenarios`): sequences of operations on one ledger, and small worked
  reports.

Amounts are read by a parameter `parse: string -> Option<int>`, which stands for Python's
`float()`. `None` is the `ValueError` it raises. A failing aggregation returns
`Failure(fault)` for the first faulty row, where Python would raise.

A delete that removes every row of a non-empty file still writes the header, because
`main.py:60` tests the list read before filtering. `Ledger.Store.Delete` states that the header
is kept whenever the file held rows.

## Model

| member | source | states |
|---|---|---|
| Records.CreateRecord | main.py:8-19 | a new bill has exactly the nine fields, in the fixed order, each bound to its own argument, and no key twice |
| Records.Bind | main.py:9-19 | a dictionary display, or `dict(zip(keys, values))`, later keys overwriting earlier ones; no contract of its own, its meaning is given by Records.BindKeys and Records.BindAt |
| Records.BindKeys | main.py:9-19 | a dictionary display holds exactly the listed keys |
| Records.BindAt | main.py:9-19 | with distinct keys, every key of a dictionary display is bound to its own value, never overwritten by a later one |
| Records.FieldsDistinct | main.py:10-18 | the nine field names are pairwise different |
| Records.Get | main.py:115 | `dict.get(field, "")`: a present field gives its value and a missing one the empty text; no contract of its own |
| Records.LowerChar | main.py:115 | an ASCII capital becomes its small letter, and characters outside the capital ranges are left unchanged |
| Records.LowerCharIdempotent | main.py:115 | a lowered character is already lower case |
| Records.Lower | main.py:115 | lower case keeps the length of the text |
| Records.LowerAt | main.py:115 | lower case lowers every character on its own, in place |
| Records.LowerIdempotent | main.py:115 | lowering twice is lowering once, so comparing lowered texts ignores case |
| Records.LowerEmpty | main.py:117 | a text is empty exactly when its lower case is, so lowering never turns a criterion on or off |
| Selection.Filter | main.py:56 | the filter never yields more elements than the input has |
| Selection.Selected | main.py:113-120 | the positions of the passing elements: in range, strictly increasing, and all of them |
| Selection.FilterSound | main.py:56 | every kept element occurs in the input and passes the test |
| Selection.FilterIsSelection | main.py:113-120 | the filtered list is the input read at exactly the passing positions, in order |
| Selection.FilterMembership | main.py:56 | an element is kept if and only if it occurs in the input and passes the test |
| Selection.FilterKeepsAll | main.py:114-118 | when every element passes, the result is the input itself |
| Selection.FilterShrinks | main.py:64 | the filter shrinks the list if and only if some element fails the test |
| Selection.FilterCongruent | main.py:114-118 | tests that agree on every element keep the same elements |
| Selection.FilterSnoc | main.py:113-120 | one more element is kept at the end exactly when it passes |
| Dates.Join | main.py:71 | `str.join` of a non-empty list of pieces; no contract of its own, its meaning is given by Dates.JoinSplit, Dates.JoinAt and Dates.JoinCount |
| Dates.MonthKey | main.py:71 | the last two "/"-separated pieces of a due date, joined again; no contract of its own, its meaning is given by Dates.MonthKeyIsSuffix, Dates.MonthKeySlashes and Dates.MonthKeyOfFullDate |
| Dates.Split | main.py:71 | splitting gives at least one piece, and no piece holds the separator |
| Dates.JoinSplit | main.py:71 | joining the pieces of a split with the same separator gives the text back |
| Dates.JoinAt | main.py:71 | a join splits at any inner boundary into two joins around one separator |
| Dates.JoinCount | main.py:71 | separator-free pieces joined hold one separator fewer than there are pieces |
| Dates.MonthKeyIsSuffix | main.py:71 | the month key is a suffix of the date, preceded by "/" when it is shorter, and the whole date when the date has no "/" |
| Dates.MonthKeySlashes | main.py:71 | the month key holds one "/" exactly when the date holds one, and none otherwise |
| Dates.MonthKeyOfFullDate | main.py:71 | a DD/MM/AAAA due date is keyed by MM/AAAA |
| Reports.MonthlyFault | main.py:71-72 | no fault if and only if the row has a due date, a type and an amount that parses; a missing field is one the row lacks; an unparsable amount is the row's own amount text |
| Reports.MonthlyFaultOrder | main.py:71-72 | of several faults, the one met first in reading order is reported: the due date, then the type, then the amount, then its number |
| Reports.CategoryFault | main.py:129-131 | no fault if and only if the row has a category, an amount that parses and a type; a missing field is one the row lacks; an unparsable amount is the row's own amount text |
| Reports.CategoryFaultOrder | main.py:129-131 | of several faults, the one met first in reading order is reported: the category, then the amount, then its number, then the type |
| Reports.Amount | main.py:72 | `float(conta["valor"])` (also main.py:130), read by the parameter `parse`; no contract of its own |
| Reports.MonthOf | main.py:71 | the month key of a row's due date, Dates.MonthKey; no contract of its own |
| Reports.BucketOf | main.py:72 | the bucket `"total_" + tipo` of a row; no contract of its own |
| Reports.Months | main.py:68-72 | the month keys of the monthly report; no contract of its own, its meaning is given by Reports.MonthsMeaning and Reports.MonthlySnoc |
| Reports.Buckets | main.py:68-72 | the buckets under one month of the monthly report; no contract of its own, its meaning is given by Reports.BucketsMeaning, Reports.BucketsWithinMonths and Reports.BucketsSnoc |
| Reports.MonthTotal | main.py:68-72 | the amount in one cell of the monthly report; no contract of its own, its meaning is given by Reports.MonthTotalSnoc and Reports.MonthTotalConcat |
| Reports.MonthlySnoc | main.py:70-72 | one more faultless row adds its month, its bucket under that month, and its amount to its own cell only |
| Reports.BucketsSnoc | main.py:70-72 | one more faultless row adds its bucket to its own month only |
| Reports.MonthTotalSnoc | main.py:70-72 | one more faultless row adds its amount to its own cell only |
| Reports.BucketsWithinMonths | main.py:72 | a month no row falls in has no bucket |
| Reports.MonthsMeaning | main.py:70-71 | a month key is in the report if and only if some row's due date gives it |
| Reports.BucketsMeaning | main.py:72 | "total_" + type appears under a month if and only if some row of that month has that type |
| Reports.MonthTotalConcat | main.py:70-72 | the totals of two ledgers placed one after the other are the sums of their totals |
| Reports.Recognised | main.py:131-133 | the type tests `== "débito"` and `== "crédito"`; no contract of its own |
| Reports.Categories | main.py:126-134 | the categories of the summary; no contract of its own, its meaning is given by Reports.CategoriesMeaning, Reports.CategorySnoc and Reports.OtherTypesIgnored |
| Reports.CategoryTotal | main.py:126-134 | the debit or credit total of one category; no contract of its own, its meaning is given by Reports.CategorySnoc and Reports.OtherTypesIgnored |
| Reports.CategorySnoc | main.py:128-134 | one more faultless row adds its category only when its type is debit or credit, and its amount to that type's total only |
| Reports.CategoriesMeaning | main.py:128-134 | a category is summarised if and only if some debit or credit row carries it |
| Reports.OtherTypesIgnored | main.py:131-134 | dropping every row of another type changes neither the categories nor any debit or credit total |
| Ledger.Merge | main.py:48 | `dict.update`: the merged row has the fields of both, each supplied field takes its supplied value, and every other field keeps its own |
| Ledger.DescriptionDiffers | main.py:56 | the test that keeps a row in a delete; no contract of its own, used by Ledger.Store.Delete |
| Ledger.Matches | main.py:114-118 | every criterion with a non-empty value equals the row's field ignoring case, a missing field reading as empty; no contract of its own, its properties are Ledger.SearchIgnoresCase and Ledger.SearchWithoutCriteria |
| Ledger.MatchesAll | main.py:114-118 | Ledger.Matches as a test on rows, for the filter of Ledger.Store.Search; no contract of its own |
| Ledger.Merged | main.py:46-50 | the update keeps the number of rows |
| Ledger.MergedAt | main.py:46-50 | row k becomes the merge of row k with the new data when its description is the key, and stays as it was otherwise; order is kept |
| Ledger.MergedFields | main.py:48 | field by field: a matching row takes every supplied value and keeps its other fields; other rows keep every field |
| Ledger.MergeTwice | main.py:48 | merging the same fields twice is merging them once |
| Ledger.UpdateIdempotent | main.py:39-52 | updating twice with the same key and data gives the same rows as updating once |
| Ledger.MergedSnoc | main.py:46-50 | updating one more row updates the prefix and then that row |
| Ledger.Described | main.py:47-49 | the `conta_atualizada` flag: some row's description is the key; no contract of its own, its step is Ledger.DescribedSnoc |
| Ledger.DescribedSnoc | main.py:47-49 | some row of the longer list matches the key if and only if the prefix has one or the new row matches |
| Ledger.MergedKeys | main.py:44-50 | supplied fields that the matching rows already have leave every row's field set as it was, so the rewritten file keeps its header |
| Ledger.UpdateWithoutMatch | main.py:46-52 | with no row matching the key, the update leaves every row as it was |
| Ledger.SearchIgnoresCase | main.py:115 | a criterion written in another case selects the same rows |
| Ledger.SearchWithoutCriteria | main.py:114-117 | criteria that are all empty select every row |
| Ledger.MergeInto | main.py:46-52 | the rows written by the update are the merged rows, and the result is true if and only if some row's description was the key |
| Ledger.SelectMatching | main.py:111-122 | the rows kept by the search loop are exactly the matching ones, in their order |
| Ledger.Tally | main.py:68-74 | fails if and only if some row has a fault, and then with the first row's fault; otherwise the months are Reports.Months, the buckets under each month are Reports.Buckets and every cell is Reports.MonthTotal of the rows |
| Ledger.Summarise | main.py:126-136 | fails if and only if some row has a fault, and then with the first row's fault; otherwise the categories are Reports.Categories and the debit and credit totals of each are Reports.CategoryTotal of the rows |
| Ledger.Cell | main.py:68 | a report cell, zero where the nested `defaultdict(float)` has no entry yet; no contract of its own |
| Ledger.Entry | main.py:126 | a summary entry, both totals zero where the `defaultdict` has no entry yet; no contract of its own |
| Ledger.AddTo | main.py:72 | adding an amount to a cell adds its month if it was not there and its bucket under that month; every other month is left as it was; the addressed cell grows by the amount and every other cell is unchanged |
| Ledger.Count | main.py:131-134 | counting a row adds its category only when its type is debit or credit; a debit adds its amount to that category's debit total and a credit to its credit total; every other category is unchanged |
| Ledger.ReportStep | main.py:70-72 | adding a faultless row's amount to its cell turns the report of a prefix into the report of the longer prefix |
| Ledger.AddToBuckets | main.py:72 | after adding a row's amount, the buckets under each month are those of the longer prefix |
| Ledger.AddToCells | main.py:72 | after adding a row's amount, every cell holds the total of the longer prefix |
| Ledger.ReportCells | main.py:72-74 | every cell of a report, read as nested maps, holds its total |
| Ledger.SummaryStep | main.py:128-134 | counting one faultless row turns the summary of a prefix into the summary of the longer prefix |
| Ledger.Store.constructor | main.py:30-36 | a ledger whose file is missing has no header and no rows |
| Ledger.Store.Append | main.py:21-26 | the record becomes the last row; an empty file first gets the record's keys as its header; the store stays valid |
| Ledger.Store.Load | main.py:28-37 | every row is read back, in file order; a missing file gives no rows |
| Ledger.Store.Update | main.py:39-52 | the rows become the merged rows; the result is true if and only if some row's description was the key; the header is the supplied keys when the file held no rows, and is kept otherwise |
| Ledger.Store.UpdateKeepingHeader | main.py:39-52 | as Ledger.Store.Update, except that the header is left as it was |
| Ledger.Store.Delete | main.py:54-64 | exactly the rows whose description differs from the key remain, in order; no remaining row has the key; the result is true if and only if some row had it; the header is kept whenever the file held rows |
| Ledger.Store.Search | main.py:109-122 | the result is the rows matching every non-empty criterion ignoring case, in file order |
| Ledger.Store.MonthlyReport | main.py:66-74 | fails if and only if some row has a fault, and then with the first row's fault; otherwise the months are Reports.Months, the buckets under each month are Reports.Buckets and every cell is Reports.MonthTotal of the rows |
| Ledger.Store.CategorySummary | main.py:124-136 | fails if and only if some row has a fault, and then with the first row's fault; otherwise the categories are Reports.Categories and the debit and credit totals of each are Reports.CategoryTotal of the rows |
| Scenarios.CreateThenList | main.py:21-37 | bills appended one by one to a new ledger are listed back in the same order, field for field |
| Scenarios.UpdateThenCreate | main.py:21-52 | with the corrected update, an update on a new ledger matches nothing, and a bill created afterwards is listed back whole |
| CsvRows.Line | main.py:26 | a written line holds one value per key of the dictionary |
| CsvRows.Read | main.py:31-33 | every header name is either bound to a text or left unfilled, never both; a line at least as long as the header leaves no name unfilled and as many values over as it is longer; a line no longer than the header leaves no value over |
| CsvRows.ReadValues | main.py:31-33 | with a header naming no field twice, each header name with a value is bound to the value in its own column, and the values over are the line's tail beyond the header |
| CsvRows.LineRoundTrip | main.py:21-37 | a dictionary written under a header of its own keys is read back unchanged, with no value over and no name unfilled |
| CsvRows.ShortHeaderMisreads | main.py:24-44 | a new bill written under the header `valor` reads back as the field `valor` holding the bill's type, with the other eight values over under no field name; it is not the bill |
| Scenarios.MonthlyExample | main.py:66-74 | a debit and a credit due in the same month give that month one bucket per type, each holding its own amount |
| Scenarios.CategoryExample | main.py:124-136 | a debit of 20 and a credit of 5 in one category give that category the debit total 20 and the credit total 5 |

## Left out

- The PDF report (`gerar_relatorio_pdf`, main.py:76-107). It only lays out the monthly report on a page, through an external drawing library.
- The interactive menu (main.py:139-242). This includes its `float()` of the amount before a record is created, so the model takes the amount as the text written to the file.
- CSV syntax, quoting and file I/O. The file is a header plus rows of field-name-to-text maps.
- Amounts are integers read by an abstract `parse`. Floating-point parsing and rounding of the sums are not modelled.
- `str.lower` beyond ASCII and Latin-1. The model lowers `A`-`Z` and U+00C0-U+00DE except U+00D7.
- Concurrent access, and a crash between truncating the file and rewriting it.
- The order of the keys of the reports. Python keeps first-seen order, which the PDF and the menu's category listing (main.py:229) use; the model returns maps.
- Ledger.Store.Append: requires the file's header to equal the record's key order. The program would otherwise write the row's values under the wrong column names.
- Ledger.Store.Append: requires a record with at least one field. An empty row is written as a blank line, which the CSV reader skips.
- Ledger.Store.Update: requires every row to have a description, and the supplied fields to be fields of every matching row. A row without a description makes the program raise `KeyError` after it has truncated the file. A supplied field that the first row lacks, when the first row matches, grows the header's live key view (main.py:44, main.py:48): nothing is raised, every row is written with more columns than the header, and the result is true. A supplied field that a later matching row lacks, when the first row does not match, raises `ValueError` after the file was truncated.
- Ledger.Store.UpdateKeepingHeader: has the same requires as Ledger.Store.Update, for the same reasons.
- Ledger.Store.Delete: requires every row to have a description. Otherwise the program raises `KeyError` before it writes.

## Findings

| source | as written | input that shows it | evidently intended | confidence | as-written member | corrected member |
|---|---|---|---|---|---|---|
| main.py:44 | an update on a missing or empty file writes a header made of the supplied fields only, and a bill created afterwards is appended under that header (main.py:24) | update any description with `{"valor": "50"}` on a new ledger, then create a bill: it is listed back as `{"valor": <its type>, None: [<its other eight values>]}` | an update that matches nothing leaves an empty ledger without a header, so the next bill writes the nine field names | medium, not executed | Ledger.Store.Update, CsvRows.ShortHeaderMisreads | Ledger.Store.UpdateKeepingHeader, Scenarios.UpdateThenCreate |
