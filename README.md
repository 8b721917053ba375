# Invoice reconciliation (ITC match) in Dafny

A model of `main.py`, the engine that reconciles input-tax-credit invoices.
It compares the invoices in the government's GSTN ledger with those in the
company's BOOKS ledger. Each ledger is a sheet of rows. A row carries the
supplier's tax identifier (`GSTN`), an invoice number, an invoice date and
five tax amounts.

The engine works in these steps:

1. Drop the rows that lack a party or an invoice number.
2. Give every remaining row a normalised invoice key: the invoice number with its ASCII letters deleted.
3. Fully outer-join the two ledgers on (party, key).
4. Flag the matched pairs whose zero-filled tax amounts differ (`MIS_MATCHED`).
5. Split the GSTN-only rows at a date cutoff into previous-fiscal-year (`PREV_FY_ITC`) and not-in-books (`NOTINBOOKS`) rows.
6. Take the BOOKS-only rows as `NEXT_FY_ITC`.
7. Choose and rename the columns of each result sheet, and write every result that has rows and columns.

Modules, one concept each:

- `Seqs` (`seqs.dfy`): the two sequence operations the pipeline is made of, a mask filter and an element-wise map, with their algebra.
- `Ledger` (`ledger.dfy`): rows, keyed rows, sheets, diagnostics, and the column names and constants.
- `Strings` (`strings.dfy`): `endswith`, substring search, and `str.replace(p, "")`.
- `Normalizer` (`normalizer.dfy`): `clean_invoice_number`.
- `RecordFilter` (`record_filter.dfy`): the two preparation pipelines.
- `Matcher` (`matcher.dfy`): the outer join and its three `_merge` categories.
- `Mismatch` (`mismatch.dfy`): `add_mismatch_flag`, a loop over the tax columns.
- `Calendar` (`calendar.dfy`): calendar dates as day numbers, the order `pd.Timestamp` compares them in.
- `Period` (`period.dfy`): `categorize_gstn`, a loop over the GSTN-only rows.
- `Columns` (`columns.dfy`):
  - the joined header;
  - the two regular-expression column filters;
  - `clean_columns`, a loop over the header.
- `Reconcile` (`reconcile.dfy`): the whole run, and the export gate.

How the model represents the data:

- Dates are day numbers: days since 1970-01-01 in the Gregorian calendar (`Calendar.DayNumber`). The default cutoff is the day number of 2024-04-01.
- Amounts are exact `real`s. An empty cell is a missing map entry, read as 0.
- The messages the source prints are returned as a sequence of `Diagnostic`s.

Where the code and its description differ, the model follows the code:

- An invoice number made only of letters normalises to the empty string. The empty string is a present key, not a missing one. Such a row is therefore kept, and it matches every other empty key of the same party (`RecordFilter.EmptyKeySurvives`, `Reconcile.AllLetterNumbersMatch`).
- The cutoff is a parameter of `categorize_gstn` (`Period.CategorizeGstn`). The run uses its default, 2024-04-01 (`Period.DefaultCutoff`), in `Reconcile.Reconcile`. It is not derived from the current fiscal year.
- No column is moved when the `NEXT_FY_ITC` sheet is written; the columns keep the joined order.
- The period classifier reads the `Invoice Date_gstn` column. When one of the ledgers lacks an `Invoice Date` column, that column does not exist. Every GSTN-only row is then reported as undated and goes to `NOTINBOOKS` (`Reconcile.DateColumnIff`).

## Model

| member | source | states |
|---|---|---|
| Normalizer.CleanInvoiceNumber | main.py:56-61 | the key is missing exactly when the invoice number is missing; a present key is no longer than the number and holds no ASCII letter |
| Normalizer.StripLetters | main.py:61 | the result holds exactly the non-letter characters of the input, and no letter |
| Normalizer.StripLettersCount | main.py:61 | each non-letter character keeps its multiplicity; letters occur zero times |
| Normalizer.StripLettersAppend | main.py:61 | deletion works piecewise, so the kept characters stay in input order |
| Normalizer.StripLettersLetterFree | main.py:61 | a letter-free string is its own key |
| Normalizer.CleanInvoiceNumberIdempotent | main.py:56-61 | normalising a key again changes nothing |
| Normalizer.AllLettersGiveEmptyKey | main.py:58-61 | an all-letter invoice number gives the present, empty key |
| Normalizer.SeriesLettersIgnored | main.py:56-61 | letters before and after a letter-free number leave that number as the key (`INV001A` gives `001`) |
| Normalizer.NonLettersDistinguish | main.py:56-61 | numbers holding a non-letter character a different number of times get different keys (`inv-001-a` and `INV001A` do not match) |
| RecordFilter.Prepare | main.py:65-83 | every surviving row comes from the ledger, has a party and an invoice number, and carries the letter-stripped number as its key |
| RecordFilter.SecondDropRemovesNothing | main.py:72 | dropping rows with a missing key removes nothing more, because identified rows always get a key |
| RecordFilter.PrepareCount | main.py:65-83 | a row survives, once per copy, exactly when it has a party and an invoice number |
| RecordFilter.PrepareAppend | main.py:65-83 | preparation is row by row, so the ledger order is kept |
| RecordFilter.EmptyKeySurvives | main.py:68-72 | an identified row whose number is all letters survives with the empty key |
| RecordFilter.AssignedColumns | main.py:68-71 | both key columns are in the new header, which extends the old one by at most two columns |
| RecordFilter.PrepareSheet | main.py:65-83 | preparation fails exactly when the sheet lacks `GSTN` or `Invoice Number`; otherwise the rows are the prepared rows and the header is extended |
| Matcher.Partners | main.py:86-93 | a GSTN row has no partners exactly when no BOOKS row shares its party and key |
| Matcher.UnmatchedSides | main.py:86-96 | the `left_only` rows are the GSTN rows without a partner, and the `right_only` rows are the BOOKS rows without a partner, each in the model's join order (ledger order) |
| Matcher.BothCount | main.py:86-96 | the pair (g, b) occurs in `both` (copies of g) × (copies of b) times when the rows share party and key, and never otherwise |
| Matcher.GstnRowCategory | main.py:86-96 | a GSTN row is `left_only` exactly when no BOOKS row shares its key, and is paired in `both` with each BOOKS row that does |
| Matcher.BooksRowCategory | main.py:86-96 | a BOOKS row is `right_only` exactly when no GSTN row shares its key, and is paired in `both` with each GSTN row that does |
| Mismatch.AddMatchColumns | main.py:110-117 | one `_Match` column per comparable tax column of the checked list, in checking order, and one warning per other column of the list |
| Mismatch.AddMismatchFlag | main.py:99-125 | for the checked tax list (the pipeline passes the five tax columns): no flag column exactly when no listed column is comparable; otherwise a row is flagged exactly when some comparable listed column differs after zero-filling; the warnings name the skipped columns |
| Mismatch.WarningsNameUncomparable | main.py:110-113 | a tax column is warned about exactly when it lacks its `_gstn` or its `_books` copy |
| Mismatch.MatchColumnsDecide | main.py:120-122 | all `_Match` cells of a row are true exactly when no comparable tax column differs |
| Mismatch.DifferenceShows | main.py:115-122 | a comparable tax column whose amounts differ leaves a false `_Match` cell in that row |
| Mismatch.AgreementShows | main.py:115-122 | when no comparable tax column differs, every `_Match` cell of the row is true |
| Mismatch.FullSchemaMismatch | main.py:99-125 | when all five tax columns are comparable, a pair is flagged exactly when the zero-filled tax vectors differ |
| Period.CategorizeGstn | main.py:132-151 | the previous-FY list is the rows dated before the cutoff, and the not-in-books list is all other rows, each in input order; one diagnostic per undated row |
| Period.CategorizeCount | main.py:137-149 | every copy of every row goes to exactly one of the two lists |
| Period.CategorizeAppend | main.py:137-149 | both lists keep the input order |
| Period.CutoffBoundary | main.py:139-149 | a row dated on the cutoff day, or not dated, is in the not-in-books list and not in the previous-FY list |
| Period.DefaultCutoffIsCalendarOrder | main.py:132-141 | with the default cutoff, a row dated on a calendar day is a previous-year row exactly when that day comes before 2024-04-01 |
| Calendar.DayNumberOrder | main.py:139-141 | day numbers order valid dates exactly as the calendar does, so comparing them is comparing the timestamps |
| Calendar.NextDayNumber | main.py:139-141 | the day after a valid date is valid and has the next day number, across month ends, leap days and year ends |
| Calendar.YearStep | main.py:139-141 | a year contributes 366 days exactly when it is a Gregorian leap year, 365 otherwise |
| Period.DiagnosticsNameUndated | main.py:145-148 | a diagnostic is reported exactly for an undated row, naming its party and original invoice number |
| Columns.MergedColumns | main.py:86-93 | the joined header has one column per GSTN column, one per non-key BOOKS column, and ends with `_merge` |
| Columns.GstnCopyIff | main.py:86-93 | `<c>_gstn` is in the joined header exactly when both ledgers have the non-key column `c` |
| Columns.BooksCopyIff | main.py:86-93 | `<c>_books` is in the joined header exactly when both ledgers have the non-key column `c` |
| Columns.NextFyColumns | main.py:159-161 | the `NEXT_FY_ITC` header is the joined columns the `right_only` pattern accepts, in order |
| Columns.UnmatchedColumns | main.py:165-167 | the GSTN-only header is the joined columns the `left_only` pattern accepts, in order |
| Columns.NextFyKeepsIff | main.py:159-161 | for a name without newlines, the `right_only` pattern holds exactly when the name contains `GSTN` or `InvoiceNumber_original_books`, or contains neither `_clean` nor `_gstn` |
| Columns.UnmatchedKeepsIff | main.py:165-167 | for a name without newlines, the `left_only` pattern holds exactly when the name contains `GSTN` or `InvoiceNumber_original_gstn`, or does not contain `_books` |
| Columns.TemperedRunIff | main.py:159-167 | for newline-free text, the anchored negative-lookahead alternative is the absence of every banned word |
| Columns.EmbeddedNewlineDropped | main.py:159-167 | a name with a newline before its last character fails the anchored alternative of both patterns |
| Columns.GstnCopyFiltered | main.py:159-167 | the GSTN copy of a plain column is dropped from `NEXT_FY_ITC` and kept for the GSTN-only rows |
| Columns.BooksCopyFiltered | main.py:159-167 | the BOOKS copy of a plain column is kept in `NEXT_FY_ITC` and dropped for the GSTN-only rows |
| Columns.UnsuffixedKept | main.py:159-167 | a plain column that only one ledger has is kept by both patterns |
| Columns.CleanColumns | main.py:18-43 | the written header is the kept columns, in order, under their new names |
| Columns.CleanedHeaderAppend | main.py:21-43 | the header is cleaned column by column, so the kept columns keep their relative order |
| Columns.RenameCopy | main.py:34-39 | a `_books` or `_gstn` copy is renamed back to the column's own name |
| Columns.CopiesSurvive | main.py:22-39 | `MATCHED` keeps only the GSTN copies, `NEXT_FY_ITC` only the BOOKS copies, and the two GSTN-only sheets keep both |
| Strings.RemoveAll | main.py:34-39 | removal never lengthens the name and leaves a name without the pattern unchanged |
| Strings.RemoveAllSuffix | main.py:34-39 | deleting every occurrence of a border-free suffix from `x + suffix` gives `x` back when `x` does not contain it |
| Reconcile.Reconcile | main.py:65-169 | the run fails exactly when a ledger lacks a key column; otherwise it reports each result as the join categories, the period split, the flags and the diagnostics, in that chain, and writes what the export gate passes |
| Reconcile.Export | main.py:175-179 | the sheets written are the present, non-empty results, in dictionary order, each with its cleaned header |
| Reconcile.WrittenWhenNonEmpty | main.py:175-176 | every result that is present and has rows and columns is written |
| Reconcile.WrittenOnlyWhenNonEmpty | main.py:175-176 | every written sheet comes from a result that is present and has rows and columns |
| Reconcile.ExportedInOrder | main.py:175-179 | the sheets are written in dictionary order |
| Reconcile.AllLetterNumbersMatch | main.py:56-93 | two identified rows of one party whose invoice numbers are all letters both get the empty key and are paired by the join |
| Reconcile.GstnRowAccounted | main.py:165-169 | a GSTN row with a BOOKS partner is in neither period list; any other row is in exactly one of them, once per copy |
| Reconcile.BooksRowAccounted | main.py:159-161 | a BOOKS row without a GSTN partner is in `NEXT_FY_ITC` once per copy; a matched one is not |
| Reconcile.TaxComparableIff | main.py:110-113 | a tax column is compared exactly when both ledgers carry it |
| Reconcile.DateColumnIff | main.py:138 | the period classifier sees an invoice date exactly when both ledgers have an `Invoice Date` column |

## Left out

- Excel I/O is not modelled:
  - reading the workbook (`main.py:9-15`) and writing the sheets (`main.py:172-179`);
  - creating the output directory (`main.py:6-7`);
  - the commented-out second export (`main.py:182-189`).
- The date formatting in `clean_columns` (`main.py:45-51`) is left out: it is library behaviour. So is the `KeyError` it raises when a written sheet has no `Invoice Date` or no `gstr1_filing_date` column. The model stops at the cleaned header.
- Date parsing is not modelled. Dates are ordered integers, so an unparsable date cell (which makes `pd.to_datetime` raise) is not modelled.
- Number handling is not modelled. This covers float coercion of the tax amounts (`main.py:115-117`), `str()` of a numeric invoice number (`main.py:61`) and NaN comparisons. Amounts are exact reals and invoice numbers are strings.
- Reconcile.Reconcile: row order and diagnostic order are the model's, not pandas'. The model joins left to right: GSTN rows in ledger order, each followed by its partners, then the unmatched BOOKS rows. pandas sorts the keys of an outer join lexicographically, so its `MATCHED`, `PREV_FY_ITC`, `NOTINBOOKS` and `NEXT_FY_ITC` rows and the missing-date messages come in key order. Only the category of every row and the multiplicity of every pair carry over to pandas (`Matcher.BothCount`, `Reconcile.GstnRowAccounted`, `Reconcile.BooksRowAccounted`).
- Matcher.UnmatchedSides: the `left_only` and `right_only` sequences are in ledger order, the model's join order. In pandas they come sorted by (party, key). Only their contents, counted with multiplicity, carry over.
- Reconcile.Reconcile: a header with a duplicated column name is not modelled. In pandas this can make the merge, the `_merge` indicator or the drop in `clean_columns` fail.
- Reconcile.MatchedHeader drops the one trailing `_merge` column rather than every column of that name.
- Rows do not record the cells of the columns the model does not use (dates beyond `Invoice Date`, free-text columns). The column filters and `clean_columns` are modelled on headers, and rows keep their values unchanged.
- `print` is replaced by the returned `Diagnostic` sequence.
