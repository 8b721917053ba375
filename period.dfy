/** The period classifier (`categorize_gstn`): the GSTN rows no BOOKS row
    matched are walked in order; a row dated before the cutoff belongs to a
    previous fiscal year, any other row is "not in books". A row without a
    date is "not in books" too, and is reported so that someone can look at
    it. */
module Period {
  import opened Ledger
  import opened Seqs
  import opened Calendar

  /** `cutoff_date="2024-04-01"`, the default of `categorize_gstn`: the start
      of the 2024-25 fiscal year. */
  const CutoffDate: Date := Date(2024, 4, 1)

  const DefaultCutoff: int := DayNumber(CutoffDate)

  /** The date column of a GSTN row in the joined header. */
  const DateColumn: string := "Invoice Date_gstn"

  /** `row.get("Invoice Date_gstn")`: the row's date, or nothing when the
      header has no such column. */
  function InvoiceDate(columns: seq<string>, k: Keyed): Option<int> {
    if DateColumn in columns then k.row.date else None
  }

  /** The row is dated strictly before the cutoff. */
  predicate IsPrior(columns: seq<string>, cutoff: int, k: Keyed) {
    var d := InvoiceDate(columns, k);
    d.Some? && d.value < cutoff
  }

  function PriorIn(columns: seq<string>, cutoff: int): Keyed -> bool {
    k => IsPrior(columns, cutoff, k)
  }

  function PendingIn(columns: seq<string>, cutoff: int): Keyed -> bool {
    k => !IsPrior(columns, cutoff, k)
  }

  /** The report for an undated row names its party and its original invoice number. */
  function DateDiagnostic(k: Keyed): Diagnostic {
    MissingInvoiceDate(k.row.party, k.row.invoice)
  }

  /** One report per undated row, in row order. */
  function DateDiagnostics(columns: seq<string>, rows: seq<Keyed>): seq<Diagnostic> {
    if rows == [] then []
    else
      var k := rows[|rows| - 1];
      DateDiagnostics(columns, rows[..|rows| - 1]) + if InvoiceDate(columns, k).None? then [DateDiagnostic(k)] else []
  }

  /** The two lists as the loop builds them, one row at a time. */
  function Split(columns: seq<string>, cutoff: int, rows: seq<Keyed>): (seq<Keyed>, seq<Keyed>) {
    if rows == [] then ([], [])
    else
      var k := rows[|rows| - 1];
      var (prior, pending) := Split(columns, cutoff, rows[..|rows| - 1]);
      if IsPrior(columns, cutoff, k) then (prior + [k], pending) else (prior, pending + [k])
  }

  /** The row-at-a-time lists are the rows before the cutoff and all the
      others, each in input order. */
  lemma {:induction false} SplitFilters(columns: seq<string>, cutoff: int, rows: seq<Keyed>)
    ensures Split(columns, cutoff, rows).0 == Filter(rows, PriorIn(columns, cutoff))
    ensures Split(columns, cutoff, rows).1 == Filter(rows, PendingIn(columns, cutoff))
  {
    if rows != [] {
      var init, k := rows[..|rows| - 1], rows[|rows| - 1];
      SplitFilters(columns, cutoff, init);
      assert rows == init + [k];
      FilterSnoc(init, k, PriorIn(columns, cutoff));
      FilterSnoc(init, k, PendingIn(columns, cutoff));
      var before := Split(columns, cutoff, init);
      assert Split(columns, cutoff, rows) ==
             if IsPrior(columns, cutoff, k) then (before.0 + [k], before.1) else (before.0, before.1 + [k]);
    }
  }

  /** The two lists are the rows before the cutoff and all the others, each in
      input order, and every undated row is reported once. */
  method CategorizeGstn(columns: seq<string>, rows: seq<Keyed>, cutoff: int)
    returns (prevFy: seq<Keyed>, notInBooks: seq<Keyed>, diagnostics: seq<Diagnostic>)
    ensures prevFy == Filter(rows, PriorIn(columns, cutoff))
    ensures notInBooks == Filter(rows, PendingIn(columns, cutoff))
    ensures diagnostics == DateDiagnostics(columns, rows)
  {
    prevFy, notInBooks, diagnostics := [], [], [];
    for i := 0 to |rows|
      invariant (prevFy, notInBooks) == Split(columns, cutoff, rows[..i])
      invariant diagnostics == DateDiagnostics(columns, rows[..i])
    {
      var row := rows[i];
      assert rows[..i + 1][..i] == rows[..i];
      var date := if DateColumn in columns then row.row.date else None;
      if date.Some? {
        if date.value < cutoff {
          prevFy := prevFy + [row];
        } else {
          notInBooks := notInBooks + [row];
        }
      } else {
        diagnostics := diagnostics + [MissingInvoiceDate(row.row.party, row.row.invoice)];
        notInBooks := notInBooks + [row];
      }
    }
    assert rows[..|rows|] == rows;
    SplitFilters(columns, cutoff, rows);
  }

  /** Every copy of every row goes to exactly one of the two lists. */
  lemma CategorizeCount(columns: seq<string>, rows: seq<Keyed>, cutoff: int, k: Keyed)
    ensures multiset(Filter(rows, PriorIn(columns, cutoff)))[k] + multiset(Filter(rows, PendingIn(columns, cutoff)))[k]
            == multiset(rows)[k]
    ensures IsPrior(columns, cutoff, k) ==> multiset(Filter(rows, PendingIn(columns, cutoff)))[k] == 0
    ensures !IsPrior(columns, cutoff, k) ==> multiset(Filter(rows, PriorIn(columns, cutoff)))[k] == 0
  {
    FilterCount(rows, PriorIn(columns, cutoff), k);
    FilterCount(rows, PendingIn(columns, cutoff), k);
  }

  /** Classification is row by row, so both lists keep the input order. */
  lemma CategorizeAppend(columns: seq<string>, a: seq<Keyed>, b: seq<Keyed>, cutoff: int)
    ensures Filter(a + b, PriorIn(columns, cutoff)) == Filter(a, PriorIn(columns, cutoff)) + Filter(b, PriorIn(columns, cutoff))
    ensures Filter(a + b, PendingIn(columns, cutoff)) == Filter(a, PendingIn(columns, cutoff)) + Filter(b, PendingIn(columns, cutoff))
  {
    FilterAppend(a, b, PriorIn(columns, cutoff));
    FilterAppend(a, b, PendingIn(columns, cutoff));
  }

  /** The cutoff day itself is not a previous-year date, and neither is a
      missing date. */
  lemma CutoffBoundary(columns: seq<string>, rows: seq<Keyed>, cutoff: int, k: Keyed)
    requires k in rows
    requires InvoiceDate(columns, k) == Some(cutoff) || InvoiceDate(columns, k).None?
    ensures k in Filter(rows, PendingIn(columns, cutoff))
    ensures k !in Filter(rows, PriorIn(columns, cutoff))
  {
  }

  /** Exactly the undated rows are reported, each with its own party and number. */
  lemma {:induction false} DiagnosticsNameUndated(columns: seq<string>, rows: seq<Keyed>, d: Diagnostic)
    ensures d in DateDiagnostics(columns, rows) <==>
            exists k <- rows :: InvoiceDate(columns, k).None? && d == DateDiagnostic(k)
  {
    if rows != [] {
      var init := rows[..|rows| - 1];
      DiagnosticsNameUndated(columns, init, d);
      assert rows == init + [rows[|rows| - 1]];
    }
  }

  /** With the default cutoff, a row dated on a calendar day is a
      previous-year row exactly when that day comes before 2024-04-01. */
  lemma DefaultCutoffIsCalendarOrder(columns: seq<string>, k: Keyed, dt: Date)
    requires DateColumn in columns
    requires ValidDate(dt) && k.row.date == Some(DayNumber(dt))
    ensures IsPrior(columns, DefaultCutoff, k) <==> Before(dt, CutoffDate)
  {
    DayNumberOrder(dt, CutoffDate);
  }
}
