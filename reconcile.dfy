/** The whole run, from the two loaded sheets to the headers of the sheets
    written back: prepare both ledgers, join them, flag the matched pairs
    whose taxes differ, split the GSTN-only rows by period, choose the columns
    of each result and write every result that has rows and columns. */
module Reconcile {
  import opened Ledger
  import opened Seqs
  import opened Normalizer
  import opened RecordFilter
  import opened Matcher
  import opened Mismatch
  import opened Period
  import opened Columns

  /** The name of the flag column added to the matched sheet. */
  const FlagColumn: string := "MIS_MATCHED"

  /** A result frame, by its header and its number of rows. */
  datatype Table = Table(columns: seq<string>, height: nat)

  /** One entry of the `result` dictionary. */
  datatype Bucket = Bucket(sheet: SheetName, table: Option<Table>)

  /** What a run produces: the rows of each result, the flag column of the
      matched rows, the headers of the sheets written, and the messages. */
  datatype Report = Report(
    matched: seq<Merged>,
    misMatched: Option<seq<bool>>,
    prevFy: seq<Keyed>,
    notInBooks: seq<Keyed>,
    nextFy: seq<Keyed>,
    buckets: seq<Bucket>,
    written: seq<(SheetName, seq<string>)>,
    diagnostics: seq<Diagnostic>)

  /** `df.empty`: no rows or no columns. */
  predicate IsEmpty(t: Table) {
    t.height == 0 || t.columns == []
  }

  /** `df is not None and not df.empty`. */
  predicate IsWritten(b: Bucket) {
    b.table.Some? && !IsEmpty(b.table.value)
  }

  function IsWrittenFn(): Bucket -> bool {
    b => IsWritten(b)
  }

  /** The sheet name and the cleaned header a bucket is written with. */
  function CleanBucket(b: Bucket): (SheetName, seq<string>) {
    (b.sheet, if b.table.Some? then CleanedHeader(b.sheet, b.table.value.columns) else [])
  }

  /** What the export loop writes, in dictionary order. */
  function Exported(buckets: seq<Bucket>): seq<(SheetName, seq<string>)> {
    Map(Filter(buckets, IsWrittenFn()), CleanBucket)
  }

  /** The export loop: each bucket that is present and not empty has its
      columns cleaned and is written. */
  method Export(buckets: seq<Bucket>) returns (written: seq<(SheetName, seq<string>)>)
    ensures written == Exported(buckets)
  {
    written := [];
    for i := 0 to |buckets|
      invariant written == Exported(buckets[..i])
    {
      var b := buckets[i];
      assert buckets[..i + 1] == buckets[..i] + [b];
      FilterSnoc(buckets[..i], b, IsWrittenFn());
      MapAppend(Filter(buckets[..i], IsWrittenFn()), if IsWritten(b) then [b] else [], CleanBucket);
      if b.table.Some? && !(b.table.value.height == 0 || b.table.value.columns == []) {
        var header := CleanColumns(b.sheet, b.table.value.columns);
        written := written + [(b.sheet, header)];
      }
    }
    assert buckets[..|buckets|] == buckets;
  }

  /** A bucket that is present, has a row and has a column is written. */
  lemma WrittenWhenNonEmpty(buckets: seq<Bucket>, i: nat)
    requires i < |buckets| && IsWritten(buckets[i])
    ensures CleanBucket(buckets[i]) in Exported(buckets)
  {
    var kept := Filter(buckets, IsWrittenFn());
    assert buckets[i] in buckets;
    var j :| 0 <= j < |kept| && kept[j] == buckets[i];
    assert Exported(buckets)[j] == CleanBucket(buckets[i]);
  }

  /** Every written sheet comes from a bucket that is present and not empty. */
  lemma WrittenOnlyWhenNonEmpty(buckets: seq<Bucket>, w: (SheetName, seq<string>))
    requires w in Exported(buckets)
    ensures exists b <- buckets :: IsWritten(b) && w == CleanBucket(b)
  {
    var kept := Filter(buckets, IsWrittenFn());
    var j :| 0 <= j < |kept| && Exported(buckets)[j] == w;
    assert kept[j] in kept;
  }

  /** The sheets are written in dictionary order. */
  lemma ExportedInOrder(a: seq<Bucket>, b: seq<Bucket>)
    ensures Exported(a + b) == Exported(a) + Exported(b)
  {
    FilterAppend(a, b, IsWrittenFn());
    MapAppend(Filter(a, IsWrittenFn()), Filter(b, IsWrittenFn()), CleanBucket);
  }

  /** Both ledgers have the columns the row filter drops by. */
  predicate Loadable(gstn: Sheet, books: Sheet) {
    PartyColumn in gstn.columns && InvoiceColumn in gstn.columns &&
    PartyColumn in books.columns && InvoiceColumn in books.columns
  }

  /** The header of the joined frame. */
  function JoinedHeader(gstn: Sheet, books: Sheet): seq<string> {
    MergedColumns(AssignedColumns(gstn.columns), AssignedColumns(books.columns))
  }

  /** The joined rows. */
  function Joined(gstn: Sheet, books: Sheet): seq<Merged> {
    OuterJoin(Prepare(gstn.rows), Prepare(books.rows))
  }

  /** The header of the matched frame: the joined header without `_merge`,
      with the flag column when one was added. */
  function MatchedHeader(header: seq<string>, flagged: bool): seq<string> {
    (if |header| > 0 then header[..|header| - 1] else []) + if flagged then [FlagColumn] else []
  }

  /** `pd.DataFrame(rows)`: a frame built from no rows has no columns either. */
  function FrameOf(header: seq<string>, rows: seq<Keyed>): Table {
    Table(if rows == [] then [] else header, |rows|)
  }

  method Reconcile(gstn: Sheet, books: Sheet) returns (r: Result<Report>)
    ensures r.Failure? <==> !Loadable(gstn, books)
    ensures r.Success? ==> r.value.matched == BothRows(Joined(gstn, books))
    ensures r.Success? ==> r.value.nextFy == RightOnlyRows(Joined(gstn, books))
    ensures r.Success? ==>
      r.value.prevFy == Filter(LeftOnlyRows(Joined(gstn, books)), PriorIn(UnmatchedColumns(JoinedHeader(gstn, books)), DefaultCutoff)) &&
      r.value.notInBooks == Filter(LeftOnlyRows(Joined(gstn, books)), PendingIn(UnmatchedColumns(JoinedHeader(gstn, books)), DefaultCutoff))
    ensures r.Success? ==>
      (r.value.misMatched.None? <==> forall t <- TaxColumns :: !Comparable(JoinedHeader(gstn, books), t))
    ensures r.Success? && r.value.misMatched.Some? ==>
      |r.value.misMatched.value| == |r.value.matched| &&
      forall i :: 0 <= i < |r.value.matched| ==>
        r.value.misMatched.value[i] == Mismatched(JoinedHeader(gstn, books), r.value.matched[i])
    ensures r.Success? ==>
      r.value.diagnostics == MissingTaxWarnings(TaxColumns, JoinedHeader(gstn, books)) +
                             DateDiagnostics(UnmatchedColumns(JoinedHeader(gstn, books)), LeftOnlyRows(Joined(gstn, books)))
    ensures r.Success? ==> |r.value.buckets| == 4 && r.value.written == Exported(r.value.buckets)
    ensures r.Success? ==>
      r.value.buckets[0] == Bucket(Matched, Some(Table(MatchedHeader(JoinedHeader(gstn, books), r.value.misMatched.Some?), |r.value.matched|))) &&
      r.value.buckets[1] == Bucket(PrevFyItc, Some(FrameOf(UnmatchedColumns(JoinedHeader(gstn, books)), r.value.prevFy))) &&
      r.value.buckets[2] == Bucket(NotInBooks, Some(FrameOf(UnmatchedColumns(JoinedHeader(gstn, books)), r.value.notInBooks))) &&
      r.value.buckets[3] == Bucket(NextFyItc, Some(Table(NextFyColumns(JoinedHeader(gstn, books)), |r.value.nextFy|)))
  {
    var g := PrepareSheet(gstn);
    var b := PrepareSheet(books);
    if g.Failure? || b.Failure? {
      return Failure("KeyError: a ledger has no GSTN or no Invoice Number column");
    }
    var header := MergedColumns(g.value.columns, b.value.columns);
    var joined := OuterJoin(g.value.rows, b.value.rows);
    var matched := BothRows(joined);
    var flags, warnings := AddMismatchFlag(TaxColumns, header, matched);
    var nextFy := RightOnlyRows(joined);
    var unmatchedHeader := UnmatchedColumns(header);
    var prevFy, notInBooks, dateDiagnostics := CategorizeGstn(unmatchedHeader, LeftOnlyRows(joined), DefaultCutoff);
    var buckets := [
      Bucket(Matched, Some(Table(MatchedHeader(header, flags.Some?), |matched|))),
      Bucket(PrevFyItc, Some(FrameOf(unmatchedHeader, prevFy))),
      Bucket(NotInBooks, Some(FrameOf(unmatchedHeader, notInBooks))),
      Bucket(NextFyItc, Some(Table(NextFyColumns(header), |nextFy|)))
    ];
    var written := Export(buckets);
    r := Success(Report(matched, flags, prevFy, notInBooks, nextFy, buckets, written, warnings + dateDiagnostics));
  }

  /** Two identified rows of the same party whose invoice numbers are all
      letters both get the empty key, and the join pairs them. */
  lemma AllLetterNumbersMatch(gstn: seq<Row>, books: seq<Row>, g: Row, b: Row)
    requires g in gstn && b in books
    requires Identified(g) && Identified(b) && g.party == b.party
    requires forall c <- g.invoice.value :: IsAsciiLetter(c)
    requires forall c <- b.invoice.value :: IsAsciiLetter(c)
    ensures AssignKey(g).key == Some("") && AssignKey(b).key == Some("")
    ensures Both(AssignKey(g), AssignKey(b)) in OuterJoin(Prepare(gstn), Prepare(books))
  {
    AllLettersGiveEmptyKey(g.invoice.value);
    AllLettersGiveEmptyKey(b.invoice.value);
    PrepareCount(gstn, g);
    PrepareCount(books, b);
    assert AssignKey(g) in Prepare(gstn);
    assert AssignKey(b) in Prepare(books);
    GstnRowCategory(Prepare(gstn), Prepare(books), AssignKey(g));
  }

  /** Every copy of a prepared GSTN row is accounted for: a row some BOOKS row
      shares its key with lands in neither period list (it is matched), any
      other row lands in exactly one of them, once per copy. */
  lemma GstnRowAccounted(gstnRows: seq<Keyed>, booksRows: seq<Keyed>, columns: seq<string>, cutoff: int, k: Keyed)
    ensures
      var unmatched := LeftOnlyRows(OuterJoin(gstnRows, booksRows));
      multiset(Filter(unmatched, PriorIn(columns, cutoff)))[k] + multiset(Filter(unmatched, PendingIn(columns, cutoff)))[k]
        == if NoPartnerIn(booksRows)(k) then multiset(gstnRows)[k] else 0
  {
    UnmatchedSides(gstnRows, booksRows);
    var unmatched := LeftOnlyRows(OuterJoin(gstnRows, booksRows));
    CategorizeCount(columns, unmatched, cutoff, k);
    FilterCount(gstnRows, NoPartnerIn(booksRows), k);
  }

  /** Every copy of a prepared BOOKS row no GSTN row matched goes to
      `NEXT_FY_ITC`; a matched one does not. */
  lemma BooksRowAccounted(gstnRows: seq<Keyed>, booksRows: seq<Keyed>, k: Keyed)
    ensures multiset(RightOnlyRows(OuterJoin(gstnRows, booksRows)))[k] ==
            if Unpartnered(gstnRows, k) then multiset(booksRows)[k] else 0
  {
    UnmatchedSides(gstnRows, booksRows);
    FilterCount(booksRows, UnpartneredIn(gstnRows), k);
  }

  /** The sheets do not already carry suffixed copies of column `t`. */
  predicate NoSuffixedCopies(gstn: Sheet, books: Sheet, t: string) {
    t + GstnSuffix !in gstn.columns && t + GstnSuffix !in books.columns &&
    t + BooksSuffix !in gstn.columns && t + BooksSuffix !in books.columns
  }

  /** The assigned key columns are neither a plain ledger column nor a copy of one. */
  lemma AssignedColumnsKeep(columns: seq<string>, t: string)
    requires PlainName(t)
    ensures t in AssignedColumns(columns) <==> t in columns
    ensures t + GstnSuffix in AssignedColumns(columns) <==> t + GstnSuffix in columns
    ensures t + BooksSuffix in AssignedColumns(columns) <==> t + BooksSuffix in columns
  {
    var g, b := t + GstnSuffix, t + BooksSuffix;
    assert CleanKeyColumn[7] == 'N' && OriginalColumn[7] == 'N';
    if |t| > 7 {
      assert g[7] == t[7] && b[7] == t[7] && t[7] in t;
    } else {
      assert |g| < |CleanKeyColumn| && |b| < |CleanKeyColumn| && |CleanKeyColumn| < |OriginalColumn|;
    }
  }

  /** A tax column is compared exactly when both ledgers carry it. */
  lemma TaxComparableIff(gstn: Sheet, books: Sheet, t: string)
    requires t in TaxColumns && NoSuffixedCopies(gstn, books, t)
    ensures Comparable(JoinedHeader(gstn, books), t) <==> t in gstn.columns && t in books.columns
  {
    LedgerNamesPlain();
    AssignedColumnsKeep(gstn.columns, t);
    AssignedColumnsKeep(books.columns, t);
    assert NotKey(t);
    GstnCopyIff(AssignedColumns(gstn.columns), AssignedColumns(books.columns), t);
    BooksCopyIff(AssignedColumns(gstn.columns), AssignedColumns(books.columns), t);
  }

  /** The period classifier sees an invoice date exactly when both ledgers
      have an `Invoice Date` column; otherwise every GSTN-only row is
      reported as undated and goes to `NOTINBOOKS`. */
  lemma DateColumnIff(gstn: Sheet, books: Sheet)
    requires NoSuffixedCopies(gstn, books, "Invoice Date")
    ensures DateColumn in UnmatchedColumns(JoinedHeader(gstn, books)) <==>
            "Invoice Date" in gstn.columns && "Invoice Date" in books.columns
  {
    var t := "Invoice Date";
    LedgerNamesPlain();
    assert DateColumn == t + GstnSuffix;
    AssignedColumnsKeep(gstn.columns, t);
    AssignedColumnsKeep(books.columns, t);
    assert NotKey(t);
    GstnCopyIff(AssignedColumns(gstn.columns), AssignedColumns(books.columns), t);
    GstnCopyFiltered(t);
  }
}
