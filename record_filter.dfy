/** The pipeline that prepares each ledger before matching: drop the rows
    without a party or an invoice number, assign the normalised key (keeping
    the original number beside it), then drop the rows whose key is missing. */
module RecordFilter {
  import opened Ledger
  import opened Seqs
  import opened Normalizer

  /** A prepared ledger: its header after the key columns were assigned, and its rows. */
  datatype Prepared = Prepared(columns: seq<string>, rows: seq<Keyed>)

  /** The row has both a party and an invoice number. */
  predicate Identified(r: Row) {
    r.party.Some? && r.invoice.Some?
  }

  /** The row with its `InvoiceNumber_clean` cell computed. */
  function AssignKey(r: Row): Keyed {
    Keyed(r, CleanInvoiceNumber(r.invoice))
  }

  predicate HasKey(k: Keyed) {
    k.key.Some?
  }

  /** Both drops and the key assignment, as one chained expression. */
  function Prepare(rows: seq<Row>): (r: seq<Keyed>)
    ensures |r| <= |rows|
    ensures forall k <- r :: k.row in rows && Identified(k.row) && k.key == Some(StripLetters(k.row.invoice.value))
  {
    var identified := Filter(rows, Identified);
    var keyed := Map(identified, AssignKey);
    assert forall k <- keyed :: exists i :: 0 <= i < |identified| && k == AssignKey(identified[i]);
    Filter(keyed, HasKey)
  }

  /** The key of an identified row is never missing, so the second drop removes nothing. */
  lemma SecondDropRemovesNothing(rows: seq<Row>)
    ensures Prepare(rows) == Map(Filter(rows, Identified), AssignKey)
  {
    var identified := Filter(rows, Identified);
    var keyed := Map(identified, AssignKey);
    forall k | k in keyed
      ensures HasKey(k)
    {
      var i :| 0 <= i < |keyed| && keyed[i] == k;
      assert identified[i] in identified;
    }
    FilterAll(keyed, HasKey);
  }

  /** A row survives, with every one of its copies, exactly when it has a party
      and an invoice number. */
  lemma PrepareCount(rows: seq<Row>, r: Row)
    ensures multiset(Prepare(rows))[AssignKey(r)] == if Identified(r) then multiset(rows)[r] else 0
  {
    SecondDropRemovesNothing(rows);
    MapCount(Filter(rows, Identified), AssignKey, r);
    FilterCount(rows, Identified, r);
  }

  /** Preparation works row by row, so it keeps the ledger's order. */
  lemma PrepareAppend(a: seq<Row>, b: seq<Row>)
    ensures Prepare(a + b) == Prepare(a) + Prepare(b)
  {
    SecondDropRemovesNothing(a + b);
    SecondDropRemovesNothing(a);
    SecondDropRemovesNothing(b);
    FilterAppend(a, b, Identified);
    MapAppend(Filter(a, Identified), Filter(b, Identified), AssignKey);
  }

  /** An invoice number made only of letters survives with the empty key. */
  lemma EmptyKeySurvives(rows: seq<Row>, r: Row)
    requires r in rows && r.party.Some? && r.invoice.Some?
    requires forall c <- r.invoice.value :: IsAsciiLetter(c)
    ensures Keyed(r, Some("")) in Prepare(rows)
  {
    AllLettersGiveEmptyKey(r.invoice.value);
    PrepareCount(rows, r);
    assert multiset(Prepare(rows))[AssignKey(r)] > 0;
  }

  /** The header after the two key columns are assigned: a new column is
      appended, an existing one is overwritten where it stands. */
  function AssignedColumns(columns: seq<string>): (r: seq<string>)
    ensures CleanKeyColumn in r && OriginalColumn in r
    ensures columns <= r && |r| <= |columns| + 2
  {
    var withKey := if CleanKeyColumn in columns then columns else columns + [CleanKeyColumn];
    if OriginalColumn in withKey then withKey else withKey + [OriginalColumn]
  }

  /** One ledger prepared; the drop by column name fails when the sheet has no
      `GSTN` or no `Invoice Number` column. */
  function PrepareSheet(sheet: Sheet): (r: Result<Prepared>)
    ensures r.Success? <==> PartyColumn in sheet.columns && InvoiceColumn in sheet.columns
    ensures r.Success? ==> r.value.rows == Prepare(sheet.rows) && sheet.columns <= r.value.columns
  {
    if PartyColumn !in sheet.columns || InvoiceColumn !in sheet.columns then
      Failure("KeyError: the sheet has no GSTN or no Invoice Number column")
    else
      Success(Prepared(AssignedColumns(sheet.columns), Prepare(sheet.rows)))
  }
}
