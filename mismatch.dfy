/** The mismatch detector (`add_mismatch_flag`): for each of the five tax
    columns whose `_gstn` and `_books` copies are both in the joined header,
    a per-row `_Match` column records whether the zero-filled amounts are
    equal; `MIS_MATCHED` is the negation of "all of them match", and the
    `_Match` columns are dropped again. A tax column without both copies is
    skipped with a warning. */
module Mismatch {
  import opened Ledger
  import opened Seqs
  import opened Matcher

  /** A tax cell read with `fillna(0)`. */
  function Amount(k: Keyed, column: string): real {
    if column in k.row.amounts then k.row.amounts[column] else 0.0
  }

  /** The zero-filled `<column>_gstn` cell of a joined row (empty in a `right_only` row). */
  function GstnAmount(m: Merged, column: string): real {
    if m.RightOnly? then 0.0 else Amount(m.g, column)
  }

  /** The zero-filled `<column>_books` cell of a joined row (empty in a `left_only` row). */
  function BooksAmount(m: Merged, column: string): real {
    if m.LeftOnly? then 0.0 else Amount(m.b, column)
  }

  /** Both suffixed copies of tax column `t` are in the joined header. */
  predicate Comparable(columns: seq<string>, t: string) {
    t + GstnSuffix in columns && t + BooksSuffix in columns
  }

  function ComparableIn(columns: seq<string>): string -> bool {
    t => Comparable(columns, t)
  }

  /** One warning per column of `taxes` that cannot be compared, in the order checked. */
  function MissingTaxWarnings(taxes: seq<string>, columns: seq<string>): seq<Diagnostic> {
    if taxes == [] then []
    else
      var t := taxes[|taxes| - 1];
      MissingTaxWarnings(taxes[..|taxes| - 1], columns) + if Comparable(columns, t) then [] else [MissingTaxColumn(t)]
  }

  /** A tax column is warned about exactly when it cannot be compared. */
  lemma {:induction false} WarningsNameUncomparable(taxes: seq<string>, columns: seq<string>, t: string)
    ensures MissingTaxColumn(t) in MissingTaxWarnings(taxes, columns) <==> t in taxes && !Comparable(columns, t)
  {
    if taxes != [] {
      var init := taxes[..|taxes| - 1];
      WarningsNameUncomparable(init, columns, t);
      assert taxes == init + [taxes[|taxes| - 1]];
    }
  }

  /** The intended `MIS_MATCHED` value: some comparable tax column disagrees
      once empty cells are read as 0. */
  predicate Mismatched(columns: seq<string>, m: Merged) {
    DiffersIn(TaxColumns, columns, m)
  }

  /** Some column of `taxes` is comparable and differs after zero-filling. */
  predicate DiffersIn(taxes: seq<string>, columns: seq<string>, m: Merged) {
    exists t <- taxes :: Comparable(columns, t) && GstnAmount(m, t) != BooksAmount(m, t)
  }

  /** Every `_Match` column holds `true` in row `i`. */
  predicate AllMatch(matchColumns: seq<seq<bool>>, i: nat)
    requires forall j :: 0 <= j < |matchColumns| ==> i < |matchColumns[j]|
  {
    forall j :: 0 <= j < |matchColumns| ==> matchColumns[j][i]
  }

  /** The `<t>_Match` column: the zero-filled amounts of tax column `t` agree. */
  function MatchColumn(rows: seq<Merged>, t: string): (c: seq<bool>)
    ensures |c| == |rows|
    ensures forall i :: 0 <= i < |rows| ==> c[i] == (GstnAmount(rows[i], t) == BooksAmount(rows[i], t))
  {
    seq(|rows|, i requires 0 <= i < |rows| => GstnAmount(rows[i], t) == BooksAmount(rows[i], t))
  }

  /** The loop over the tax columns `taxes` (the source's local five-name
      list, `TaxColumns`): a `_Match` column for each comparable one
      (`compared` names them, in order) and a warning for each other one. */
  method AddMatchColumns(taxes: seq<string>, columns: seq<string>, rows: seq<Merged>)
    returns (matchColumns: seq<seq<bool>>, warnings: seq<Diagnostic>, ghost compared: seq<string>)
    ensures compared == Filter(taxes, ComparableIn(columns))
    ensures warnings == MissingTaxWarnings(taxes, columns)
    ensures |matchColumns| == |compared|
    ensures forall j :: 0 <= j < |compared| ==> matchColumns[j] == MatchColumn(rows, compared[j])
  {
    matchColumns, warnings, compared := [], [], [];
    for k := 0 to |taxes|
      invariant compared == Filter(taxes[..k], ComparableIn(columns))
      invariant warnings == MissingTaxWarnings(taxes[..k], columns)
      invariant |matchColumns| == |compared|
      invariant forall j :: 0 <= j < |compared| ==> matchColumns[j] == MatchColumn(rows, compared[j])
    {
      var t := taxes[k];
      AddMatchStep(taxes, columns, k);
      if t + GstnSuffix !in columns || t + BooksSuffix !in columns {
        warnings := warnings + [MissingTaxColumn(t)];
      } else {
        matchColumns := matchColumns + [MatchColumn(rows, t)];
        compared := compared + [t];
      }
    }
    assert taxes[..|taxes|] == taxes;
  }

  /** Checking one more tax column extends the compared list or the warnings by it. */
  lemma AddMatchStep(taxes: seq<string>, columns: seq<string>, k: nat)
    requires k < |taxes|
    ensures Filter(taxes[..k + 1], ComparableIn(columns)) ==
            Filter(taxes[..k], ComparableIn(columns)) + if Comparable(columns, taxes[k]) then [taxes[k]] else []
    ensures MissingTaxWarnings(taxes[..k + 1], columns) ==
            MissingTaxWarnings(taxes[..k], columns) + if Comparable(columns, taxes[k]) then [] else [MissingTaxColumn(taxes[k])]
  {
    assert taxes[..k + 1] == taxes[..k] + [taxes[k]];
    assert taxes[..k + 1][..k] == taxes[..k];
    FilterSnoc(taxes[..k], taxes[k], ComparableIn(columns));
  }

  /** The flag column is absent exactly when no tax column of `taxes` could be
      compared; otherwise a row is flagged exactly when some compared column
      differs. The pipeline passes `TaxColumns`, so the flag is `Mismatched`. */
  method AddMismatchFlag(taxes: seq<string>, columns: seq<string>, rows: seq<Merged>) returns (flags: Option<seq<bool>>, warnings: seq<Diagnostic>)
    ensures warnings == MissingTaxWarnings(taxes, columns)
    ensures flags.None? <==> forall t <- taxes :: !Comparable(columns, t)
    ensures flags.Some? ==> |flags.value| == |rows|
    ensures flags.Some? ==> forall i :: 0 <= i < |rows| ==> flags.value[i] == DiffersIn(taxes, columns, rows[i])
  {
    var matchColumns;
    ghost var compared;
    matchColumns, warnings, compared := AddMatchColumns(taxes, columns, rows);
    if matchColumns == [] {
      flags := None;
      NothingCompared(taxes, columns);
    } else {
      SomethingCompared(taxes, columns, compared);
      forall i | 0 <= i < |rows|
        ensures (forall j :: 0 <= j < |matchColumns| ==> i < |matchColumns[j]|) &&
                !AllMatch(matchColumns, i) == DiffersIn(taxes, columns, rows[i])
      {
        MatchColumnsDecide(taxes, columns, rows, compared, matchColumns, i);
      }
      flags := Some(seq(|rows|, i requires 0 <= i < |rows| => !AllMatch(matchColumns, i)));
    }
  }

  lemma SomethingCompared(taxes: seq<string>, columns: seq<string>, compared: seq<string>)
    requires compared == Filter(taxes, ComparableIn(columns)) && compared != []
    ensures exists t <- taxes :: Comparable(columns, t)
  {
    assert compared[0] in compared;
  }

  lemma NothingCompared(taxes: seq<string>, columns: seq<string>)
    requires Filter(taxes, ComparableIn(columns)) == []
    ensures forall t <- taxes :: !Comparable(columns, t)
  {
  }

  /** A row's `_Match` cells are all true exactly when no comparable column differs. */
  lemma MatchColumnsDecide(taxes: seq<string>, columns: seq<string>, rows: seq<Merged>, compared: seq<string>, matchColumns: seq<seq<bool>>, i: nat)
    requires compared == Filter(taxes, ComparableIn(columns))
    requires |matchColumns| == |compared| && i < |rows|
    requires forall j :: 0 <= j < |compared| ==> matchColumns[j] == MatchColumn(rows, compared[j])
    ensures forall j :: 0 <= j < |matchColumns| ==> i < |matchColumns[j]|
    ensures !AllMatch(matchColumns, i) == DiffersIn(taxes, columns, rows[i])
  {
    if DiffersIn(taxes, columns, rows[i]) {
      DifferenceShows(taxes, columns, rows, compared, matchColumns, i);
    } else {
      AgreementShows(taxes, columns, rows, compared, matchColumns, i);
    }
  }

  /** A differing comparable column leaves a `false` cell in the row. */
  lemma DifferenceShows(taxes: seq<string>, columns: seq<string>, rows: seq<Merged>, compared: seq<string>, matchColumns: seq<seq<bool>>, i: nat)
    requires compared == Filter(taxes, ComparableIn(columns))
    requires |matchColumns| == |compared| && i < |rows|
    requires forall j :: 0 <= j < |compared| ==> matchColumns[j] == MatchColumn(rows, compared[j])
    requires DiffersIn(taxes, columns, rows[i])
    ensures exists j :: 0 <= j < |matchColumns| && i < |matchColumns[j]| && !matchColumns[j][i]
  {
    var t :| t in taxes && Comparable(columns, t) && GstnAmount(rows[i], t) != BooksAmount(rows[i], t);
    assert ComparableIn(columns)(t);
    assert t in compared;
    var j :| 0 <= j < |compared| && compared[j] == t;
    assert !matchColumns[j][i];
  }

  /** When no comparable column differs, every cell of the row is `true`. */
  lemma AgreementShows(taxes: seq<string>, columns: seq<string>, rows: seq<Merged>, compared: seq<string>, matchColumns: seq<seq<bool>>, i: nat)
    requires compared == Filter(taxes, ComparableIn(columns))
    requires |matchColumns| == |compared| && i < |rows|
    requires forall j :: 0 <= j < |compared| ==> matchColumns[j] == MatchColumn(rows, compared[j])
    requires !DiffersIn(taxes, columns, rows[i])
    ensures forall j :: 0 <= j < |matchColumns| ==> i < |matchColumns[j]| && matchColumns[j][i]
  {
    forall j | 0 <= j < |matchColumns|
      ensures i < |matchColumns[j]| && matchColumns[j][i]
    {
      assert compared[j] in compared;
      assert compared[j] in taxes && ComparableIn(columns)(compared[j]);
    }
  }

  /** The zero-filled tax amounts of a row, in the order of `TaxColumns`. */
  function TaxVector(k: Keyed): (v: seq<real>)
    ensures |v| == |TaxColumns|
  {
    seq(|TaxColumns|, i requires 0 <= i < |TaxColumns| => Amount(k, TaxColumns[i]))
  }

  /** When both ledgers carry all five tax columns, a matched pair is flagged
      exactly when its zero-filled tax vectors differ. */
  lemma FullSchemaMismatch(columns: seq<string>, g: Keyed, b: Keyed)
    requires forall t <- TaxColumns :: Comparable(columns, t)
    ensures Mismatched(columns, Both(g, b)) <==> TaxVector(g) != TaxVector(b)
  {
    if TaxVector(g) != TaxVector(b) {
      var i :| 0 <= i < |TaxColumns| && TaxVector(g)[i] != TaxVector(b)[i];
      assert TaxColumns[i] in TaxColumns;
    }
    if Mismatched(columns, Both(g, b)) {
      var t :| t in TaxColumns && Comparable(columns, t) && GstnAmount(Both(g, b), t) != BooksAmount(Both(g, b), t);
      var i :| 0 <= i < |TaxColumns| && TaxColumns[i] == t;
      assert TaxVector(g)[i] != TaxVector(b)[i];
    }
  }
}
