/** Column shaping: the header the outer join produces, the two regular
    expression filters that choose the columns of the unmatched sheets, and
    the per-sheet renaming done before a sheet is written (`clean_columns`). */
module Columns {
  import opened Ledger
  import opened Seqs
  import opened Strings

  /** The join keys; each appears once in the joined header, unsuffixed. */
  const MergeKeys: seq<string> := [PartyColumn, CleanKeyColumn]

  predicate NotKey(c: string) {
    c !in MergeKeys
  }

  function NotKeyFn(): string -> bool {
    c => NotKey(c)
  }

  /** A GSTN column is suffixed `_gstn` when the BOOKS frame has a non-key column of the same name. */
  function LeftName(right: seq<string>): string -> string {
    c => if NotKey(c) && c in right then c + GstnSuffix else c
  }

  /** A BOOKS column is suffixed `_books` when the GSTN frame has a column of the same name. */
  function RightName(left: seq<string>): string -> string {
    c => if c in left then c + BooksSuffix else c
  }

  /** The joined header: the GSTN columns in order, then the BOOKS columns
      other than the keys, then the `_merge` indicator. */
  function MergedColumns(left: seq<string>, right: seq<string>): (r: seq<string>)
    ensures |r| == |left| + |Filter(right, NotKeyFn())| + 1
    ensures r[|r| - 1] == MergeColumn
  {
    Map(left, LeftName(right)) + Map(Filter(right, NotKeyFn()), RightName(left)) + [MergeColumn]
  }

  lemma AppendCancel(a: string, b: string, p: string)
    ensures a + p == b + p ==> a == b
  {
    assert a == (a + p)[..|a|];
    assert b == (b + p)[..|b|];
  }

  /** A `_gstn` name is never a `_books` name, and neither is `_merge`. */
  lemma SuffixesDiffer(a: string, b: string)
    ensures a + GstnSuffix != b + BooksSuffix
    ensures a + GstnSuffix != MergeColumn && b + BooksSuffix != MergeColumn
  {
    var x, y := a + GstnSuffix, b + BooksSuffix;
    assert x[|x| - 1] == 'n' && y[|y| - 1] == 's' && MergeColumn[|MergeColumn| - 1] == 'e';
  }

  /** A column the GSTN frame shares with the BOOKS frame, other than a key,
      appears as `<c>_gstn` in the joined header; given that neither frame
      already has a column of that name, no other column does. */
  lemma GstnCopyIff(left: seq<string>, right: seq<string>, t: string)
    requires NotKey(t)
    requires t + GstnSuffix !in left && t + GstnSuffix !in right
    ensures t + GstnSuffix in MergedColumns(left, right) <==> t in left && t in right
  {
    var n := t + GstnSuffix;
    var lhs := Map(left, LeftName(right));
    var kept := Filter(right, NotKeyFn());
    var rhs := Map(kept, RightName(left));
    assert MergedColumns(left, right) == lhs + rhs + [MergeColumn];
    SuffixesDiffer(t, t);
    if t in left && t in right {
      var i :| 0 <= i < |left| && left[i] == t;
      assert lhs[i] == n;
    }
    forall i | 0 <= i < |left| && lhs[i] == n
      ensures left[i] == t
    {
      if NotKey(left[i]) && left[i] in right {
        AppendCancel(left[i], t, GstnSuffix);
      }
    }
    forall i | 0 <= i < |kept|
      ensures rhs[i] != n
    {
      assert kept[i] in kept;
      SuffixesDiffer(t, kept[i]);
    }
  }

  /** The same for `<c>_books`. */
  lemma BooksCopyIff(left: seq<string>, right: seq<string>, t: string)
    requires NotKey(t)
    requires t + BooksSuffix !in left && t + BooksSuffix !in right
    ensures t + BooksSuffix in MergedColumns(left, right) <==> t in left && t in right
  {
    var n := t + BooksSuffix;
    var lhs := Map(left, LeftName(right));
    var kept := Filter(right, NotKeyFn());
    var rhs := Map(kept, RightName(left));
    assert MergedColumns(left, right) == lhs + rhs + [MergeColumn];
    SuffixesDiffer(t, t);
    if t in left && t in right {
      assert t in kept;
      var i :| 0 <= i < |kept| && kept[i] == t;
      assert rhs[i] == n;
    }
    forall i | 0 <= i < |left|
      ensures lhs[i] != n
    {
      SuffixesDiffer(left[i], t);
    }
    forall i | 0 <= i < |kept| && rhs[i] == n
      ensures kept[i] == t && t in left && t in right
    {
      assert kept[i] in kept;
      if kept[i] in left {
        AppendCancel(kept[i], t, BooksSuffix);
      }
    }
  }

  // The column filters. `DataFrame.filter(regex=...)` keeps a column when
  // `re.search` finds the pattern in its name. Each pattern is an alternation
  // of two literals, found anywhere, and an anchored `^((?!...).)*$`, which
  // must cover the whole name: `.` matches any character but a newline, the
  // lookahead forbids a banned word to begin at any covered position, and
  // `$` matches at the end or just before a final newline.

  /** The part of a name the anchored alternative has to cover. */
  function LineBody(s: string): (r: string)
    ensures r <= s && |s| - 1 <= |r|
  {
    if |s| > 0 && s[|s| - 1] == '\n' then s[..|s| - 1] else s
  }

  /** `((?!b1|b2|...).)*` can consume all of `s`. Banned words are free of
      newlines, so looking ahead past a final newline changes nothing. */
  predicate TemperedRun(s: string, bans: seq<string>)
    decreases |s|
  {
    s == [] || (s[0] != '\n' && (forall b <- bans :: !StartsWith(s, b)) && TemperedRun(s[1..], bans))
  }

  /** `^((?!b1|b2|...).)*$` matches the name. */
  predicate AnchoredFree(s: string, bans: seq<string>) {
    TemperedRun(LineBody(s), bans)
  }

  /** The `right_only` filter, `GSTN|InvoiceNumber_original_books|^((?!_clean|_gstn).)*$`. */
  predicate NextFyKeeps(c: string) {
    Contains(c, "GSTN") || Contains(c, "InvoiceNumber_original_books") || AnchoredFree(c, ["_clean", "_gstn"])
  }

  /** The `left_only` filter, `GSTN|InvoiceNumber_original_gstn|^((?!_books).)*$`. */
  predicate UnmatchedKeeps(c: string) {
    Contains(c, "GSTN") || Contains(c, "InvoiceNumber_original_gstn") || AnchoredFree(c, ["_books"])
  }

  function NextFyKeepsFn(): string -> bool {
    c => NextFyKeeps(c)
  }

  function UnmatchedKeepsFn(): string -> bool {
    c => UnmatchedKeeps(c)
  }

  /** The header of the `NEXT_FY_ITC` frame. */
  function NextFyColumns(columns: seq<string>): (r: seq<string>)
    ensures forall c <- r :: c in columns && NextFyKeeps(c)
    ensures forall c <- columns :: NextFyKeeps(c) ==> c in r
  {
    Filter(columns, NextFyKeepsFn())
  }

  /** The header of the unmatched GSTN frame handed to the period classifier. */
  function UnmatchedColumns(columns: seq<string>): (r: seq<string>)
    ensures forall c <- r :: c in columns && UnmatchedKeeps(c)
    ensures forall c <- columns :: UnmatchedKeeps(c) ==> c in r
  {
    Filter(columns, UnmatchedKeepsFn())
  }

  /** On a name without newlines the anchored alternative is the absence of
      every banned word. */
  lemma {:induction false} TemperedRunIff(s: string, bans: seq<string>)
    requires forall b <- bans :: |b| > 0
    requires '\n' !in s
    ensures TemperedRun(s, bans) <==> forall b <- bans :: !Contains(s, b)
    decreases |s|
  {
    if s != [] {
      assert '\n' !in s[1..] by {
        forall j | 0 <= j < |s[1..]|
          ensures s[1..][j] != '\n'
        {
          assert s[1..][j] == s[j + 1];
        }
      }
      assert s[0] in s;
      TemperedRunIff(s[1..], bans);
    }
  }

  /** A run that can be consumed holds no newline. */
  lemma {:induction false} TemperedRunNoNewline(s: string, bans: seq<string>, i: nat)
    requires i < |s| && TemperedRun(s, bans)
    ensures s[i] != '\n'
    decreases i
  {
    if i > 0 {
      TemperedRunNoNewline(s[1..], bans, i - 1);
    }
  }

  /** For names without newlines the `right_only` filter is a plain
      case-sensitive substring test. */
  lemma NextFyKeepsIff(c: string)
    requires '\n' !in c
    ensures NextFyKeeps(c) <==>
            Contains(c, "GSTN") || Contains(c, "InvoiceNumber_original_books") || (!Contains(c, "_clean") && !Contains(c, "_gstn"))
  {
    if c != [] {
      assert c[|c| - 1] in c;
    }
    TemperedRunIff(c, ["_clean", "_gstn"]);
  }

  /** For names without newlines the `left_only` filter is a plain
      case-sensitive substring test. */
  lemma UnmatchedKeepsIff(c: string)
    requires '\n' !in c
    ensures UnmatchedKeeps(c) <==>
            Contains(c, "GSTN") || Contains(c, "InvoiceNumber_original_gstn") || !Contains(c, "_books")
  {
    if c != [] {
      assert c[|c| - 1] in c;
    }
    TemperedRunIff(c, ["_books"]);
  }

  /** A name with a newline before its last character fails the anchored
      alternative of both filters, so it is dropped unless it contains one
      of the literals. */
  lemma EmbeddedNewlineDropped(c: string, i: nat)
    requires i + 1 < |c| && c[i] == '\n'
    ensures !AnchoredFree(c, ["_clean", "_gstn"]) && !AnchoredFree(c, ["_books"])
  {
    var body := LineBody(c);
    assert body[i] == '\n';
    if TemperedRun(body, ["_clean", "_gstn"]) {
      TemperedRunNoNewline(body, ["_clean", "_gstn"], i);
    }
    if TemperedRun(body, ["_books"]) {
      TemperedRunNoNewline(body, ["_books"], i);
    }
  }

  /** A data column name of the shape the ledgers use (no newline, no
      underscore, no capital N). */
  predicate PlainName(t: string) {
    '\n' !in t && '_' !in t && 'N' !in t
  }

  // How the filters treat the copies of a plain column in the joined header:
  // the `right_only` sheet keeps the BOOKS copy and drops the GSTN copy, the
  // `left_only` sheet keeps the GSTN copy and drops the BOOKS copy, and both
  // keep a column only one ledger has.

  /** Neither provenance suffix contains a word the other filter bans. */
  lemma SuffixesFreeOfBans()
    ensures !Contains(GstnSuffix, "_books")
    ensures !Contains(BooksSuffix, "_clean") && !Contains(BooksSuffix, "_gstn")
  {
    MissingCharNotContained(GstnSuffix, "_books", 2);
    MissingCharNotContained(BooksSuffix, "_clean", 2);
    MissingCharNotContained(BooksSuffix, "_gstn", 1);
  }

  lemma GstnCopyFiltered(t: string)
    requires PlainName(t)
    ensures !NextFyKeeps(t + GstnSuffix) && UnmatchedKeeps(t + GstnSuffix)
  {
    var g := t + GstnSuffix;
    assert '\n' !in g && 'N' !in g;
    NextFyKeepsIff(g);
    UnmatchedKeepsIff(g);
    MissingCharNotContained(g, "GSTN", 3);
    MissingCharNotContained(g, "InvoiceNumber_original_books", 7);
    EndsWithContains(g, GstnSuffix);
    ContainsAfterHead(t, GstnSuffix, "_books");
    SuffixesFreeOfBans();
  }

  lemma BooksCopyFiltered(t: string)
    requires PlainName(t)
    ensures NextFyKeeps(t + BooksSuffix) && !UnmatchedKeeps(t + BooksSuffix)
  {
    var b := t + BooksSuffix;
    assert '\n' !in b && 'N' !in b;
    NextFyKeepsIff(b);
    UnmatchedKeepsIff(b);
    MissingCharNotContained(b, "GSTN", 3);
    MissingCharNotContained(b, "InvoiceNumber_original_gstn", 7);
    EndsWithContains(b, BooksSuffix);
    ContainsAfterHead(t, BooksSuffix, "_clean");
    ContainsAfterHead(t, BooksSuffix, "_gstn");
    SuffixesFreeOfBans();
  }

  lemma UnsuffixedKept(t: string)
    requires PlainName(t)
    ensures NextFyKeeps(t) && UnmatchedKeeps(t)
  {
    NextFyKeepsIff(t);
    UnmatchedKeepsIff(t);
    MissingCharNotContained(t, "_books", 0);
    MissingCharNotContained(t, "_clean", 0);
    MissingCharNotContained(t, "_gstn", 0);
  }

  /** The tax columns and the invoice date are plain names, so the filters
      keep the invoice date the period classifier reads. */
  lemma LedgerNamesPlain()
    ensures forall t <- TaxColumns :: PlainName(t)
    ensures PlainName("Invoice Date")
  {
  }

  /** The four result sheets, in the order they are written. */
  datatype SheetName = Matched | PrevFyItc | NotInBooks | NextFyItc

  /** The bookkeeping columns no written sheet keeps. */
  const Bookkeeping: seq<string> :=
    [CleanKeyColumn, "InvoiceNumber_original_gstn", "InvoiceNumber_original_books", MergeColumn]

  /** `clean_columns` keeps the column: never a bookkeeping column, a `_books`
      column except in `MATCHED`, a `_gstn` column except in `NEXT_FY_ITC`,
      and any other column. */
  predicate Survives(sheet: SheetName, c: string) {
    if c in Bookkeeping then false
    else if EndsWith(c, BooksSuffix) then sheet != Matched
    else if EndsWith(c, GstnSuffix) then sheet != NextFyItc
    else true
  }

  function SurvivesIn(sheet: SheetName): string -> bool {
    c => Survives(sheet, c)
  }

  /** The new name of a kept column: every occurrence of the suffix it ends
      with is deleted; a name with neither suffix is kept as it is. */
  function Rename(c: string): (r: string)
    ensures |r| <= |c|
    ensures !EndsWith(c, BooksSuffix) && !EndsWith(c, GstnSuffix) ==> r == c
  {
    if EndsWith(c, BooksSuffix) then RemoveAll(c, BooksSuffix)
    else if EndsWith(c, GstnSuffix) then RemoveAll(c, GstnSuffix)
    else c
  }

  /** The header a sheet is written with. */
  function CleanedHeader(sheet: SheetName, columns: seq<string>): seq<string> {
    Map(Filter(columns, SurvivesIn(sheet)), Rename)
  }

  /** The loop of `clean_columns`: walk the header, skip the dropped columns
      and collect the new names of the others. */
  method CleanColumns(sheet: SheetName, columns: seq<string>) returns (cleanCols: seq<string>)
    ensures cleanCols == CleanedHeader(sheet, columns)
    ensures |cleanCols| <= |columns|
  {
    cleanCols := [];
    for i := 0 to |columns|
      invariant cleanCols == CleanedHeader(sheet, columns[..i])
    {
      var col := columns[i];
      assert columns[..i + 1] == columns[..i] + [col];
      CleanedHeaderSnoc(sheet, columns[..i], col);
      var newCol;
      if col in Bookkeeping {
        continue;
      } else if EndsWith(col, BooksSuffix) {
        if sheet == Matched {
          continue;
        }
        newCol := RemoveAll(col, BooksSuffix);
      } else if EndsWith(col, GstnSuffix) {
        if sheet == NextFyItc {
          continue;
        }
        newCol := RemoveAll(col, GstnSuffix);
      } else {
        newCol := col;
      }
      cleanCols := cleanCols + [newCol];
    }
    assert columns[..|columns|] == columns;
  }

  lemma CleanedHeaderSnoc(sheet: SheetName, columns: seq<string>, c: string)
    ensures CleanedHeader(sheet, columns + [c]) ==
            CleanedHeader(sheet, columns) + if Survives(sheet, c) then [Rename(c)] else []
  {
    FilterSnoc(columns, c, SurvivesIn(sheet));
    MapAppend(Filter(columns, SurvivesIn(sheet)), if Survives(sheet, c) then [c] else [], Rename);
  }

  /** The header is cleaned column by column, so kept columns keep their order. */
  lemma CleanedHeaderAppend(sheet: SheetName, a: seq<string>, b: seq<string>)
    ensures CleanedHeader(sheet, a + b) == CleanedHeader(sheet, a) + CleanedHeader(sheet, b)
  {
    FilterAppend(a, b, SurvivesIn(sheet));
    MapAppend(Filter(a, SurvivesIn(sheet)), Filter(b, SurvivesIn(sheet)), Rename);
  }

  /** A suffixed copy of a column is renamed back to the column's own name,
      provided the name does not itself contain the suffix. */
  lemma RenameCopy(t: string)
    requires !Contains(t, BooksSuffix) && !Contains(t, GstnSuffix)
    ensures Rename(t + BooksSuffix) == t && Rename(t + GstnSuffix) == t
  {
    SuffixesBorderFree();
    RemoveAllSuffix(t, BooksSuffix);
    RemoveAllSuffix(t, GstnSuffix);
    var g := t + GstnSuffix;
    assert g[|g| - 1] != BooksSuffix[|BooksSuffix| - 1];
  }

  /** Which copies each sheet keeps: `MATCHED` only the GSTN copy,
      `NEXT_FY_ITC` only the BOOKS copy, the two GSTN-only sheets both. The
      original invoice number is the exception: both its copies are
      bookkeeping columns. */
  lemma CopiesSurvive(sheet: SheetName, t: string)
    requires t != OriginalColumn
    ensures Survives(sheet, t + BooksSuffix) <==> sheet != Matched
    ensures Survives(sheet, t + GstnSuffix) <==> sheet != NextFyItc
  {
    var b, g := t + BooksSuffix, t + GstnSuffix;
    SuffixesDiffer(t, t);
    assert b[|b| - 1] == 's' && g[|g| - 1] == 'n';
    assert b[|b| - 6..] == BooksSuffix && g[|g| - 5..] == GstnSuffix;
    AppendCancel(t, OriginalColumn, BooksSuffix);
    AppendCancel(t, OriginalColumn, GstnSuffix);
    assert b != "InvoiceNumber_original_books" && g != "InvoiceNumber_original_gstn";
    assert b !in Bookkeeping && g !in Bookkeeping;
  }
}
