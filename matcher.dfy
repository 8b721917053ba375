/** The matcher: a full outer join of the prepared GSTN and BOOKS ledgers on
    (party, normalised key) with an indicator column, and the three row masks
    that split the joined table into matched, GSTN-only and BOOKS-only rows.
    Within a key group every GSTN row is paired with every BOOKS row. */
module Matcher {
  import opened Ledger
  import opened Seqs

  /** One row of the joined table; the constructor is its `_merge` value
      (`both`, `left_only`, `right_only`). */
  datatype Merged = Both(g: Keyed, b: Keyed) | LeftOnly(g: Keyed) | RightOnly(b: Keyed)

  /** The rows agree on both join columns, `GSTN` and `InvoiceNumber_clean`. */
  predicate SameKey(g: Keyed, b: Keyed) {
    g.row.party == b.row.party && g.key == b.key
  }

  function PartnerOf(g: Keyed): Keyed -> bool {
    b => SameKey(g, b)
  }

  /** The BOOKS rows that share the key of the GSTN row `g`, in ledger order. */
  function Partners(g: Keyed, books: seq<Keyed>): (r: seq<Keyed>)
    ensures r == [] <==> forall b <- books :: !SameKey(g, b)
  {
    var r := Filter(books, PartnerOf(g));
    assert r != [] ==> r[0] in r;
    r
  }

  /** No GSTN row shares the key of BOOKS row `b`. */
  predicate Unpartnered(gstn: seq<Keyed>, b: Keyed) {
    forall g <- gstn :: !SameKey(g, b)
  }

  function UnpartneredIn(gstn: seq<Keyed>): Keyed -> bool {
    b => Unpartnered(gstn, b)
  }

  /** No BOOKS row shares the key of GSTN row `g`. */
  function NoPartnerIn(books: seq<Keyed>): Keyed -> bool {
    g => forall b <- books :: !SameKey(g, b)
  }

  function Pairs(g: Keyed, partners: seq<Keyed>): seq<Merged> {
    if partners == [] then [] else [Both(g, partners[0])] + Pairs(g, partners[1..])
  }

  /** The joined rows contributed by one GSTN row. */
  function JoinRow(g: Keyed, books: seq<Keyed>): seq<Merged> {
    var ps := Partners(g, books);
    if ps == [] then [LeftOnly(g)] else Pairs(g, ps)
  }

  function LeftJoin(gstn: seq<Keyed>, books: seq<Keyed>): seq<Merged> {
    if gstn == [] then [] else JoinRow(gstn[0], books) + LeftJoin(gstn[1..], books)
  }

  /** The BOOKS rows no GSTN row matched, as `right_only` rows. */
  function Orphans(gstn: seq<Keyed>, books: seq<Keyed>): seq<Merged> {
    if books == [] then []
    else (if Unpartnered(gstn, books[0]) then [RightOnly(books[0])] else []) + Orphans(gstn, books[1..])
  }

  /** `pd.merge(gstn, books, on=[GSTN, InvoiceNumber_clean], how="outer", indicator=True)`. */
  function OuterJoin(gstn: seq<Keyed>, books: seq<Keyed>): seq<Merged> {
    LeftJoin(gstn, books) + Orphans(gstn, books)
  }

  predicate IsBoth(m: Merged) {
    m.Both?
  }

  /** `merged[merged["_merge"] == "both"]`. */
  function BothRows(joined: seq<Merged>): seq<Merged> {
    Filter(joined, IsBoth)
  }

  /** The GSTN side of `merged[merged["_merge"] == "left_only"]`. */
  function LeftOnlyRows(joined: seq<Merged>): seq<Keyed> {
    if joined == [] then []
    else (if joined[0].LeftOnly? then [joined[0].g] else []) + LeftOnlyRows(joined[1..])
  }

  /** The BOOKS side of `merged[merged["_merge"] == "right_only"]`. */
  function RightOnlyRows(joined: seq<Merged>): seq<Keyed> {
    if joined == [] then []
    else (if joined[0].RightOnly? then [joined[0].b] else []) + RightOnlyRows(joined[1..])
  }

  lemma {:induction false} LeftOnlyRowsAppend(a: seq<Merged>, b: seq<Merged>)
    ensures LeftOnlyRows(a + b) == LeftOnlyRows(a) + LeftOnlyRows(b)
  {
    if a == [] {
      assert a + b == b;
    } else {
      assert (a + b)[0] == a[0];
      assert (a + b)[1..] == a[1..] + b;
      LeftOnlyRowsAppend(a[1..], b);
    }
  }

  lemma {:induction false} RightOnlyRowsAppend(a: seq<Merged>, b: seq<Merged>)
    ensures RightOnlyRows(a + b) == RightOnlyRows(a) + RightOnlyRows(b)
  {
    if a == [] {
      assert a + b == b;
    } else {
      assert (a + b)[0] == a[0];
      assert (a + b)[1..] == a[1..] + b;
      RightOnlyRowsAppend(a[1..], b);
    }
  }

  /** The three masks split every joined table: each row is in exactly one. */
  lemma {:induction false} CategoriesPartition(joined: seq<Merged>)
    ensures |joined| == |BothRows(joined)| + |LeftOnlyRows(joined)| + |RightOnlyRows(joined)|
  {
    if joined != [] {
      CategoriesPartition(joined[1..]);
    }
  }

  lemma {:induction false} PairsAreBoth(g: Keyed, ps: seq<Keyed>)
    ensures LeftOnlyRows(Pairs(g, ps)) == [] && RightOnlyRows(Pairs(g, ps)) == []
  {
    if ps != [] {
      PairsAreBoth(g, ps[1..]);
    }
  }

  lemma {:induction false} OrphansAreRightOnly(gstn: seq<Keyed>, books: seq<Keyed>)
    ensures LeftOnlyRows(Orphans(gstn, books)) == []
    ensures RightOnlyRows(Orphans(gstn, books)) == Filter(books, UnpartneredIn(gstn))
    ensures forall x, y :: Both(x, y) !in Orphans(gstn, books)
  {
    if books != [] {
      var head := if Unpartnered(gstn, books[0]) then [RightOnly(books[0])] else [];
      OrphansAreRightOnly(gstn, books[1..]);
      LeftOnlyRowsAppend(head, Orphans(gstn, books[1..]));
      RightOnlyRowsAppend(head, Orphans(gstn, books[1..]));
    }
  }

  lemma {:induction false} LeftJoinSides(gstn: seq<Keyed>, books: seq<Keyed>)
    ensures LeftOnlyRows(LeftJoin(gstn, books)) == Filter(gstn, NoPartnerIn(books))
    ensures RightOnlyRows(LeftJoin(gstn, books)) == []
  {
    if gstn != [] {
      var g := gstn[0];
      PairsAreBoth(g, Partners(g, books));
      LeftOnlyRowsAppend(JoinRow(g, books), LeftJoin(gstn[1..], books));
      RightOnlyRowsAppend(JoinRow(g, books), LeftJoin(gstn[1..], books));
      LeftJoinSides(gstn[1..], books);
    }
  }

  /** The `left_only` rows are exactly the GSTN rows no BOOKS row shares a key
      with, in ledger order; the `right_only` rows likewise for BOOKS. */
  lemma UnmatchedSides(gstn: seq<Keyed>, books: seq<Keyed>)
    ensures LeftOnlyRows(OuterJoin(gstn, books)) == Filter(gstn, NoPartnerIn(books))
    ensures RightOnlyRows(OuterJoin(gstn, books)) == Filter(books, UnpartneredIn(gstn))
  {
    LeftJoinSides(gstn, books);
    OrphansAreRightOnly(gstn, books);
    LeftOnlyRowsAppend(LeftJoin(gstn, books), Orphans(gstn, books));
    RightOnlyRowsAppend(LeftJoin(gstn, books), Orphans(gstn, books));
  }

  lemma {:induction false} PairsCount(g: Keyed, ps: seq<Keyed>, x: Keyed, y: Keyed)
    ensures multiset(Pairs(g, ps))[Both(x, y)] == if x == g then multiset(ps)[y] else 0
  {
    if ps != [] {
      assert ps == [ps[0]] + ps[1..];
      PairsCount(g, ps[1..], x, y);
    }
  }

  lemma JoinRowCount(g: Keyed, books: seq<Keyed>, x: Keyed, y: Keyed)
    ensures multiset(JoinRow(g, books))[Both(x, y)] == if x == g && SameKey(x, y) then multiset(books)[y] else 0
  {
    var ps := Partners(g, books);
    if ps == [] {
      assert x == g && SameKey(x, y) ==> y !in books;
    } else {
      PairsCount(g, ps, x, y);
      FilterCount(books, PartnerOf(g), y);
    }
  }

  /** The first GSTN row's joined rows come first. */
  lemma LeftJoinStep(gstn: seq<Keyed>, books: seq<Keyed>, e: Merged, x: Keyed)
    requires gstn != []
    ensures multiset(LeftJoin(gstn, books))[e] == multiset(JoinRow(gstn[0], books))[e] + multiset(LeftJoin(gstn[1..], books))[e]
    ensures multiset(gstn)[x] == (if gstn[0] == x then 1 else 0) + multiset(gstn[1..])[x]
  {
    assert LeftJoin(gstn, books) == JoinRow(gstn[0], books) + LeftJoin(gstn[1..], books);
    assert gstn == [gstn[0]] + gstn[1..];
  }

  lemma {:induction false} LeftJoinCount(gstn: seq<Keyed>, books: seq<Keyed>, x: Keyed, y: Keyed)
    ensures multiset(LeftJoin(gstn, books))[Both(x, y)] ==
            if SameKey(x, y) then multiset(gstn)[x] * multiset(books)[y] else 0
  {
    if gstn != [] {
      LeftJoinStep(gstn, books, Both(x, y), x);
      JoinRowCount(gstn[0], books, x, y);
      LeftJoinCount(gstn[1..], books, x, y);
      if SameKey(x, y) {
        Distribute(if gstn[0] == x then 1 else 0, multiset(gstn[1..])[x], multiset(books)[y]);
      }
    }
  }

  lemma PositiveProduct(a: int, b: int)
    requires a > 0 && b > 0
    ensures a * b > 0
  {
  }

  lemma Distribute(a: int, b: int, m: int)
    ensures (a + b) * m == a * m + b * m
  {
  }

  /** Full outer-join fan-out: a matching pair occurs once for every copy of
      the GSTN row times every copy of the BOOKS row, and a non-matching pair
      never occurs. */
  lemma BothCount(gstn: seq<Keyed>, books: seq<Keyed>, x: Keyed, y: Keyed)
    ensures multiset(OuterJoin(gstn, books))[Both(x, y)] ==
            if SameKey(x, y) then multiset(gstn)[x] * multiset(books)[y] else 0
  {
    LeftJoinCount(gstn, books, x, y);
    OrphansAreRightOnly(gstn, books);
  }

  /** Each GSTN row lands in exactly one category: `left_only` when no BOOKS
      row shares its key, otherwise `both`, once per copy of each partner. */
  lemma GstnRowCategory(gstn: seq<Keyed>, books: seq<Keyed>, g: Keyed)
    requires g in gstn
    ensures g in LeftOnlyRows(OuterJoin(gstn, books)) <==> forall b <- books :: !SameKey(g, b)
    ensures forall b <- books :: SameKey(g, b) ==> Both(g, b) in OuterJoin(gstn, books)
    ensures forall b :: Both(g, b) in OuterJoin(gstn, books) ==> b in books && SameKey(g, b)
  {
    UnmatchedSides(gstn, books);
    forall b | b in books && SameKey(g, b)
      ensures Both(g, b) in OuterJoin(gstn, books)
    {
      BothCount(gstn, books, g, b);
      PositiveProduct(multiset(gstn)[g], multiset(books)[b]);
    }
    forall b | Both(g, b) in OuterJoin(gstn, books)
      ensures b in books && SameKey(g, b)
    {
      BothCount(gstn, books, g, b);
    }
  }

  /** Each BOOKS row lands in exactly one category: `right_only` when no GSTN
      row shares its key, otherwise `both` with each partner. */
  lemma BooksRowCategory(gstn: seq<Keyed>, books: seq<Keyed>, b: Keyed)
    requires b in books
    ensures b in RightOnlyRows(OuterJoin(gstn, books)) <==> Unpartnered(gstn, b)
    ensures forall g <- gstn :: SameKey(g, b) ==> Both(g, b) in OuterJoin(gstn, books)
    ensures forall g :: Both(g, b) in OuterJoin(gstn, books) ==> g in gstn && SameKey(g, b)
  {
    UnmatchedSides(gstn, books);
    forall g | g in gstn && SameKey(g, b)
      ensures Both(g, b) in OuterJoin(gstn, books)
    {
      BothCount(gstn, books, g, b);
      PositiveProduct(multiset(gstn)[g], multiset(books)[b]);
    }
    forall g | Both(g, b) in OuterJoin(gstn, books)
      ensures g in gstn && SameKey(g, b)
    {
      BothCount(gstn, books, g, b);
    }
  }
}
