/** The invoice-key normaliser (`clean_invoice_number`): series letters are
    the only spelling difference between the two ledgers that matching
    tolerates, so every ASCII letter is deleted and every other character
    (digits, punctuation, blanks, other symbols) is kept in order. */
module Normalizer {
  import opened Ledger
  import opened Seqs

  predicate IsAsciiLetter(c: char) {
    'a' <= c <= 'z' || 'A' <= c <= 'Z'
  }

  predicate NotLetter(c: char) {
    !IsAsciiLetter(c)
  }

  /** The substitution of the character class `[a-zA-Z]` by nothing. */
  function StripLetters(s: string): (r: string)
    ensures forall c <- r :: NotLetter(c)
    ensures forall c <- s :: NotLetter(c) ==> c in r
    ensures |r| <= |s|
  {
    Filter(s, NotLetter)
  }

  /** A missing invoice number has no key; a present one has its letters deleted. */
  function CleanInvoiceNumber(invoice: Option<string>): (r: Option<string>)
    ensures r.None? <==> invoice.None?
    ensures r.Some? ==> |r.value| <= |invoice.value| && forall c <- r.value :: NotLetter(c)
  {
    match invoice
    case None => None
    case Some(s) => Some(StripLetters(s))
  }

  /** Each character keeps its multiplicity unless it is a letter. */
  lemma StripLettersCount(s: string, c: char)
    ensures multiset(StripLetters(s))[c] == if IsAsciiLetter(c) then 0 else multiset(s)[c]
  {
    FilterCount(s, NotLetter, c);
  }

  /** Deletion works piecewise, so the kept characters stay in their original order. */
  lemma StripLettersAppend(a: string, b: string)
    ensures StripLetters(a + b) == StripLetters(a) + StripLetters(b)
  {
    FilterAppend(a, b, NotLetter);
  }

  /** A string without letters is its own key. */
  lemma StripLettersLetterFree(s: string)
    requires forall c <- s :: NotLetter(c)
    ensures StripLetters(s) == s
  {
    FilterAll(s, NotLetter);
  }

  /** Normalising a key again changes nothing. */
  lemma CleanInvoiceNumberIdempotent(invoice: Option<string>)
    ensures CleanInvoiceNumber(CleanInvoiceNumber(invoice)) == CleanInvoiceNumber(invoice)
  {
    if invoice.Some? {
      StripLettersLetterFree(StripLetters(invoice.value));
    }
  }

  /** An invoice number made only of letters normalises to the empty string,
      which is a present key, not a missing one. */
  lemma AllLettersGiveEmptyKey(s: string)
    requires forall c <- s :: IsAsciiLetter(c)
    ensures CleanInvoiceNumber(Some(s)) == Some("")
  {
    FilterNone(s, NotLetter);
  }

  /** Series letters around an invoice number are ignored: letters before and
      after a letter-free number (`INV` and `A` around `001`) leave the number
      itself as the key. */
  lemma SeriesLettersIgnored(prefix: string, number: string, suffix: string)
    requires forall c <- prefix :: IsAsciiLetter(c)
    requires forall c <- suffix :: IsAsciiLetter(c)
    requires forall c <- number :: NotLetter(c)
    ensures CleanInvoiceNumber(Some(prefix + number + suffix)) == Some(number)
  {
    FilterNone(prefix, NotLetter);
    FilterNone(suffix, NotLetter);
    StripLettersLetterFree(number);
    assert StripLetters(prefix) == [] && StripLetters(suffix) == [] && StripLetters(number) == number;
    StripLettersAppend(prefix, number);
    assert StripLetters(prefix + number) == number;
    StripLettersAppend(prefix + number, suffix);
    assert StripLetters(prefix + number + suffix) == number + [];
    assert number + [] == number;
  }

  /** Every other character counts: two invoice numbers that hold a
      non-letter character (a dash, say) a different number of times get
      different keys, so `inv-001-a` and `INV001A` do not match. */
  lemma NonLettersDistinguish(s: string, t: string, c: char)
    requires NotLetter(c) && multiset(s)[c] != multiset(t)[c]
    ensures CleanInvoiceNumber(Some(s)) != CleanInvoiceNumber(Some(t))
  {
    StripLettersCount(s, c);
    StripLettersCount(t, c);
  }
}
