/** The records the reconciliation works on, and the column names and
    constants the pipeline refers to. */
module Ledger {

  datatype Option<T> = None | Some(value: T)

  datatype Result<T> = Success(value: T) | Failure(error: string)

  /** One spreadsheet row of either ledger. `party` is the cell of the `GSTN`
      column (the supplier's tax identifier), `invoice` the cell of the
      `Invoice Number` column, `date` the `Invoice Date` as a day number
      (days since 1970-01-01). `amounts` holds the tax cells that are filled
      in, keyed by the unsuffixed column name; an empty cell has no entry. */
  datatype Row = Row(party: Option<string>, invoice: Option<string>, date: Option<int>, amounts: map<string, real>)

  /** A row after the `InvoiceNumber_clean` column has been assigned to it;
      `row.invoice` is kept as `InvoiceNumber_original`. */
  datatype Keyed = Keyed(row: Row, key: Option<string>)

  /** One loaded sheet: its header and its rows. */
  datatype Sheet = Sheet(columns: seq<string>, rows: seq<Row>)

  /** The messages the engine reports without stopping. */
  datatype Diagnostic =
    | MissingTaxColumn(column: string)
    | MissingInvoiceDate(party: Option<string>, invoice: Option<string>)

  const PartyColumn: string := "GSTN"
  const InvoiceColumn: string := "Invoice Number"
  const CleanKeyColumn: string := "InvoiceNumber_clean"
  const OriginalColumn: string := "InvoiceNumber_original"
  const MergeColumn: string := "_merge"
  const GstnSuffix: string := "_gstn"
  const BooksSuffix: string := "_books"

  /** The five tax amounts compared between the ledgers, in the order checked. */
  const TaxColumns: seq<string> := ["Taxable", "CGST", "SGST", "IGST", "CESS"]
}
