/**
 * One reconciliation run: locate the amount column, total it, extract the invoice total,
 * compare, append the summary row to the history and aggregate the history by month.
 * A run that stops early leaves the history file as it was.
 */
module Pipeline {
  import opened Wrappers
  import opened Table
  import opened Invoice
  import opened Reconcile
  import opened History
  import opened Aggregate

  datatype Error = ColumnNotFound | InvoiceTotalNotFound

  /** What a successful run shows: the summary row, its outcome, the history and the monthly gains. */
  datatype Report = Report(summary: Record, outcome: Outcome, history: seq<Record>, monthly: seq<Group>)

  /** Column j is the first column of the sheet whose text holds the price heading. */
  predicate IsAmountColumn(sheet: Sheet, j: nat)
  {
    j < |sheet| && HasLabel(sheet[j], PriceLabel) &&
    forall i :: 0 <= i < j ==> !HasLabel(sheet[i], PriceLabel)
  }

  /**
   * The sheet's "Imput" table, the invoice's text, today's date and the chosen store come
   * in; the history file is read and rewritten.
   */
  method Run(sheet: Sheet, invoiceText: string, today: Date, store: string, file: HistoryFile)
    returns (result: Result<Report, Error>)
    modifies file
    ensures result == Failure(ColumnNotFound) <==>
      forall j :: 0 <= j < |sheet| ==> !HasLabel(sheet[j], PriceLabel)
    ensures result == Failure(InvoiceTotalNotFound) <==>
      (exists j :: 0 <= j < |sheet| && HasLabel(sheet[j], PriceLabel)) && ExtractTotal(invoiceText).None?
    ensures result.Failure? ==> file.stored == old(file.stored)
    ensures result.Success? ==>
      exists j: nat :: IsAmountColumn(sheet, j) && result.value.summary.sheetTotal == ColumnTotal(sheet[j].cells)
    ensures result.Success? ==> ExtractTotal(invoiceText) == Some(result.value.summary.invoiceTotal)
    ensures result.Success? ==>
      result.value.summary == NewRecord(today, store, result.value.summary.sheetTotal, result.value.summary.invoiceTotal)
    ensures result.Success? ==> result.value.outcome == Classify(result.value.summary.gain)
    ensures result.Success? ==> result.value.history == Rows(old(file.stored)) + [result.value.summary]
    ensures result.Success? ==> file.stored == Some(result.value.history)
    ensures result.Success? ==> result.value.monthly == Monthly(result.value.history)
    ensures result.Success? && AllConsistent(Rows(old(file.stored))) ==> AllConsistent(result.value.history)
  {
    var column := LocateColumn(sheet, PriceLabel);
    if column.None? {
      return Failure(ColumnNotFound);
    }
    ghost var j := column.value;
    assert IsAmountColumn(sheet, j);
    var sheetTotal := ColumnTotal(sheet[column.value].cells);
    var invoiceTotal := ExtractTotal(invoiceText);
    if invoiceTotal.None? {
      return Failure(InvoiceTotalNotFound);
    }
    assert ExtractTotal(invoiceText) == Some(invoiceTotal.value);
    var summary := NewRecord(today, store, sheetTotal, invoiceTotal.value);
    var outcome := Classify(summary.gain);
    var history := file.Append(summary);
    if AllConsistent(Rows(old(file.stored))) {
      AppendKeepsConsistent(Rows(old(file.stored)), summary);
    }
    result := Success(Report(summary, outcome, history, Monthly(history)));
  }
}
