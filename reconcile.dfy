/**
 * Comparing the two totals: the gain is the spreadsheet total minus the invoice total,
 * classified with a tolerance of one cent (the source's `abs(ganho) < 0.01`).
 */
module Reconcile {

  /** The smallest difference, in cents, that counts as a real gain or shortfall. */
  const ToleranceCents: nat := 1

  datatype Outcome = Neutral | Positive | Negative

  function Abs(x: int): nat { if x < 0 then -x else x }

  /** Neutral inside the tolerance band, otherwise by the sign of the gain. */
  function Classify(gain: int): (o: Outcome)
    ensures o == Neutral <==> -(ToleranceCents as int) < gain < ToleranceCents
    ensures o == Positive <==> gain >= ToleranceCents
    ensures o == Negative <==> gain <= -(ToleranceCents as int)
  {
    if Abs(gain) < ToleranceCents then Neutral
    else if gain > 0 then Positive
    else Negative
  }

  /** With whole cents the band holds only zero: a one-cent difference is never neutral. */
  lemma ClassifyCompares(sheetTotal: int, invoiceTotal: int)
    ensures Classify(sheetTotal - invoiceTotal) == Neutral <==> sheetTotal == invoiceTotal
    ensures Classify(sheetTotal - invoiceTotal) == Positive <==> sheetTotal > invoiceTotal
    ensures Classify(sheetTotal - invoiceTotal) == Negative <==> sheetTotal < invoiceTotal
  {
  }

  /** Swapping the two totals swaps gain and shortfall and keeps a neutral result neutral. */
  lemma ClassifyAntisymmetric(gain: int)
    ensures Classify(-gain) == match Classify(gain)
      case Neutral => Neutral
      case Positive => Negative
      case Negative => Positive
  {
  }

  /** A calendar date, as `datetime.today()` gives it. */
  datatype Date = Date(year: int, month: int, day: int)

  /** One row of the history: Data, Loja, Valor Planilha, Valor Nota Fiscal, Ganho. */
  datatype Record = Record(date: Date, store: string, sheetTotal: int, invoiceTotal: int, gain: int)

  /** The row's gain is its spreadsheet total minus its invoice total. */
  predicate Consistent(r: Record)
  {
    r.gain == r.sheetTotal - r.invoiceTotal
  }

  /** The one-row summary of a run. */
  function NewRecord(date: Date, store: string, sheetTotal: int, invoiceTotal: int): (r: Record)
    ensures Consistent(r)
    ensures r.date == date && r.store == store
    ensures r.sheetTotal == sheetTotal && r.invoiceTotal == invoiceTotal
  {
    Record(date, store, sheetTotal, invoiceTotal, sheetTotal - invoiceTotal)
  }
}
