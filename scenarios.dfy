/** The worked examples of the reconciliation engine, stated as lemmas about the model. */
module Scenarios {
  import opened Wrappers
  import opened Money
  import opened Table
  import opened Invoice
  import opened Reconcile
  import opened Aggregate

  /** Only genuinely numeric cells count: 100.50 + 200.25, the text "N/A" and the empty cell ignored. */
  lemma SheetTotalExample()
    ensures ColumnTotal([Number(10050), Text("N/A"), Number(20025), Missing]) == 30075
  {
  }

  /** A text cell that reads like a number still does not count. */
  lemma NumericLookingTextExample()
    ensures ColumnTotal([Number(10050), Text("200.25")]) == 10050
  {
  }

  lemma GroupedExample()
    ensures Grouped(1234) == "1.234"
  {
    assert Pad(234, 3) == "234";
  }

  lemma FractionExample()
    ensures Pad(56, 2) == "56"
  {
  }

  /** 1234.56 formats as "1.234,56". */
  lemma FormatExample()
    ensures FormatLocale(123456) == "1.234,56"
  {
    GroupedExample();
    FractionExample();
    assert 123456 / 100 == 1234 && 123456 % 100 == 56;
    assert FormatLocale(123456) == Grouped(1234) + "," + Pad(56, 2);
  }

  lemma InvoiceTextExample(text: string)
    requires text == "Total Liquido: 1.234,56"
    ensures text == TotalLabel + " " + "1.234,56" + ""
  {
  }

  /** "Total Liquido: 1.234,56" yields 1234.56. */
  lemma InvoiceTotalExample(text: string)
    requires text == "Total Liquido: 1.234,56"
    ensures ExtractTotal(text) == Some(123456)
  {
    FormatExample();
    InvoiceTextExample(text);
    ExtractFormatted(text, 123456, "");
  }

  /** 300.75 expected against 1234.56 billed is a shortfall of 933.81. */
  lemma ShortfallExample()
    ensures NewRecord(Date(2024, 3, 1), "Itaim", 30075, 123456).gain == -93381
    ensures Classify(-93381) == Negative
  {
  }

  /** One record on an empty history gives one monthly group for its month and store. */
  lemma MonthlyExample()
    ensures Monthly([NewRecord(Date(2024, 3, 1), "Itaim", 30075, 123456)]) ==
      [Group(Key(Month(2024, 3), "Itaim"), -93381)]
  {
    MonthlySingle(NewRecord(Date(2024, 3, 1), "Itaim", 30075, 123456));
  }

  /** The heading may sit in any row; the first column holding it is chosen. */
  method LocateExample() returns (found: Option<nat>)
    ensures found == Some(1)
  {
    var sheet := [
      Column("Qtd", [Number(500)]),
      Column("Valor", [Missing, Text(PriceLabel), Number(10050)]),
      Column("Obs", [Text(PriceLabel)])
    ];
    assert OccursAt(CellText(sheet[1].cells[1]), PriceLabel, 0);
    assert HasLabel(sheet[1], PriceLabel);
    assert !HasLabel(sheet[0], PriceLabel) by {
      if HasLabel(sheet[0], PriceLabel) {
        LabelOnlyInText(sheet[0].cells[0]);
      }
    }
    found := LocateColumn(sheet, PriceLabel);
  }
}
