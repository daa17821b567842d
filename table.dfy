/**
 * The spreadsheet side: a sheet is a sequence of columns in their declared order, each
 * holding cells of mixed type. The amount column is the first one in which some cell's
 * text contains the heading "Preço Tt"; its total is the sum of its genuinely numeric cells.
 */
module Table {
  import opened Wrappers
  import opened Money

  /** A spreadsheet cell: missing (None or NaN), a number (in cents), or text. */
  datatype Cell = Missing | Number(cents: int) | Text(s: string)

  datatype Column = Column(name: string, cells: seq<Cell>)

  type Sheet = seq<Column>

  const PriceLabel: string := "Preço Tt"

  /** The decimal text of a number, e.g. "-933.81". */
  function NumberText(cents: int): (s: string)
    ensures forall i :: 0 <= i < |s| ==> IsDigit(s[i]) || s[i] == '.' || s[i] == '-'
  {
    var m: nat := if cents < 0 then -cents else cents;
    (if cents < 0 then "-" else "") + Digits(m / 100) + "." + Pad(m % 100, 2)
  }

  /** `str(cell)`: what `astype(str)` turns a cell into before the heading is searched for. */
  function CellText(c: Cell): string
  {
    match c
    case Missing => "nan"
    case Number(v) => NumberText(v)
    case Text(s) => s
  }

  /** `sub` occurs in `s` starting at position i. */
  predicate OccursAt(s: string, sub: string, i: nat)
  {
    i + |sub| <= |s| && s[i..i + |sub|] == sub
  }

  /** `sub in s`, a plain substring test. */
  predicate Contains(s: string, sub: string)
  {
    exists i: nat :: i <= |s| && OccursAt(s, sub, i)
  }

  /** Some cell of the column, as text, contains the heading. */
  predicate HasLabel(col: Column, heading: string)
  {
    exists k :: 0 <= k < |col.cells| && Contains(CellText(col.cells[k]), heading)
  }

  /**
   * Scan the columns in order and stop at the first one holding the heading.
   * The index of that column, or None when no column holds it.
   */
  method LocateColumn(sheet: Sheet, heading: string) returns (found: Option<nat>)
    ensures found.Some? ==> found.value < |sheet| && HasLabel(sheet[found.value], heading)
    ensures found.Some? ==> forall j :: 0 <= j < found.value ==> !HasLabel(sheet[j], heading)
    ensures found.None? <==> forall j :: 0 <= j < |sheet| ==> !HasLabel(sheet[j], heading)
  {
    found := None;
    var i := 0;
    while i < |sheet|
      invariant 0 <= i <= |sheet|
      invariant forall j :: 0 <= j < i ==> !HasLabel(sheet[j], heading)
    {
      if HasLabel(sheet[i], heading) {
        found := Some(i);
        break;
      }
      i := i + 1;
    }
  }

  /** The heading starts with 'P', which no number's or missing cell's text contains. */
  lemma LabelOnlyInText(c: Cell)
    requires Contains(CellText(c), PriceLabel)
    ensures c.Text?
  {
    var s := CellText(c);
    var i: nat :| i <= |s| && OccursAt(s, PriceLabel, i);
    assert s[i] == PriceLabel[0] == 'P';
  }

  /** The column the locator picks for "Preço Tt" always holds a text cell. */
  lemma LabelledColumnHasText(col: Column)
    requires HasLabel(col, PriceLabel)
    ensures exists k :: 0 <= k < |col.cells| && col.cells[k].Text?
  {
    var k :| 0 <= k < |col.cells| && Contains(CellText(col.cells[k]), PriceLabel);
    LabelOnlyInText(col.cells[k]);
  }

  /** `dropna()`: the cells that are not missing, in order. */
  function DropMissing(cells: seq<Cell>): seq<Cell>
  {
    if cells == [] then []
    else (if cells[0].Missing? then [] else [cells[0]]) + DropMissing(cells[1..])
  }

  /** The `isinstance(x, (int, float))` filter: the values of the numeric cells, in order. */
  function NumericValues(cells: seq<Cell>): seq<int>
  {
    if cells == [] then []
    else (if cells[0].Number? then [cells[0].cents] else []) + NumericValues(cells[1..])
  }

  function Sum(vs: seq<int>): int
  {
    if vs == [] then 0 else vs[0] + Sum(vs[1..])
  }

  /** The spreadsheet total: missing cells dropped, non-numeric cells dropped, the rest summed. */
  function ColumnTotal(cells: seq<Cell>): int
  {
    Sum(NumericValues(DropMissing(cells)))
  }

  /** What a single cell adds to the total: its value if numeric, nothing otherwise. */
  function Contribution(c: Cell): int
  {
    if c.Number? then c.cents else 0
  }

  /** Dropping missing cells first changes neither the filtered values nor the total. */
  lemma {:induction false} DropMissingKeepsNumbers(cells: seq<Cell>)
    ensures NumericValues(DropMissing(cells)) == NumericValues(cells)
    ensures ColumnTotal(cells) == Sum(NumericValues(cells))
  {
    if cells != [] {
      DropMissingKeepsNumbers(cells[1..]);
      var head := if cells[0].Missing? then [] else [cells[0]];
      NumericValuesAppend(head, DropMissing(cells[1..]));
      NumericValuesAppend([cells[0]], cells[1..]);
      assert [cells[0]] + cells[1..] == cells;
    }
  }

  lemma {:induction false} NumericValuesAppend(a: seq<Cell>, b: seq<Cell>)
    ensures NumericValues(a + b) == NumericValues(a) + NumericValues(b)
  {
    if a == [] {
      assert a + b == b;
    } else {
      assert (a + b)[0] == a[0];
      assert (a + b)[1..] == a[1..] + b;
      NumericValuesAppend(a[1..], b);
    }
  }

  lemma {:induction false} SumAppend(a: seq<int>, b: seq<int>)
    ensures Sum(a + b) == Sum(a) + Sum(b)
  {
    if a == [] {
      assert a + b == b;
    } else {
      assert (a + b)[1..] == a[1..] + b;
      SumAppend(a[1..], b);
    }
  }

  /** The numeric cells' values are exactly the values of the Number cells, in their order. */
  lemma {:induction false} NumericValuesExact(cells: seq<Cell>)
    ensures forall v :: v in NumericValues(cells) <==> exists i :: 0 <= i < |cells| && cells[i] == Number(v)
  {
    if cells != [] {
      NumericValuesExact(cells[1..]);
      forall v ensures v in NumericValues(cells) <==> exists i :: 0 <= i < |cells| && cells[i] == Number(v) {
        if v in NumericValues(cells[1..]) {
          var i :| 0 <= i < |cells[1..]| && cells[1..][i] == Number(v);
          assert cells[i + 1] == Number(v);
        }
        if exists i :: 0 <= i < |cells| && cells[i] == Number(v) {
          var i :| 0 <= i < |cells| && cells[i] == Number(v);
          if i > 0 {
            assert cells[1..][i - 1] == Number(v);
          }
        }
      }
    }
  }

  /** The total is the sum, cell by cell, of what each cell contributes. */
  lemma {:induction false} TotalIsSumOfContributions(cells: seq<Cell>)
    ensures cells == [] ==> ColumnTotal(cells) == 0
    ensures cells != [] ==> ColumnTotal(cells) == Contribution(cells[0]) + ColumnTotal(cells[1..])
  {
    DropMissingKeepsNumbers(cells);
    if cells != [] {
      DropMissingKeepsNumbers(cells[1..]);
      var head := if cells[0].Number? then [cells[0].cents] else [];
      SumAppend(head, NumericValues(cells[1..]));
    }
  }

  /** The total of two blocks of cells is the sum of their totals. */
  lemma {:induction false} TotalAppend(a: seq<Cell>, b: seq<Cell>)
    ensures ColumnTotal(a + b) == ColumnTotal(a) + ColumnTotal(b)
  {
    DropMissingKeepsNumbers(a + b);
    DropMissingKeepsNumbers(a);
    DropMissingKeepsNumbers(b);
    NumericValuesAppend(a, b);
    SumAppend(NumericValues(a), NumericValues(b));
  }

  /**
   * Turning any cell into text, however numeric that text looks, takes exactly that
   * cell's numeric value out of the total.
   */
  lemma TextCellIgnored(cells: seq<Cell>, i: nat, s: string)
    requires i < |cells|
    ensures ColumnTotal(cells[i := Text(s)]) == ColumnTotal(cells) - Contribution(cells[i])
  {
    var pre, post := cells[..i], cells[i + 1..];
    assert cells == pre + [cells[i]] + post;
    assert cells[i := Text(s)] == pre + [Text(s)] + post;
    TotalAppend(pre + [cells[i]], post);
    TotalAppend(pre, [cells[i]]);
    TotalAppend(pre + [Text(s)], post);
    TotalAppend(pre, [Text(s)]);
    TotalIsSumOfContributions([cells[i]]);
    TotalIsSumOfContributions([Text(s)]);
    assert [cells[i]][1..] == [] && [Text(s)][1..] == [];
    TotalIsSumOfContributions([]);
  }

  /** A column without any numeric cell, in particular an empty one, totals 0. */
  lemma {:induction false} NoNumbersTotalZero(cells: seq<Cell>)
    requires forall i :: 0 <= i < |cells| ==> !cells[i].Number?
    ensures ColumnTotal(cells) == 0
  {
    TotalIsSumOfContributions(cells);
    if cells != [] {
      NoNumbersTotalZero(cells[1..]);
    }
  }
}
