/** The doctor-by-year tables (production value and procedure count): one row
    per doctor with a cell per year and a "Total Geral" column, then a
    "Total Geral" row with the per-year column totals and the grand total. */
module Pivot {
  import opened Base

  /** One aggregated result row: a doctor, a year and the aggregated value. */
  datatype Fact = Fact(profissional: string, ano: int, valor: real)

  /** A table row: its heading, one cell per year, and its "Total Geral". */
  datatype PivotRow = PivotRow(heading: string, cells: seq<real>, total: real)

  const TotalLabel: string := "Total Geral"

  /** The sum of the values of the facts whose (doctor, year) is in `keys`. */
  function SumIn(facts: seq<Fact>, keys: set<(string, int)>): real
  {
    if |facts| == 0 then 0.0
    else (if (facts[0].profissional, facts[0].ano) in keys then facts[0].valor else 0.0)
         + SumIn(facts[1..], keys)
  }

  /** The sum of every fact's value. */
  function Total(facts: seq<Fact>): real
  {
    if |facts| == 0 then 0.0 else facts[0].valor + Total(facts[1..])
  }

  /** `df[(profissional == m) & (ano == a)][col].sum()`: 0 for a missing cell. */
  function Cell(facts: seq<Fact>, m: string, a: int): real
  {
    SumIn(facts, {(m, a)})
  }

  function RowCells(facts: seq<Fact>, m: string, anos: seq<int>): (r: seq<real>)
    ensures |r| == |anos|
  {
    seq(|anos|, j requires 0 <= j < |anos| => Cell(facts, m, anos[j]))
  }

  /** Each doctor's "Total Geral". */
  function RowTotals(facts: seq<Fact>, medicos: seq<string>, anos: seq<int>): (r: seq<real>)
    ensures |r| == |medicos|
  {
    seq(|medicos|, i requires 0 <= i < |medicos| => Sum(RowCells(facts, medicos[i], anos)))
  }

  function ColumnCells(facts: seq<Fact>, medicos: seq<string>, a: int): (r: seq<real>)
    ensures |r| == |medicos|
  {
    seq(|medicos|, i requires 0 <= i < |medicos| => Cell(facts, medicos[i], a))
  }

  /** Each year's total over the doctors. */
  function ColumnTotals(facts: seq<Fact>, medicos: seq<string>, anos: seq<int>): (r: seq<real>)
    ensures |r| == |anos|
  {
    seq(|anos|, j requires 0 <= j < |anos| => Sum(ColumnCells(facts, medicos, anos[j])))
  }

  /** The table loop: every doctor's row holds its cells and their sum; the
      last row holds the column totals and the sum of the row totals. */
  method BuildPivot(facts: seq<Fact>, medicos: seq<string>, anos: seq<int>)
    returns (rows: seq<PivotRow>, totalRow: PivotRow)
    ensures |rows| == |medicos|
    ensures forall i :: 0 <= i < |medicos| ==>
              && rows[i].heading == medicos[i]
              && rows[i].cells == RowCells(facts, medicos[i], anos)
              && rows[i].total == Sum(rows[i].cells)
    ensures totalRow.heading == TotalLabel
    ensures totalRow.cells == ColumnTotals(facts, medicos, anos)
    ensures totalRow.total == Sum(RowTotals(facts, medicos, anos))
  {
    rows := [];
    for i := 0 to |medicos|
      invariant |rows| == i
      invariant forall k :: 0 <= k < i ==>
                  && rows[k].heading == medicos[k]
                  && rows[k].cells == RowCells(facts, medicos[k], anos)
                  && rows[k].total == Sum(rows[k].cells)
    {
      var cells: seq<real> := [];
      var total := 0.0;
      for j := 0 to |anos|
        invariant |cells| == j
        invariant forall k :: 0 <= k < j ==> cells[k] == Cell(facts, medicos[i], anos[k])
        invariant total == Sum(cells)
      {
        var valor := Cell(facts, medicos[i], anos[j]);
        SumAppend(cells, [valor]);
        cells := cells + [valor];
        total := total + valor;
      }
      rows := rows + [PivotRow(medicos[i], cells, total)];
    }
    var colTotals := seq(|anos|, j requires 0 <= j < |anos| =>
      Sum(seq(|rows|, k requires 0 <= k < |rows| => if j < |rows[k].cells| then rows[k].cells[j] else 0.0)));
    assert forall j :: 0 <= j < |anos| ==>
      seq(|rows|, k requires 0 <= k < |rows| => if j < |rows[k].cells| then rows[k].cells[j] else 0.0)
        == ColumnCells(facts, medicos, anos[j]);
    var rowTotals := seq(|rows|, k requires 0 <= k < |rows| => rows[k].total);
    assert rowTotals == RowTotals(facts, medicos, anos);
    totalRow := PivotRow(TotalLabel, colTotals, Sum(rowTotals));
  }

  // ----- Totals by key sets -----

  lemma {:induction false} SumInUnion(facts: seq<Fact>, a: set<(string, int)>, b: set<(string, int)>)
    requires a !! b
    ensures SumIn(facts, a + b) == SumIn(facts, a) + SumIn(facts, b)
  {
    if |facts| > 0 {
      SumInUnion(facts[1..], a, b);
    }
  }

  lemma {:induction false} SumInEmpty(facts: seq<Fact>, keys: set<(string, int)>)
    requires keys == {}
    ensures SumIn(facts, keys) == 0.0
  {
    if |facts| > 0 {
      SumInEmpty(facts[1..], keys);
    }
  }

  lemma {:induction false} SumInCovering(facts: seq<Fact>, keys: set<(string, int)>)
    requires forall k :: 0 <= k < |facts| ==> (facts[k].profissional, facts[k].ano) in keys
    ensures SumIn(facts, keys) == Total(facts)
  {
    if |facts| > 0 {
      assert forall k :: 0 <= k < |facts[1..]| ==> facts[1..][k] == facts[k + 1];
      SumInCovering(facts[1..], keys);
    }
  }

  function RowKeys(m: string, anos: seq<int>): set<(string, int)>
  {
    set a | a in anos :: (m, a)
  }

  function ColumnKeys(medicos: seq<string>, a: int): set<(string, int)>
  {
    set m | m in medicos :: (m, a)
  }

  function GridKeys(medicos: seq<string>, anos: seq<int>): set<(string, int)>
  {
    set m, a | m in medicos && a in anos :: (m, a)
  }

  lemma {:induction false} RowSum(facts: seq<Fact>, m: string, anos: seq<int>)
    requires NoDup(anos)
    ensures Sum(RowCells(facts, m, anos)) == SumIn(facts, RowKeys(m, anos))
  {
    if |anos| == 0 {
      SumInEmpty(facts, RowKeys(m, anos));
    } else {
      var rest := anos[1..];
      NoDupTail(anos);
      RowSum(facts, m, rest);
      assert RowCells(facts, m, anos)[1..] == RowCells(facts, m, rest);
      assert RowKeys(m, anos) == {(m, anos[0])} + RowKeys(m, rest) by {
        assert forall a :: a in anos <==> a == anos[0] || a in rest by {
          assert anos == [anos[0]] + rest;
        }
      }
      SumInUnion(facts, {(m, anos[0])}, RowKeys(m, rest));
      var cells := RowCells(facts, m, anos);
      assert Sum(cells) == cells[0] + Sum(cells[1..]);
    }
  }

  lemma {:induction false} ColumnSum(facts: seq<Fact>, medicos: seq<string>, a: int)
    requires NoDup(medicos)
    ensures Sum(ColumnCells(facts, medicos, a)) == SumIn(facts, ColumnKeys(medicos, a))
  {
    if |medicos| == 0 {
      SumInEmpty(facts, ColumnKeys(medicos, a));
    } else {
      var rest := medicos[1..];
      NoDupTail(medicos);
      ColumnSum(facts, rest, a);
      assert ColumnCells(facts, medicos, a)[1..] == ColumnCells(facts, rest, a);
      assert ColumnKeys(medicos, a) == {(medicos[0], a)} + ColumnKeys(rest, a) by {
        assert forall m :: m in medicos <==> m == medicos[0] || m in rest by {
          assert medicos == [medicos[0]] + rest;
        }
      }
      SumInUnion(facts, {(medicos[0], a)}, ColumnKeys(rest, a));
      var cells := ColumnCells(facts, medicos, a);
      assert Sum(cells) == cells[0] + Sum(cells[1..]);
    }
  }

  /** Summing the row totals covers every (doctor, year) pair once. */
  lemma {:induction false} GrandByRows(facts: seq<Fact>, medicos: seq<string>, anos: seq<int>)
    requires NoDup(medicos) && NoDup(anos)
    ensures Sum(RowTotals(facts, medicos, anos)) == SumIn(facts, GridKeys(medicos, anos))
  {
    if |medicos| == 0 {
      SumInEmpty(facts, GridKeys(medicos, anos));
    } else {
      var rest := medicos[1..];
      NoDupTail(medicos);
      GrandByRows(facts, rest, anos);
      RowSum(facts, medicos[0], anos);
      assert RowTotals(facts, medicos, anos)[1..] == RowTotals(facts, rest, anos);
      assert GridKeys(medicos, anos) == RowKeys(medicos[0], anos) + GridKeys(rest, anos) by {
        assert forall m :: m in medicos <==> m == medicos[0] || m in rest by {
          assert medicos == [medicos[0]] + rest;
        }
      }
      SumInUnion(facts, RowKeys(medicos[0], anos), GridKeys(rest, anos));
      var totals := RowTotals(facts, medicos, anos);
      assert Sum(totals) == totals[0] + Sum(totals[1..]);
    }
  }

  /** Summing the column totals covers every (doctor, year) pair once too. */
  lemma {:induction false} GrandByColumns(facts: seq<Fact>, medicos: seq<string>, anos: seq<int>)
    requires NoDup(medicos) && NoDup(anos)
    ensures Sum(ColumnTotals(facts, medicos, anos)) == SumIn(facts, GridKeys(medicos, anos))
  {
    if |anos| == 0 {
      SumInEmpty(facts, GridKeys(medicos, anos));
    } else {
      var rest := anos[1..];
      NoDupTail(anos);
      GrandByColumns(facts, medicos, rest);
      ColumnSum(facts, medicos, anos[0]);
      assert ColumnTotals(facts, medicos, anos)[1..] == ColumnTotals(facts, medicos, rest);
      assert GridKeys(medicos, anos) == ColumnKeys(medicos, anos[0]) + GridKeys(medicos, rest) by {
        assert forall a :: a in anos <==> a == anos[0] || a in rest by {
          assert anos == [anos[0]] + rest;
        }
      }
      SumInUnion(facts, ColumnKeys(medicos, anos[0]), GridKeys(medicos, rest));
      var totals := ColumnTotals(facts, medicos, anos);
      assert Sum(totals) == totals[0] + Sum(totals[1..]);
    }
  }

  /** The grand total reads the same across the "Total Geral" column and
      across the "Total Geral" row, and, with the doctors and years being the
      distinct values that occur, it is the sum of every fact. */
  lemma GrandTotal(facts: seq<Fact>, medicos: seq<string>, anos: seq<int>)
    requires NoDup(medicos) && NoDup(anos)
    ensures Sum(RowTotals(facts, medicos, anos)) == Sum(ColumnTotals(facts, medicos, anos))
    ensures (forall k :: 0 <= k < |facts| ==> facts[k].profissional in medicos && facts[k].ano in anos) ==>
              Sum(RowTotals(facts, medicos, anos)) == Total(facts)
  {
    GrandByRows(facts, medicos, anos);
    GrandByColumns(facts, medicos, anos);
    if forall k :: 0 <= k < |facts| ==> facts[k].profissional in medicos && facts[k].ano in anos {
      SumInCovering(facts, GridKeys(medicos, anos));
    }
  }

  /** A doctor with no fact in some year gets 0 in that cell. */
  lemma {:induction false} MissingCellIsZero(facts: seq<Fact>, m: string, a: int)
    requires forall k :: 0 <= k < |facts| ==> facts[k].profissional != m || facts[k].ano != a
    ensures Cell(facts, m, a) == 0.0
  {
    if |facts| > 0 {
      assert forall k :: 0 <= k < |facts[1..]| ==> facts[1..][k] == facts[k + 1];
      MissingCellIsZero(facts[1..], m, a);
    }
  }
}
